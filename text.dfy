/**
 * Text helpers shared by the HTTP codec and the URL splitter: Rust's
 * `str::split`, ASCII upper-casing, decimal integers as `format!("{}")`
 * writes them and `str::parse` reads them, and the byte form of a string.
 */
module Text {
  import opened Wrappers

  newtype byte = x: int | 0 <= x < 256

  // ---------------------------------------------------------------- split

  /** `sep` occurs in `s` starting at index `j`. */
  predicate OccursAt(s: string, sep: string, j: nat)
  {
    j + |sep| <= |s| && s[j..j + |sep|] == sep
  }

  lemma OccursAtTail(s: string, sep: string)
    requires |s| > 0
    ensures forall j: nat :: 1 <= j ==> (OccursAt(s, sep, j) <==> OccursAt(s[1..], sep, j - 1))
  {
    forall j: nat | 1 <= j
      ensures OccursAt(s, sep, j) <==> OccursAt(s[1..], sep, j - 1)
    {
      if j + |sep| <= |s| {
        var here, there := s[j..j + |sep|], s[1..][j - 1..j - 1 + |sep|];
        assert here == there by {
          forall k | 0 <= k < |sep|
            ensures here[k] == there[k]
          {
          }
        }
      }
    }
  }

  /** The index of the first occurrence of `sep` in `s`, if any. */
  function Find(s: string, sep: string): (r: Option<nat>)
    requires sep != []
    ensures r.Some? ==> OccursAt(s, sep, r.value)
    ensures r.Some? ==> forall j :: 0 <= j < r.value ==> !OccursAt(s, sep, j)
    ensures r.None? ==> forall j :: 0 <= j ==> !OccursAt(s, sep, j)
    decreases |s|
  {
    if |s| < |sep| then None
    else if s[..|sep|] == sep then Some(0)
    else
      var rest := Find(s[1..], sep);
      OccursAtTail(s, sep);
      assert !OccursAt(s, sep, 0);
      match rest
      case None => None
      case Some(k) => Some(k + 1)
  }

  /** `s` does not contain `sep`. */
  predicate Free(s: string, sep: string)
    requires sep != []
  {
    Find(s, sep).None?
  }

  /** The pieces joined back with `sep` between them. */
  function Join(parts: seq<string>, sep: string): string
    requires |parts| >= 1
  {
    if |parts| == 1 then parts[0] else parts[0] + sep + Join(parts[1..], sep)
  }

  /**
   * Rust's `s.split(sep)`: the pieces between the non-overlapping
   * occurrences of `sep`, scanning from the left; at least one piece.
   */
  function Split(s: string, sep: string): (parts: seq<string>)
    requires sep != []
    ensures |parts| >= 1
    ensures forall k :: 0 <= k < |parts| ==> Free(parts[k], sep)
    ensures Join(parts, sep) == s
    decreases |s|
  {
    match Find(s, sep)
    case None => [s]
    case Some(k) =>
      FirstPieceFree(s, sep, k);
      var parts := [s[..k]] + Split(s[k + |sep|..], sep);
      assert parts[1..] == Split(s[k + |sep|..], sep);
      assert s == s[..k] + sep + s[k + |sep|..];
      parts
  }

  /** The text before the first occurrence of `sep` does not contain it. */
  lemma FirstPieceFree(s: string, sep: string, k: nat)
    requires sep != [] && Find(s, sep) == Some(k)
    ensures k + |sep| <= |s| && s[k..k + |sep|] == sep
    ensures Free(s[..k], sep)
  {
    var first := s[..k];
    forall j: nat | OccursAt(first, sep, j) ensures OccursAt(s, sep, j) {
      assert first[j..j + |sep|] == s[j..j + |sep|];
    }
  }

  /** Separators that cannot overlap a piece's end: one character, or two different ones. */
  predicate Unbordered(sep: string)
  {
    |sep| == 1 || (|sep| == 2 && sep[0] != sep[1])
  }

  lemma FindAfterFree(first: string, sep: string, rest: string)
    requires sep != [] && Unbordered(sep) && Free(first, sep)
    ensures Find(first + sep + rest, sep) == Some(|first|)
  {
    var s := first + sep + rest;
    assert OccursAt(s, sep, |first|) by {
      assert s[|first|..|first| + |sep|] == sep;
    }
    forall j: nat | j < |first|
      ensures !OccursAt(s, sep, j)
    {
      if j + |sep| <= |first| {
        assert s[j..j + |sep|] == first[j..j + |sep|];
        assert !OccursAt(first, sep, j);
      } else {
        assert j == |first| - 1 && |sep| == 2;
        assert s[j + 1] == sep[0];
      }
    }
  }

  /** Splitting a sep-free piece followed by `sep` peels that piece off. */
  lemma SplitAfterFree(first: string, sep: string, rest: string)
    requires sep != [] && Unbordered(sep) && Free(first, sep)
    ensures Split(first + sep + rest, sep) == [first] + Split(rest, sep)
  {
    var s := first + sep + rest;
    FindAfterFree(first, sep, rest);
    assert s[..|first|] == first;
    assert s[|first| + |sep|..] == rest;
  }

  lemma SplitFree(s: string, sep: string)
    requires sep != [] && Free(s, sep)
    ensures Split(s, sep) == [s]
  {
  }

  /** Three pieces free of the separator, joined by it, split back into the three. */
  lemma SplitThree(a: string, b: string, c: string, sep: string)
    requires sep != [] && Unbordered(sep) && Free(a, sep) && Free(b, sep) && Free(c, sep)
    ensures Split(a + sep + b + sep + c, sep) == [a, b, c]
  {
    var parts := [a, b, c];
    JoinThree(a, b, c, sep);
    assert forall k :: 0 <= k < |parts| ==> Free(parts[k], sep);
    SplitJoin(parts, sep);
  }

  lemma JoinThree(a: string, b: string, c: string, sep: string)
    ensures Join([a, b, c], sep) == a + sep + b + sep + c
  {
    assert [b, c][1..] == [c];
    assert Join([b, c], sep) == b + sep + c;
    assert [a, b, c][1..] == [b, c];
    assert a + sep + b + sep + c == a + sep + (b + sep + c);
  }

  /** Splitting undoes joining when no piece contains the separator. */
  lemma {:induction false} SplitJoin(parts: seq<string>, sep: string)
    requires sep != [] && Unbordered(sep) && |parts| >= 1
    requires forall k :: 0 <= k < |parts| ==> Free(parts[k], sep)
    ensures Split(Join(parts, sep), sep) == parts
    decreases |parts|
  {
    if |parts| > 1 {
      SplitJoin(parts[1..], sep);
      SplitAfterFree(parts[0], sep, Join(parts[1..], sep));
    }
  }

  /** `s.contains(c)` for a character pattern. */
  predicate Contains(s: string, c: char)
  {
    c in s
  }

  lemma FreeOfChar(s: string, c: char)
    ensures Free(s, [c]) <==> !Contains(s, c)
  {
    if c in s {
      var j :| 0 <= j < |s| && s[j] == c;
      assert s[j..j + 1] == [c];
      assert OccursAt(s, [c], j);
    } else {
      forall j: nat ensures !OccursAt(s, [c], j) {
        if j < |s| {
          assert s[j..j + 1] == [s[j]];
        }
      }
    }
  }

  /** The number of occurrences of `c` in `s`. */
  function CountChar(s: string, c: char): nat
  {
    if s == [] then 0 else (if s[0] == c then 1 else 0) + CountChar(s[1..], c)
  }

  lemma {:induction false} CountCharAppend(a: string, b: string, c: char)
    ensures CountChar(a + b, c) == CountChar(a, c) + CountChar(b, c)
    decreases |a|
  {
    if a != [] {
      assert (a + b)[1..] == a[1..] + b;
      CountCharAppend(a[1..], b, c);
    } else {
      assert a + b == b;
    }
  }

  lemma {:induction false} CountCharAbsent(s: string, c: char)
    requires !Contains(s, c)
    ensures CountChar(s, c) == 0
    decreases |s|
  {
    if s != [] {
      CountCharAbsent(s[1..], c);
    }
  }

  /** Splitting on a character yields one more piece than there are occurrences of it. */
  lemma {:induction false} SplitCharCount(s: string, c: char)
    ensures |Split(s, [c])| == CountChar(s, c) + 1
    decreases |s|
  {
    match Find(s, [c])
    case None =>
      FreeOfChar(s, c);
      CountCharAbsent(s, c);
    case Some(k) =>
      var rest := s[k + 1..];
      SplitCharCount(rest, c);
      assert !Contains(s[..k], c) by {
        forall j | 0 <= j < k ensures s[..k][j] != c {
          assert !OccursAt(s, [c], j);
          assert s[j..j + 1] == [s[j]];
        }
      }
      CountCharAbsent(s[..k], c);
      assert s == s[..k] + [c] + rest;
      CountCharAppend(s[..k] + [c], rest, c);
      CountCharAppend(s[..k], [c], c);
  }

  // ---------------------------------------------------------------- case

  /** `char::to_uppercase` on ASCII letters; other characters are kept. */
  function UpperChar(c: char): char
  {
    if 'a' <= c <= 'z' then (c as int - 32) as char else c
  }

  /** `str::to_uppercase`, character by character. */
  function Upper(s: string): (u: string)
    ensures |u| == |s|
    ensures forall k :: 0 <= k < |s| ==> u[k] == UpperChar(s[k])
  {
    seq(|s|, k requires 0 <= k < |s| => UpperChar(s[k]))
  }

  /** Text with no lower-case ASCII letter. */
  predicate IsUpper(s: string)
  {
    forall k :: 0 <= k < |s| ==> !('a' <= s[k] <= 'z')
  }

  lemma UpperOfUpper(s: string)
    requires IsUpper(s)
    ensures Upper(s) == s
  {
  }

  lemma UpperIsUpper(s: string)
    ensures IsUpper(Upper(s))
    ensures Upper(Upper(s)) == Upper(s)
  {
  }

  // ---------------------------------------------------------------- decimal

  predicate IsDigit(c: char)
  {
    '0' <= c <= '9'
  }

  predicate AllDigits(s: string)
  {
    forall k :: 0 <= k < |s| ==> IsDigit(s[k])
  }

  function DigitChar(d: nat): char
    requires d < 10
  {
    ('0' as int + d) as char
  }

  /** The value of a string of decimal digits. */
  function DigitsValue(s: string): nat
    requires AllDigits(s)
  {
    if s == [] then 0
    else DigitsValue(s[..|s| - 1]) * 10 + (s[|s| - 1] as int - '0' as int)
  }

  /** `format!("{}", n)`: the shortest decimal digits of `n`. */
  function Decimal(n: nat): (s: string)
    ensures |s| >= 1 && AllDigits(s)
    ensures DigitsValue(s) == n
    ensures |s| > 1 ==> s[0] != '0'
  {
    if n < 10 then [DigitChar(n)]
    else
      var s := Decimal(n / 10) + [DigitChar(n % 10)];
      assert s[..|s| - 1] == Decimal(n / 10);
      s
  }

  const UsizeLimit: nat := 0x1_0000_0000_0000_0000

  /**
   * `s.parse::<usize>()` for a 64-bit `usize`: an optional `+`, then one or
   * more decimal digits whose value fits.
   */
  function ParseUsize(s: string): (r: Option<nat>)
    ensures r.Some? ==> r.value < UsizeLimit
    ensures r.Some? ==> s != [] && s != "+"
  {
    var digits := if |s| > 0 && s[0] == '+' then s[1..] else s;
    if digits != [] && AllDigits(digits) && DigitsValue(digits) < UsizeLimit
    then Some(DigitsValue(digits))
    else None
  }

  /** `s.parse::<i16>()`: an optional sign, then one or more decimal digits within range. */
  function ParseI16(s: string): (r: Option<int>)
    ensures r.Some? ==> -0x8000 <= r.value < 0x8000
  {
    var negative := |s| > 0 && s[0] == '-';
    var digits := if |s| > 0 && (s[0] == '+' || s[0] == '-') then s[1..] else s;
    if digits == [] || !AllDigits(digits) then None
    else if negative then
      (if DigitsValue(digits) <= 0x8000 then Some(-(DigitsValue(digits) as int)) else None)
    else
      (if DigitsValue(digits) < 0x8000 then Some(DigitsValue(digits)) else None)
  }

  /** What `format!` writes, `parse::<usize>` reads back. */
  lemma ParseUsizeDecimal(n: nat)
    requires n < UsizeLimit
    ensures ParseUsize(Decimal(n)) == Some(n)
  {
  }

  lemma ParseI16Decimal(n: nat)
    requires n < 0x8000
    ensures ParseI16(Decimal(n)) == Some(n)
  {
  }

  // ---------------------------------------------------------------- bytes

  predicate IsAscii(s: string)
  {
    forall k :: 0 <= k < |s| ==> s[k] as int < 0x80
  }

  /** The UTF-8 encoding of one character. */
  function EncodeChar(c: char): (b: seq<byte>)
    ensures 1 <= |b| <= 4
    ensures |b| == 1 <==> c as int < 0x80
    ensures |b| == 1 ==> b[0] as int == c as int
  {
    var n := c as int;
    if n < 0x80 then [n as byte]
    else if n < 0x800 then [(0xC0 + n / 0x40) as byte, (0x80 + n % 0x40) as byte]
    else if n < 0x10000 then
      [(0xE0 + n / 0x1000) as byte, (0x80 + n / 0x40 % 0x40) as byte, (0x80 + n % 0x40) as byte]
    else
      [(0xF0 + n / 0x40000) as byte, (0x80 + n / 0x1000 % 0x40) as byte,
       (0x80 + n / 0x40 % 0x40) as byte, (0x80 + n % 0x40) as byte]
  }

  /** `String::as_bytes`: the UTF-8 encoding of `s`. */
  function Utf8(s: string): seq<byte>
  {
    if s == [] then [] else EncodeChar(s[0]) + Utf8(s[1..])
  }

  /** On ASCII text the encoding is one byte per character, with the same value. */
  lemma {:induction false} Utf8Ascii(s: string)
    requires IsAscii(s)
    ensures |Utf8(s)| == |s|
    ensures forall k :: 0 <= k < |s| ==> Utf8(s)[k] as int == s[k] as int
    decreases |s|
  {
    if s != [] {
      Utf8Ascii(s[1..]);
      assert Utf8(s) == EncodeChar(s[0]) + Utf8(s[1..]);
    }
  }

  lemma {:induction false} Utf8Append(a: string, b: string)
    ensures Utf8(a + b) == Utf8(a) + Utf8(b)
    decreases |a|
  {
    if a == [] {
      assert a + b == b;
    } else {
      assert (a + b)[1..] == a[1..] + b;
      Utf8Append(a[1..], b);
    }
  }

  const ReplacementChar: char := '�'

  /**
   * `String::from_utf8_lossy` on a byte at a time: an ASCII byte is its own
   * character, any other byte becomes U+FFFD.
   */
  function DecodeLossy(b: seq<byte>): (s: string)
    ensures |s| == |b|
    ensures forall k :: 0 <= k < |b| && b[k] < 0x80 ==> s[k] as int == b[k] as int
    ensures forall k :: 0 <= k < |b| && b[k] >= 0x80 ==> s[k] == ReplacementChar
  {
    seq(|b|, k requires 0 <= k < |b| => if b[k] < 0x80 then b[k] as char else ReplacementChar)
  }

  /** Decoding the bytes of ASCII text gives the text back. */
  lemma DecodeUtf8Ascii(s: string)
    requires IsAscii(s)
    ensures DecodeLossy(Utf8(s)) == s
  {
    Utf8Ascii(s);
  }
}
