/**
 * What the HTTP codec promises across its two halves: a head written by
 * `get_string`/`to_bytes` and read back by `create_from_buffer` and
 * `from_stream` gives back its verb or status, route, version, content
 * length, body and headers, the header names upper-cased.
 */
module HttpRoundTrip {
  import opened Wrappers
  import opened Text
  import opened HttpCommon

  // ---------------------------------------------------------------- well-formed text

  /** No CR and no LF. */
  predicate NoLineBreak(s: string)
  {
    forall k :: 0 <= k < |s| ==> s[k] != '\r' && s[k] != '\n'
  }

  /** A line the codec can carry: non-empty ASCII without CR or LF. */
  predicate LineText(s: string)
  {
    |s| > 0 && IsAscii(s) && NoLineBreak(s)
  }

  /** No ':' followed by a space. */
  predicate NoSeparator(s: string)
  {
    forall j :: 0 <= j < |s| - 1 ==> !(s[j] == ':' && s[j + 1] == ' ')
  }

  /** A header name or value: ASCII without CR, LF or the separator ": ". */
  predicate FieldText(s: string)
  {
    IsAscii(s) && NoLineBreak(s) && NoSeparator(s)
  }

  /** A start-line piece: a field text without spaces. */
  predicate Token(s: string)
  {
    FieldText(s) && !Contains(s, ' ')
  }

  /** Header names and values are field texts and no two names differ only in case. */
  predicate WellFormedHeaders(headers: map<string, string>)
  {
    && (forall k :: k in headers ==> FieldText(k) && FieldText(headers[k]))
    && (forall k1, k2 :: k1 in headers && k2 in headers && Upper(k1) == Upper(k2) ==> k1 == k2)
  }

  lemma AsciiAppend(a: string, b: string)
    requires IsAscii(a) && IsAscii(b)
    ensures IsAscii(a + b)
  {
    assert forall k :: |a| <= k < |a + b| ==> (a + b)[k] == b[k - |a|];
  }

  lemma NoLineBreakAppend(a: string, b: string)
    requires NoLineBreak(a) && NoLineBreak(b)
    ensures NoLineBreak(a + b)
  {
    assert forall k :: |a| <= k < |a + b| ==> (a + b)[k] == b[k - |a|];
  }

  lemma CrlfFree(s: string)
    requires NoLineBreak(s)
    ensures Free(s, Crlf)
  {
    forall j: nat
      ensures !OccursAt(s, Crlf, j)
    {
      if j + 2 <= |s| {
        assert s[j..j + 2][0] == s[j];
      }
    }
  }

  lemma SeparatorFree(s: string)
    requires NoSeparator(s)
    ensures Free(s, ": ")
  {
    forall j: nat
      ensures !OccursAt(s, ": ", j)
    {
      if j + 2 <= |s| {
        assert s[j..j + 2][0] == s[j];
        assert s[j..j + 2][1] == s[j + 1];
      }
    }
  }

  /** A text of one character cannot hold a two-character separator. */
  lemma ShortFree(s: string, sep: string)
    requires |s| < |sep|
    ensures Free(s, sep)
  {
  }

  // ---------------------------------------------------------------- lines

  /** The lines written by `get_string`, viewed from the front. */
  lemma {:induction false} LinesCons(line: string, lines: seq<string>)
    ensures Lines([line] + lines) == line + Crlf + Lines(lines)
    decreases |lines|
  {
    if lines == [] {
      assert ([line] + lines)[..0] == [];
    } else {
      var init := lines[..|lines| - 1];
      assert ([line] + lines)[..|lines|] == [line] + init;
      LinesCons(line, init);
    }
  }

  lemma {:induction false} LinesEndWithCrlf(lines: seq<string>)
    requires lines != []
    ensures |Lines(lines)| >= 2
    ensures Lines(lines)[|Lines(lines)| - 2..] == Crlf
  {
  }

  lemma {:induction false} LinesAscii(lines: seq<string>)
    requires forall i :: 0 <= i < |lines| ==> LineText(lines[i])
    ensures IsAscii(Lines(lines))
  {
    if lines != [] {
      var init := lines[..|lines| - 1];
      LinesAscii(init);
      AsciiAppend(Lines(init), lines[|lines| - 1]);
      AsciiAppend(Lines(init) + lines[|lines| - 1], Crlf);
    }
  }

  /** The first line is the start of the written text. */
  lemma {:induction false} LinesLength(lines: seq<string>)
    requires lines != []
    ensures |Lines(lines)| >= |lines[0]| + 2
  {
    LinesCons(lines[0], lines[1..]);
    assert [lines[0]] + lines[1..] == lines;
  }

  /** CR LF CR LF starts at index `p` of `s`. */
  predicate BlankLineAt(s: string, p: nat)
  {
    p + 3 < |s| && s[p] == '\r' && s[p + 1] == '\n' && s[p + 2] == '\r' && s[p + 3] == '\n'
  }

  /** Lines that are not empty never put an empty line in the text. */
  lemma {:induction false} NoBlankLine(lines: seq<string>)
    requires forall i :: 0 <= i < |lines| ==> LineText(lines[i])
    ensures forall p :: !BlankLineAt(Lines(lines), p)
  {
    if lines != [] {
      var init := lines[..|lines| - 1];
      var line := lines[|lines| - 1];
      var x := Lines(init);
      var y := Lines(lines);
      NoBlankLine(init);
      assert y == x + line + Crlf;
      forall p: nat
        ensures !BlankLineAt(y, p)
      {
        if p + 3 < |x| {
          assert y[p..p + 4] == x[p..p + 4];
          assert !BlankLineAt(x, p);
        } else if p + 3 < |y| {
          var q := |x| + |line| - 1;
          assert y[q] == line[|line| - 1];
        }
      }
    }
  }

  lemma SplitLine(line: string, rest: string)
    requires NoLineBreak(line)
    ensures Split(line + Crlf + rest, Crlf) == [line] + Split(rest, Crlf)
  {
    CrlfFree(line);
    SplitAfterFree(line, Crlf, rest);
  }

  /** Splitting the written lines on CR LF gives the lines back, then the rest. */
  lemma {:induction false} SplitLines(lines: seq<string>, rest: string)
    requires forall i :: 0 <= i < |lines| ==> NoLineBreak(lines[i])
    requires Free(rest, Crlf)
    ensures Split(Lines(lines) + rest, Crlf) == lines + [rest]
    decreases |lines|
  {
    if lines == [] {
      assert Lines(lines) + rest == rest;
      SplitFree(rest, Crlf);
    } else {
      var tail := lines[1..];
      var t := Lines(tail) + rest;
      assert [lines[0]] + tail == lines;
      LinesCons(lines[0], tail);
      assert Lines(lines) + rest == lines[0] + Crlf + t by {
        assert Lines(lines) == lines[0] + Crlf + Lines(tail);
      }
      SplitLine(lines[0], t);
      assert forall i :: 0 <= i < |tail| ==> NoLineBreak(tail[i]) by {
        forall i | 0 <= i < |tail| ensures NoLineBreak(tail[i]) {
          assert tail[i] == lines[i + 1];
        }
      }
      SplitLines(tail, rest);
      assert [lines[0]] + (tail + [rest]) == lines + [rest];
    }
  }

  // ---------------------------------------------------------------- scan and decode

  /** The bytes of the written text agree with its characters, index by index. */
  lemma WrittenBytes(lines: seq<string>, tail: seq<byte>)
    requires forall i :: 0 <= i < |lines| ==> LineText(lines[i])
    ensures var text := Lines(lines) + Crlf;
            |Utf8(text)| == |text|
            && forall k :: 0 <= k < |text| ==> (Utf8(text) + tail)[k] as int == text[k] as int
  {
    var text := Lines(lines) + Crlf;
    LinesAscii(lines);
    AsciiAppend(Lines(lines), Crlf);
    Utf8Ascii(text);
  }

  /** A terminator with none before it is where the scan stops. */
  lemma FirstTerminator(b: seq<byte>, n: nat)
    requires TerminatorAt(b, n)
    requires forall j :: 0 <= j < n ==> !TerminatorAt(b, j)
    ensures HeaderEnd(b) == Some(n)
  {
  }

  /**
   * Bytes that spell text ending in CR LF with no empty line inside, then
   * one more CR LF: the first terminator is that final LF.
   */
  lemma TextTerminator(x: string, b: seq<byte>)
    requires |x| >= 5 && x[|x| - 2] == '\r' && x[|x| - 1] == '\n'
    requires forall p :: !BlankLineAt(x, p)
    requires |b| >= |x| + 2
    requires forall k :: 0 <= k < |x| + 2 ==> b[k] as int == (x + Crlf)[k] as int
    ensures HeaderEnd(b) == Some(|x| + 1)
  {
    var text := x + Crlf;
    var n := |x| + 1;
    assert forall k :: 0 <= k < |x| ==> text[k] == x[k];
    assert TerminatorAt(b, n);
    forall j: nat | j < n
      ensures !TerminatorAt(b, j)
    {
      if 4 < j {
        if j < |x| {
          assert !BlankLineAt(x, j - 3);
        } else {
          assert text[j] == '\r';
        }
      }
    }
    FirstTerminator(b, n);
  }

  /**
   * The first terminator in the written bytes is the last byte of the empty
   * line, whatever follows it.
   */
  lemma HeadEnd(lines: seq<string>, tail: seq<byte>)
    requires |lines| >= 1 && |lines[0]| >= 3
    requires forall i :: 0 <= i < |lines| ==> LineText(lines[i])
    ensures HeaderEnd(Utf8(Lines(lines) + Crlf) + tail) == Some(|Lines(lines)| + 1)
  {
    var x := Lines(lines);
    WrittenBytes(lines, tail);
    LinesLength(lines);
    LinesEndWithCrlf(lines);
    NoBlankLine(lines);
    assert x[|x| - 2] == '\r' && x[|x| - 1] == '\n' by {
      assert x[|x| - 2..][0] == x[|x| - 2];
      assert x[|x| - 2..][1] == x[|x| - 1];
    }
    TextTerminator(x, Utf8(x + Crlf) + tail);
  }

  /** The text handed to `parse_from_string` is the written lines followed by a lone CR. */
  lemma HeadDecoded(lines: seq<string>, tail: seq<byte>)
    requires forall i :: 0 <= i < |lines| ==> LineText(lines[i])
    ensures |Lines(lines)| + 1 <= |Utf8(Lines(lines) + Crlf) + tail|
    ensures DecodeLossy((Utf8(Lines(lines) + Crlf) + tail)[..|Lines(lines)| + 1]) == Lines(lines) + "\r"
  {
    var x := Lines(lines);
    var text := x + Crlf;
    var b := Utf8(text) + tail;
    WrittenBytes(lines, tail);
    LinesAscii(lines);
    var d := DecodeLossy(b[..|x| + 1]);
    forall k | 0 <= k < |x| + 1
      ensures d[k] == (x + "\r")[k]
    {
      assert text[k] == (x + "\r")[k];
      assert text[k] as int < 0x80 by {
        if k < |x| {
          assert text[k] == x[k];
        }
      }
    }
  }

  // ---------------------------------------------------------------- header fields

  /** `parsed` holds the headers of `headers`, each name upper-cased, and nothing else. */
  ghost predicate UpperCased(parsed: map<string, string>, headers: map<string, string>)
  {
    && (forall k :: k in headers ==> Upper(k) in parsed && parsed[Upper(k)] == headers[k])
    && (forall u :: u in parsed ==> exists k :: k in headers && Upper(k) == u)
  }

  /** The content length the line loop settles on when every name occurs once. */
  function LengthField(headers: map<string, string>): nat
  {
    if "CONTENT-LENGTH" in headers && ParseUsize(headers["CONTENT-LENGTH"]).Some?
    then ParseUsize(headers["CONTENT-LENGTH"]).value
    else 0
  }

  /** The lone CR left after the last header line adds nothing. */
  lemma TrailingCrIgnored(fields: HeaderFields)
    ensures HeaderStep(fields, "\r") == fields
  {
    ShortFree("\r", ": ");
    SplitFree("\r", ": ");
  }

  /** A written header line splits on ": " into its name and value. */
  lemma SplitField(name: string, value: string)
    requires Free(name, ": ") && Free(value, ": ")
    ensures Split(name + ": " + value, ": ") == [name, value]
  {
    SplitAfterFree(name, ": ", value);
    SplitFree(value, ": ");
  }

  lemma HeaderFieldsSnoc(lines: seq<string>, line: string)
    ensures HeaderFieldsOf(lines + [line]) == HeaderStep(HeaderFieldsOf(lines), line)
  {
    assert (lines + [line])[..|lines|] == lines;
  }

  /** One written header line: its upper-cased name now maps to its value. */
  lemma FieldStep(fields: HeaderFields, name: string, value: string)
    requires Free(name, ": ") && Free(value, ": ")
    ensures HeaderStep(fields, name + ": " + value)
         == HeaderFields(fields.headers[Upper(name) := value],
                         if Upper(name) == "CONTENT-LENGTH" && ParseUsize(value).Some?
                         then ParseUsize(value).value else fields.contentLength)
  {
    SplitField(name, value);
  }

  /** `fields` is what the line loop holds after the first `m` header lines written in `order`. */
  ghost predicate Collected(fields: HeaderFields, headers: map<string, string>, order: seq<string>, m: nat)
    requires m <= |order| && forall k :: k in order ==> k in headers
  {
    && (forall i :: 0 <= i < m ==> Upper(order[i]) in fields.headers && fields.headers[Upper(order[i])] == headers[order[i]])
    && (forall u :: u in fields.headers ==> exists i :: 0 <= i < m && Upper(order[i]) == u)
    && fields.contentLength == LengthField(fields.headers)
  }

  /** Storing a header keeps the length field in step, unless a second Content-Length arrives. */
  lemma LengthFieldStep(before: map<string, string>, contentLength: nat, key: string, value: string)
    requires contentLength == LengthField(before)
    requires key == "CONTENT-LENGTH" ==> "CONTENT-LENGTH" !in before
    ensures LengthField(before[key := value])
         == if key == "CONTENT-LENGTH" && ParseUsize(value).Some? then ParseUsize(value).value else contentLength
  {
    if key != "CONTENT-LENGTH" {
      assert ("CONTENT-LENGTH" in before[key := value]) == ("CONTENT-LENGTH" in before);
    }
  }

  /** Storing the next written header keeps every earlier one and adds its own. */
  lemma StoredStep(before: map<string, string>, headers: map<string, string>, order: seq<string>, m: nat)
    requires m < |order| && forall k :: k in order ==> k in headers
    requires forall j :: 0 <= j < m ==> Upper(order[j]) != Upper(order[m])
    requires forall i :: 0 <= i < m ==> Upper(order[i]) in before && before[Upper(order[i])] == headers[order[i]]
    ensures var after := before[Upper(order[m]) := headers[order[m]]];
            forall i :: 0 <= i < m + 1 ==> Upper(order[i]) in after && after[Upper(order[i])] == headers[order[i]]
  {
    var after := before[Upper(order[m]) := headers[order[m]]];
    forall i | 0 <= i < m + 1
      ensures Upper(order[i]) in after && after[Upper(order[i])] == headers[order[i]]
    {
      if i < m {
        assert Upper(order[i]) != Upper(order[m]);
      }
    }
  }

  /** Storing the next written header adds no name that was not written. */
  lemma CoveredStep(before: map<string, string>, after: map<string, string>, order: seq<string>, m: nat)
    requires m < |order| && after.Keys == before.Keys + {Upper(order[m])}
    requires forall u :: u in before ==> exists i :: 0 <= i < m && Upper(order[i]) == u
    ensures forall u :: u in after ==> exists j :: 0 <= j < m + 1 && Upper(order[j]) == u
  {
    forall u | u in after
      ensures exists j :: 0 <= j < m + 1 && Upper(order[j]) == u
    {
      if u != Upper(order[m]) {
        var j :| 0 <= j < m && Upper(order[j]) == u;
        assert 0 <= j < m + 1;
      }
    }
  }

  /** A name whose upper-cased form differs from every earlier one is not stored yet. */
  lemma FreshKey(before: map<string, string>, order: seq<string>, m: nat)
    requires m < |order|
    requires forall j :: 0 <= j < m ==> Upper(order[j]) != Upper(order[m])
    requires forall u :: u in before ==> exists i :: 0 <= i < m && Upper(order[i]) == u
    ensures Upper(order[m]) !in before
  {
    forall u | u in before
      ensures u != Upper(order[m])
    {
      var j :| 0 <= j < m && Upper(order[j]) == u;
    }
  }

  lemma CollectedStep(fields: HeaderFields, headers: map<string, string>, order: seq<string>, m: nat)
    requires m < |order| && forall k :: k in order ==> k in headers
    requires Free(order[m], ": ") && Free(headers[order[m]], ": ")
    requires forall j :: 0 <= j < m ==> Upper(order[j]) != Upper(order[m])
    requires Collected(fields, headers, order, m)
    ensures Collected(HeaderStep(fields, order[m] + ": " + headers[order[m]]), headers, order, m + 1)
  {
    var name := order[m];
    var value := headers[name];
    FieldStep(fields, name, value);
    StoredStep(fields.headers, headers, order, m);
    CoveredStep(fields.headers, fields.headers[Upper(name) := value], order, m);
    FreshKey(fields.headers, order, m);
    LengthFieldStep(fields.headers, fields.contentLength, Upper(name), value);
  }

  /** In a well-formed map, distinct names in `order` have distinct upper-cased forms. */
  lemma UpperDistinct(headers: map<string, string>, order: seq<string>, m: nat)
    requires m < |order| && forall k :: k in order ==> k in headers
    requires forall i, j :: 0 <= i < j < |order| ==> order[i] != order[j]
    requires WellFormedHeaders(headers)
    ensures forall j :: 0 <= j < m ==> Upper(order[j]) != Upper(order[m])
    ensures Free(order[m], ": ") && Free(headers[order[m]], ": ")
  {
    assert order[m] in headers;
    SeparatorFree(order[m]);
    SeparatorFree(headers[order[m]]);
    forall j | 0 <= j < m
      ensures Upper(order[j]) != Upper(order[m])
    {
      assert order[j] != order[m];
    }
  }

  /** `order` lists distinct names of a well-formed header map. */
  ghost predicate DistinctNames(headers: map<string, string>, order: seq<string>)
  {
    && (forall k :: k in order ==> k in headers)
    && (forall i, j :: 0 <= i < j < |order| ==> order[i] != order[j])
    && WellFormedHeaders(headers)
  }

  /** The line loop over the first `m` written header lines. */
  lemma {:induction false} FieldsOfHeaderLines(headers: map<string, string>, order: seq<string>, m: nat)
    requires m <= |order| && DistinctNames(headers, order)
    ensures Collected(HeaderFieldsOf(HeaderLineList(headers, order[..m])), headers, order, m)
  {
    if m == 0 {
      FieldsNone(headers, order);
    } else {
      FieldsOfHeaderLines(headers, order, m - 1);
      FieldsStep(headers, order, m);
    }
  }

  /** Before the first header line the loop holds nothing. */
  lemma FieldsNone(headers: map<string, string>, order: seq<string>)
    requires DistinctNames(headers, order)
    ensures Collected(HeaderFieldsOf(HeaderLineList(headers, order[..0])), headers, order, 0)
  {
    assert HeaderLineList(headers, order[..0]) == [];
  }

  /** One more turn of the line loop over the written header lines. */
  lemma FieldsStep(headers: map<string, string>, order: seq<string>, m: nat)
    requires 0 < m <= |order| && DistinctNames(headers, order)
    requires Collected(HeaderFieldsOf(HeaderLineList(headers, order[..m - 1])), headers, order, m - 1)
    ensures Collected(HeaderFieldsOf(HeaderLineList(headers, order[..m])), headers, order, m)
  {
    HeaderLineListSnoc(headers, order, m - 1);
    UpperDistinct(headers, order, m - 1);
    assert m - 1 + 1 == m;
    CollectedLine(HeaderLineList(headers, order[..m - 1]), headers, order, m - 1);
  }

  /** The line loop over one more written header line. */
  lemma CollectedLine(lines: seq<string>, headers: map<string, string>, order: seq<string>, i: nat)
    requires i < |order| && forall k :: k in order ==> k in headers
    requires Free(order[i], ": ") && Free(headers[order[i]], ": ")
    requires forall j :: 0 <= j < i ==> Upper(order[j]) != Upper(order[i])
    requires Collected(HeaderFieldsOf(lines), headers, order, i)
    ensures Collected(HeaderFieldsOf(lines + [order[i] + ": " + headers[order[i]]]), headers, order, i + 1)
  {
    HeaderFieldsSnoc(lines, order[i] + ": " + headers[order[i]]);
    CollectedStep(HeaderFieldsOf(lines), headers, order, i);
  }

  /** The line loop over all written header lines gives the headers back, names upper-cased. */
  lemma FieldsOfHeaders(headers: map<string, string>, order: seq<string>)
    requires EnumeratesKeys(order, headers) && WellFormedHeaders(headers)
    ensures var f := HeaderFieldsOf(HeaderLineList(headers, order));
            UpperCased(f.headers, headers) && f.contentLength == LengthField(f.headers)
  {
    assert DistinctNames(headers, order);
    FieldsOfHeaderLines(headers, order, |order|);
    assert order[..|order|] == order;
    CollectedAll(HeaderFieldsOf(HeaderLineList(headers, order)), headers, order);
  }

  /** Fields collected from every name of the map hold the map, names upper-cased. */
  lemma CollectedAll(f: HeaderFields, headers: map<string, string>, order: seq<string>)
    requires EnumeratesKeys(order, headers)
    requires Collected(f, headers, order, |order|)
    ensures UpperCased(f.headers, headers) && f.contentLength == LengthField(f.headers)
  {
    forall k | k in headers
      ensures Upper(k) in f.headers && f.headers[Upper(k)] == headers[k]
    {
      var i :| 0 <= i < |order| && order[i] == k;
    }
    forall u | u in f.headers
      ensures exists k :: k in headers && Upper(k) == u
    {
      var i :| 0 <= i < |order| && Upper(order[i]) == u;
      assert order[i] in headers;
    }
  }

  // ---------------------------------------------------------------- written lines

  lemma DigitsText(s: string)
    requires AllDigits(s)
    ensures IsAscii(s) && NoLineBreak(s) && !Contains(s, ' ')
  {
  }

  lemma HeaderLineText(name: string, value: string)
    requires FieldText(name) && FieldText(value)
    ensures LineText(name + ": " + value)
  {
    AsciiAppend(name, ": ");
    AsciiAppend(name + ": ", value);
    NoLineBreakAppend(name, ": ");
    NoLineBreakAppend(name + ": ", value);
  }

  /** Every line `get_string` writes for well-formed headers is a line the codec can carry. */
  lemma WrittenLinesText(start: string, headers: map<string, string>, order: seq<string>)
    requires LineText(start) && WellFormedHeaders(headers)
    requires forall k :: k in order ==> k in headers
    ensures var lines := [start] + HeaderLineList(headers, order);
            forall i :: 0 <= i < |lines| ==> LineText(lines[i])
  {
    var lines := [start] + HeaderLineList(headers, order);
    forall i | 0 <= i < |lines|
      ensures LineText(lines[i])
    {
      if i > 0 {
        assert order[i - 1] in headers;
        HeaderLineText(order[i - 1], headers[order[i - 1]]);
      }
    }
  }

  /** A start-line piece concatenated around a space, as both start-lines are built. */
  lemma SpacedText(a: string, b: string)
    requires IsAscii(a) && NoLineBreak(a) && IsAscii(b) && NoLineBreak(b)
    ensures IsAscii(a + " " + b) && NoLineBreak(a + " " + b)
  {
    AsciiAppend(a, " ");
    AsciiAppend(a + " ", b);
    NoLineBreakAppend(a, " ");
    NoLineBreakAppend(a + " ", b);
  }

  /** Text whose every character is printable ASCII is ASCII without line breaks. */
  lemma PrintableText(s: string)
    requires forall c :: c in s ==> ' ' <= c <= '~'
    ensures IsAscii(s) && NoLineBreak(s)
  {
    forall k | 0 <= k < |s| ensures ' ' <= s[k] <= '~' {
      assert s[k] in s;
    }
  }

  lemma VerbText(verb: HttpVerb)
    ensures |VerbStr(verb)| >= 3 && IsAscii(VerbStr(verb)) && NoLineBreak(VerbStr(verb))
    ensures !Contains(VerbStr(verb), ' ')
  {
    PrintableText(VerbStr(verb));
  }

  lemma ReasonText(status: HttpStatus)
    ensures IsAscii(StatusReason(status)) && NoLineBreak(StatusReason(status))
  {
    PrintableText(StatusReason(status));
  }

  /** What a request head needs for its text to survive the trip. */
  ghost predicate WellFormedRequestHeader(header: RequestHeader)
  {
    Token(header.route) && Token(header.httpVersion) && WellFormedHeaders(header.headers)
  }

  /** What a response head needs for its text to survive the trip. */
  ghost predicate WellFormedResponseHeader(header: ResponseHeader)
  {
    Token(header.httpVersion) && WellFormedHeaders(header.headers)
  }

  lemma RequestLineText(header: RequestHeader)
    requires Token(header.route) && Token(header.httpVersion)
    ensures LineText(RequestStartLine(header)) && |RequestStartLine(header)| >= 3
  {
    VerbText(header.verb);
    SpacedText(VerbStr(header.verb), header.route);
    SpacedText(VerbStr(header.verb) + " " + header.route, header.httpVersion);
  }

  lemma ResponseLineText(header: ResponseHeader)
    requires Token(header.httpVersion)
    ensures LineText(ResponseStartLine(header)) && |ResponseStartLine(header)| >= 3
  {
    var code := Decimal(StatusCode(header.status));
    DigitsText(code);
    ReasonText(header.status);
    SpacedText(header.httpVersion, code);
    SpacedText(header.httpVersion + " " + code, StatusReason(header.status));
  }

  /** The request start-line splits on spaces into verb, route and version. */
  lemma SplitRequestLine(header: RequestHeader)
    requires Token(header.route) && Token(header.httpVersion)
    ensures Split(RequestStartLine(header), " ") == [VerbStr(header.verb), header.route, header.httpVersion]
  {
    var verb := VerbStr(header.verb);
    VerbText(header.verb);
    FreeOfChar(verb, ' ');
    FreeOfChar(header.route, ' ');
    FreeOfChar(header.httpVersion, ' ');
    SplitThree(verb, header.route, header.httpVersion, " ");
  }

  /** The response start-line splits on spaces into version, code, and the words of the reason. */
  lemma SplitResponseLine(header: ResponseHeader)
    requires Token(header.httpVersion)
    ensures var status := Split(ResponseStartLine(header), " ");
            |status| >= 3 && status[0] == header.httpVersion && status[1] == Decimal(StatusCode(header.status))
  {
    var code := Decimal(StatusCode(header.status));
    var reason := StatusReason(header.status);
    DigitsText(code);
    FreeOfChar(code, ' ');
    FreeOfChar(header.httpVersion, ' ');
    assert ResponseStartLine(header) == header.httpVersion + " " + (code + " " + reason);
    SplitAfterFree(header.httpVersion, " ", code + " " + reason);
    SplitAfterFree(code, " ", reason);
  }

  /** A head of one line splits on CR LF into that line alone. */
  lemma SingleLine(line: string)
    requires NoLineBreak(line)
    ensures Split(line, Crlf) == [line]
  {
    CrlfFree(line);
    SplitFree(line, Crlf);
  }

  /** A request line with an unknown verb fails with the verb error, whatever follows the verb. */
  lemma UnknownVerbRejected(word: string, rest: string)
    requires VerbFromStr(word).Err? && !Contains(word, ' ') && NoLineBreak(word) && NoLineBreak(rest)
    ensures ParseRequest(word + " " + rest) == Err(Error("Unknown http verb"))
  {
    NoLineBreakAppend(word, " ");
    NoLineBreakAppend(word + " ", rest);
    SingleLine(word + " " + rest);
    FreeOfChar(word, ' ');
    SplitAfterFree(word, " ", rest);
  }

  /** A request line with a known verb but no version panics: the source indexes past the split. */
  lemma RequestLineWithoutVersionPanics(verb: HttpVerb, route: string)
    requires Token(route)
    ensures ParseRequest(VerbStr(verb) + " " + route) == Err(Panic)
  {
    VerbText(verb);
    SpacedText(VerbStr(verb), route);
    SingleLine(VerbStr(verb) + " " + route);
    FreeOfChar(VerbStr(verb), ' ');
    FreeOfChar(route, ' ');
    SplitAfterFree(VerbStr(verb), " ", route);
    SplitFree(route, " ");
    VerbRoundTrip(verb);
  }

  /** A status line without a code panics. */
  lemma StatusLineWithoutCodePanics(version: string)
    requires Token(version)
    ensures ParseResponse(version) == Err(Panic)
  {
    SingleLine(version);
    FreeOfChar(version, ' ');
    SplitFree(version, " ");
  }

  /** A code outside the six known ones fails with the status error. */
  lemma UnknownStatusRejected(version: string, code: nat)
    requires Token(version) && code < 0x8000 && code !in {200, 400, 401, 404, 405, 500}
    ensures ParseResponse(version + " " + Decimal(code)) == Err(Error("Unknown response type code"))
  {
    DigitsText(Decimal(code));
    SpacedText(version, Decimal(code));
    SingleLine(version + " " + Decimal(code));
    FreeOfChar(version, ' ');
    FreeOfChar(Decimal(code), ' ');
    SplitAfterFree(version, " ", Decimal(code));
    SplitFree(Decimal(code), " ");
    ParseI16Decimal(code);
  }

  /**
   * The lines of a written head: the head text minus its last LF splits into
   * the start-line, then lines whose fields are the header lines' fields.
   */
  lemma ParsedLinesOf(start: string, headerLines: seq<string>)
    requires NoLineBreak(start) && forall i :: 0 <= i < |headerLines| ==> NoLineBreak(headerLines[i])
    ensures var parsed := Split(Lines([start] + headerLines) + "\r", Crlf);
            && |parsed| >= 1 && parsed[0] == start
            && HeaderFieldsOf(parsed[1..]) == HeaderFieldsOf(headerLines)
  {
    var lines := [start] + headerLines;
    forall i | 0 <= i < |lines| ensures NoLineBreak(lines[i]) {
      if i > 0 {
        assert lines[i] == headerLines[i - 1];
      }
    }
    ShortFree("\r", Crlf);
    SplitLines(lines, "\r");
    assert (lines + ["\r"])[1..] == headerLines + ["\r"];
    HeaderFieldsSnoc(headerLines, "\r");
    TrailingCrIgnored(HeaderFieldsOf(headerLines));
  }

  lemma ParsedLines(start: string, headers: map<string, string>, order: seq<string>)
    requires LineText(start) && WellFormedHeaders(headers) && EnumeratesKeys(order, headers)
    ensures var lines := [start] + HeaderLineList(headers, order);
            var parsed := Split(Lines(lines) + "\r", Crlf);
            && |parsed| >= 1 && parsed[0] == start
            && var f := HeaderFieldsOf(parsed[1..]);
               UpperCased(f.headers, headers) && f.contentLength == LengthField(f.headers)
  {
    var headerLines := HeaderLineList(headers, order);
    WrittenLinesText(start, headers, order);
    forall i | 0 <= i < |headerLines| ensures NoLineBreak(headerLines[i]) {
      assert headerLines[i] == ([start] + headerLines)[i + 1];
    }
    ParsedLinesOf(start, headerLines);
    FieldsOfHeaders(headers, order);
  }

  /** `parse_from_string` reads back what `get_string` wrote, up to the empty line. */
  lemma ParseWrittenRequest(header: RequestHeader, order: seq<string>)
    requires WellFormedRequestHeader(header) && EnumeratesKeys(order, header.headers)
    ensures var lines := [RequestStartLine(header)] + HeaderLineList(header.headers, order);
            var r := ParseRequest(Lines(lines) + "\r");
            && r.Ok?
            && r.value.verb == header.verb && r.value.route == header.route
            && r.value.httpVersion == header.httpVersion
            && UpperCased(r.value.headers, header.headers)
            && r.value.contentLength == LengthField(r.value.headers)
  {
    RequestLineText(header);
    ParsedLines(RequestStartLine(header), header.headers, order);
    SplitRequestLine(header);
    VerbRoundTrip(header.verb);
  }

  lemma ParseWrittenResponse(header: ResponseHeader, order: seq<string>)
    requires WellFormedResponseHeader(header) && EnumeratesKeys(order, header.headers)
    ensures var lines := [ResponseStartLine(header)] + HeaderLineList(header.headers, order);
            var r := ParseResponse(Lines(lines) + "\r");
            && r.Ok?
            && r.value.status == header.status && r.value.httpVersion == header.httpVersion
            && UpperCased(r.value.headers, header.headers)
            && r.value.contentLength == LengthField(r.value.headers)
  {
    ResponseLineText(header);
    ParsedLines(ResponseStartLine(header), header.headers, order);
    SplitResponseLine(header);
    StatusRoundTrip(header.status);
    ParseI16Decimal(StatusCode(header.status));
  }

  // ---------------------------------------------------------------- from_stream

  /** The written head, whatever bytes follow it: where the scan stops and what it decodes. */
  lemma WrittenHead(lines: seq<string>, tail: seq<byte>)
    requires |lines| >= 1 && |lines[0]| >= 3
    requires forall i :: 0 <= i < |lines| ==> LineText(lines[i])
    ensures var text := Lines(lines) + Crlf;
            && |Utf8(text)| == |text|
            && HeaderEnd(Utf8(text) + tail) == Some(|text| - 1)
            && DecodeLossy((Utf8(text) + tail)[..|text| - 1]) == Lines(lines) + "\r"
  {
    WrittenBytes(lines, tail);
    HeadEnd(lines, tail);
    HeadDecoded(lines, tail);
  }

  /** A buffer that begins with the bytes of written lines and an empty line. */
  predicate HeadWritten(lines: seq<string>, buffer: seq<byte>)
  {
    && |lines| >= 1 && |lines[0]| >= 3
    && (forall i :: 0 <= i < |lines| ==> LineText(lines[i]))
    && var head := Utf8(Lines(lines) + Crlf); |head| <= |buffer| && buffer[..|head|] == head
  }

  /** A buffer that begins with a written head: where the scan stops and what it decodes. */
  lemma WrittenHeadIn(lines: seq<string>, buffer: seq<byte>)
    requires HeadWritten(lines, buffer)
    ensures |Utf8(Lines(lines) + Crlf)| == |Lines(lines)| + 2
    ensures HeaderEnd(buffer) == Some(|Lines(lines)| + 1)
    ensures DecodeLossy(buffer[..|Lines(lines)| + 1]) == Lines(lines) + "\r"
  {
    var head := Utf8(Lines(lines) + Crlf);
    var tail := buffer[|head|..];
    assert buffer == head + tail by {
      assert buffer == buffer[..|head|] + buffer[|head|..];
    }
    WrittenHead(lines, tail);
  }

  lemma RequestHeadFrom(buffer: seq<byte>, x: string, header: RequestHeader)
    requires HeaderEnd(buffer) == Some(|x| + 1) && DecodeLossy(buffer[..|x| + 1]) == x + "\r"
    requires ParseRequest(x + "\r") == Result.Ok(header)
    ensures RequestHeadFromBuffer(buffer) == Result.Ok((header, |x| + 2))
  {
  }

  lemma ResponseHeadFrom(buffer: seq<byte>, x: string, header: ResponseHeader)
    requires HeaderEnd(buffer) == Some(|x| + 1) && DecodeLossy(buffer[..|x| + 1]) == x + "\r"
    requires ParseResponse(x + "\r") == Result.Ok(header)
    ensures ResponseHeadFromBuffer(buffer) == Result.Ok((header, |x| + 2))
  {
  }

  /** A buffer that begins with written lines and an empty line holds the head they parse to. */
  lemma RequestHeadRead(lines: seq<string>, buffer: seq<byte>, parsed: RequestHeader)
    requires HeadWritten(lines, buffer)
    requires ParseRequest(Lines(lines) + "\r") == Result.Ok(parsed)
    ensures |Utf8(Lines(lines) + Crlf)| == |Lines(lines)| + 2
    ensures RequestHeadFromBuffer(buffer) == Result.Ok((parsed, |Lines(lines)| + 2))
  {
    WrittenHeadIn(lines, buffer);
    RequestHeadFrom(buffer, Lines(lines), parsed);
  }

  lemma ResponseHeadRead(lines: seq<string>, buffer: seq<byte>, parsed: ResponseHeader)
    requires HeadWritten(lines, buffer)
    requires ParseResponse(Lines(lines) + "\r") == Result.Ok(parsed)
    ensures |Utf8(Lines(lines) + Crlf)| == |Lines(lines)| + 2
    ensures ResponseHeadFromBuffer(buffer) == Result.Ok((parsed, |Lines(lines)| + 2))
  {
    WrittenHeadIn(lines, buffer);
    ResponseHeadFrom(buffer, Lines(lines), parsed);
  }

  /** `create_from_buffer` reads back a written request head and finds the body right after it. */
  lemma RequestHeadRoundTrip(header: RequestHeader, order: seq<string>, buffer: seq<byte>)
    requires WellFormedRequestHeader(header) && EnumeratesKeys(order, header.headers)
    requires var head := Utf8(HeadText(RequestStartLine(header), header.headers, order));
             |head| <= |buffer| && buffer[..|head|] == head
    ensures var head := Utf8(HeadText(RequestStartLine(header), header.headers, order));
            var r := RequestHeadFromBuffer(buffer);
            && r.Ok? && r.value.1 == |head|
            && r.value.0.verb == header.verb && r.value.0.route == header.route
            && r.value.0.httpVersion == header.httpVersion
            && UpperCased(r.value.0.headers, header.headers)
            && r.value.0.contentLength == LengthField(r.value.0.headers)
  {
    var lines := [RequestStartLine(header)] + HeaderLineList(header.headers, order);
    assert HeadText(RequestStartLine(header), header.headers, order) == Lines(lines) + Crlf;
    RequestLineText(header);
    WrittenLinesText(RequestStartLine(header), header.headers, order);
    ParseWrittenRequest(header, order);
    var parsed := ParseRequest(Lines(lines) + "\r").value;
    assert HeadWritten(lines, buffer);
    RequestHeadRead(lines, buffer, parsed);
  }

  /** `create_from_buffer` reads back a written response head and finds the body right after it. */
  lemma ResponseHeadRoundTrip(header: ResponseHeader, order: seq<string>, buffer: seq<byte>)
    requires WellFormedResponseHeader(header) && EnumeratesKeys(order, header.headers)
    requires var head := Utf8(HeadText(ResponseStartLine(header), header.headers, order));
             |head| <= |buffer| && buffer[..|head|] == head
    ensures var head := Utf8(HeadText(ResponseStartLine(header), header.headers, order));
            var r := ResponseHeadFromBuffer(buffer);
            && r.Ok? && r.value.1 == |head|
            && r.value.0.status == header.status
            && r.value.0.httpVersion == header.httpVersion
            && UpperCased(r.value.0.headers, header.headers)
            && r.value.0.contentLength == LengthField(r.value.0.headers)
  {
    var lines := [ResponseStartLine(header)] + HeaderLineList(header.headers, order);
    assert HeadText(ResponseStartLine(header), header.headers, order) == Lines(lines) + Crlf;
    ResponseLineText(header);
    WrittenLinesText(ResponseStartLine(header), header.headers, order);
    ParseWrittenResponse(header, order);
    var parsed := ParseResponse(Lines(lines) + "\r").value;
    assert HeadWritten(lines, buffer);
    ResponseHeadRead(lines, buffer, parsed);
  }

  /** A request body sits in the buffer right after the head. */
  predicate BodyAt(buffer: seq<byte>, start: nat, body: Option<seq<byte>>)
  {
    |buffer| == BufferSize && start + BodyLength(body) <= BufferSize
    && buffer[start..start + BodyLength(body)] == BodyBytes(body)
  }

  /** The body slice returns a body that was read right after the head; an empty body as none. */
  lemma BodyRoundTrip(buffer: seq<byte>, start: nat, body: Option<seq<byte>>)
    requires BodyAt(buffer, start, body)
    ensures RequestBody(buffer, start, BodyLength(body)) == if BodyLength(body) > 0 then body else None
  {
  }

  /** `from_stream` for a request, once the head is read. */
  lemma RequestFromHead(buffer: seq<byte>, header: RequestHeader, start: nat, body: Option<seq<byte>>)
    requires BodyAt(buffer, start, body)
    requires RequestHeadFromBuffer(buffer) == Result.Ok((header, start))
    ensures RequestFromBuffer(buffer) == Result.Ok(Request(header, RequestBody(buffer, start, header.contentLength)))
    ensures header.contentLength == BodyLength(body) ==>
              RequestFromBuffer(buffer).value.body == if BodyLength(body) > 0 then body else None
  {
    BodyRoundTrip(buffer, start, body);
  }

  /**
   * Where a response body sits once `from_stream` has read: right after the
   * head in the first buffer, or, when the first read returned the head
   * alone (`read == start`), at the front of the second.
   */
  predicate BodyPlaced(buffer: seq<byte>, start: nat, read: nat, next: seq<byte>, body: Option<seq<byte>>)
  {
    && |buffer| == BufferSize && |next| == BufferSize && start + BodyLength(body) <= BufferSize
    && (read != start ==> buffer[start..start + BodyLength(body)] == BodyBytes(body))
    && (read == start ==> next[..BodyLength(body)] == BodyBytes(body))
  }

  /** The response body rule returns a body that arrived right after the head, or in the second read. */
  lemma ResponseBodyValue(buffer: seq<byte>, start: nat, read: nat, next: seq<byte>, body: Option<seq<byte>>)
    requires BodyPlaced(buffer, start, read, next, body)
    ensures ResponseBody(buffer, start, BodyLength(body), read, next) == if BodyLength(body) > 0 then body else None
  {
  }

  /** `from_stream` for a response, once the head is read. */
  lemma ResponseFromHead(buffer: seq<byte>, read: nat, next: seq<byte>, header: ResponseHeader, start: nat)
    requires |buffer| == BufferSize && |next| == BufferSize && start <= BufferSize
    requires ResponseHeadFromBuffer(buffer) == Result.Ok((header, start))
    ensures ResponseFromBuffer(buffer, read, next) == Result.Ok(Response(header, ResponseBody(buffer, start, header.contentLength, read, next)))
  {
  }

  lemma ResponseBodyRoundTrip(buffer: seq<byte>, read: nat, next: seq<byte>, header: ResponseHeader, start: nat, body: Option<seq<byte>>)
    requires BodyPlaced(buffer, start, read, next, body)
    requires ResponseHeadFromBuffer(buffer) == Result.Ok((header, start))
    ensures ResponseFromBuffer(buffer, read, next) == Result.Ok(Response(header, ResponseBody(buffer, start, header.contentLength, read, next)))
    ensures header.contentLength == BodyLength(body) ==>
              ResponseFromBuffer(buffer, read, next).value.body == if BodyLength(body) > 0 then body else None
  {
    ResponseFromHead(buffer, read, next, header, start);
    ResponseBodyValue(buffer, start, read, next, body);
  }

  /**
   * `to_bytes` then `from_stream`: a well-formed request whose head and body
   * were read into the buffer comes back with its verb, route, version and
   * headers (names upper-cased); when its Content-Length header gives the
   * body's length, the body comes back too, an empty body as no body.
   */
  lemma RequestRoundTrip(request: Request, order: seq<string>, buffer: seq<byte>)
    requires WellFormedRequestHeader(request.header) && EnumeratesKeys(order, request.header.headers)
    requires var head := Utf8(HeadText(RequestStartLine(request.header), request.header.headers, order));
             && |head| <= |buffer| && buffer[..|head|] == head
             && BodyAt(buffer, |head|, request.body)
    ensures RequestFromBuffer(buffer).Ok?
    ensures var r := RequestFromBuffer(buffer).value;
            && r.header.verb == request.header.verb && r.header.route == request.header.route
            && r.header.httpVersion == request.header.httpVersion
            && UpperCased(r.header.headers, request.header.headers)
            && r.header.contentLength == LengthField(r.header.headers)
            && (r.header.contentLength == BodyLength(request.body) ==>
                  r.body == if BodyLength(request.body) > 0 then request.body else None)
  {
    var head := Utf8(HeadText(RequestStartLine(request.header), request.header.headers, order));
    RequestHeadRoundTrip(request.header, order, buffer);
    var read := RequestHeadFromBuffer(buffer);
    assert read == Result.Ok((read.value.0, |head|));
    RequestFromHead(buffer, read.value.0, |head|, request.body);
  }

  /**
   * `to_bytes` then `from_stream` for a response. The first read returned
   * `read` bytes; when that was the head alone, the body is in `next`, the
   * buffer after the second read.
   */
  lemma ResponseRoundTrip(response: Response, order: seq<string>, buffer: seq<byte>, read: nat, next: seq<byte>)
    requires WellFormedResponseHeader(response.header) && EnumeratesKeys(order, response.header.headers)
    requires var head := Utf8(HeadText(ResponseStartLine(response.header), response.header.headers, order));
             && |head| <= |buffer| && buffer[..|head|] == head
             && BodyPlaced(buffer, |head|, read, next, response.body)
    ensures ResponseFromBuffer(buffer, read, next).Ok?
    ensures var r := ResponseFromBuffer(buffer, read, next).value;
            && r.header.status == response.header.status
            && r.header.httpVersion == response.header.httpVersion
            && UpperCased(r.header.headers, response.header.headers)
            && r.header.contentLength == LengthField(r.header.headers)
            && (r.header.contentLength == BodyLength(response.body) ==>
                  r.body == if BodyLength(response.body) > 0 then response.body else None)
  {
    var head := Utf8(HeadText(ResponseStartLine(response.header), response.header.headers, order));
    ResponseHeadRoundTrip(response.header, order, buffer);
    var first := ResponseHeadFromBuffer(buffer);
    assert first == Result.Ok((first.value.0, |head|));
    ResponseBodyRoundTrip(buffer, read, next, first.value.0, |head|, response.body);
  }

  // ---------------------------------------------------------------- created messages

  lemma DecimalField(n: nat)
    ensures FieldText(Decimal(n))
  {
    DigitsText(Decimal(n));
  }

  lemma VersionToken()
    ensures Token(HttpVersion)
  {
  }

  /** The upper-cased names of the standard headers. */
  const StandardNames: set<string> := {"SERVER", "CONTENT-LENGTH", "CONNECTION", "CONTENT-TYPE"}

  /** No added header repeats a standard one up to case. */
  predicate AddsOnlyNew(additional: map<string, string>)
  {
    forall k :: k in additional ==> Upper(k) !in StandardNames
  }

  /** A literal header text without ':' is a field text. */
  lemma LiteralField(s: string)
    requires IsAscii(s) && NoLineBreak(s) && !Contains(s, ':')
    ensures FieldText(s)
  {
  }

  lemma ServerHeader()
    ensures FieldText("Server") && FieldText("Psionic 0.0.1") && Upper("Server") == "SERVER"
  {
    LiteralField("Server");
    LiteralField("Psionic 0.0.1");
  }

  lemma ContentLengthHeader(contentLength: nat)
    ensures FieldText("Content-Length") && FieldText(Decimal(contentLength))
    ensures Upper("Content-Length") == "CONTENT-LENGTH"
  {
    LiteralField("Content-Length");
    DecimalField(contentLength);
  }

  lemma ConnectionHeader()
    ensures FieldText("Connection") && FieldText("Closed") && Upper("Connection") == "CONNECTION"
  {
    LiteralField("Connection");
    LiteralField("Closed");
  }

  lemma ContentTypeHeader()
    ensures FieldText("Content-Type") && Upper("Content-Type") == "CONTENT-TYPE"
  {
    LiteralField("Content-Type");
  }

  lemma StandardTexts(contentType: string, contentLength: nat)
    requires FieldText(contentType)
    ensures forall k :: k in StandardHeaders(contentType, contentLength) ==>
              FieldText(k) && FieldText(StandardHeaders(contentType, contentLength)[k]) && Upper(k) in StandardNames
  {
    var headers := StandardHeaders(contentType, contentLength);
    assert headers.Keys == {"Server", "Content-Length", "Connection", "Content-Type"};
    forall k | k in headers
      ensures FieldText(k) && FieldText(headers[k]) && Upper(k) in StandardNames
    {
      if k == "Server" {
        ServerHeader();
      } else if k == "Content-Length" {
        ContentLengthHeader(contentLength);
      } else if k == "Connection" {
        ConnectionHeader();
      } else {
        ContentTypeHeader();
      }
    }
  }

  lemma StandardFields(contentType: string, contentLength: nat)
    requires FieldText(contentType)
    ensures WellFormedHeaders(StandardHeaders(contentType, contentLength))
    ensures forall k :: k in StandardHeaders(contentType, contentLength) ==> Upper(k) in StandardNames
  {
    var headers := StandardHeaders(contentType, contentLength);
    StandardTexts(contentType, contentLength);
    assert headers.Keys == {"Server", "Content-Length", "Connection", "Content-Type"};
    ServerHeader();
    ContentLengthHeader(contentLength);
    ConnectionHeader();
    ContentTypeHeader();
    forall k1, k2 | k1 in headers && k2 in headers && Upper(k1) == Upper(k2)
      ensures k1 == k2
    {
      assert |Upper(k1)| == |k1| && |Upper(k2)| == |k2|;
    }
  }

  /** The headers `create` builds are well formed when what the caller adds is. */
  lemma CreatedHeaders(contentType: string, additional: map<string, string>, contentLength: nat)
    requires FieldText(contentType) && WellFormedHeaders(additional) && AddsOnlyNew(additional)
    ensures WellFormedHeaders(StandardHeaders(contentType, contentLength) + additional)
    ensures forall parsed :: UpperCased(parsed, StandardHeaders(contentType, contentLength) + additional) ==>
              contentLength < UsizeLimit ==> LengthField(parsed) == contentLength
  {
    var standard := StandardHeaders(contentType, contentLength);
    var headers := standard + additional;
    StandardFields(contentType, contentLength);
    ContentLengthHeader(contentLength);
    forall k1, k2 | k1 in headers && k2 in headers && Upper(k1) == Upper(k2)
      ensures k1 == k2
    {
    }
    assert "Content-Length" !in additional;
    forall parsed | UpperCased(parsed, headers) && contentLength < UsizeLimit
      ensures LengthField(parsed) == contentLength
    {
      assert "Content-Length" in headers;
      ParseUsizeDecimal(contentLength);
    }
  }

  /**
   * `HttpRequest::create`, `to_bytes`, then `from_stream`: the request comes
   * back whole, its content length being its body's length and its headers
   * the created ones with names upper-cased; an empty body comes back as none.
   */
  lemma CreatedRequestRoundTrip(contentType: string, additional: map<string, string>,
                                request: Request, order: seq<string>, buffer: seq<byte>)
    requires Token(request.header.route) && FieldText(contentType)
    requires WellFormedHeaders(additional) && AddsOnlyNew(additional)
    requires request.header.contentLength == BodyLength(request.body)
    requires request.header.httpVersion == HttpVersion
    requires request.header.headers == StandardHeaders(contentType, BodyLength(request.body)) + additional
    requires EnumeratesKeys(order, request.header.headers)
    requires |buffer| == BufferSize
    requires var head := Utf8(HeadText(RequestStartLine(request.header), request.header.headers, order));
             && |head| + BodyLength(request.body) <= BufferSize
             && buffer[..|head|] == head
             && buffer[|head|..|head| + BodyLength(request.body)] == BodyBytes(request.body)
    ensures RequestFromBuffer(buffer).Ok?
    ensures var r := RequestFromBuffer(buffer).value;
            && r.header.verb == request.header.verb && r.header.route == request.header.route
            && r.header.httpVersion == HttpVersion
            && r.header.contentLength == BodyLength(request.body)
            && UpperCased(r.header.headers, request.header.headers)
            && r.body == if BodyLength(request.body) > 0 then request.body else None
  {
    CreatedHeaders(contentType, additional, BodyLength(request.body));
    VersionToken();
    RequestRoundTrip(request, order, buffer);
  }

  /**
   * A well-formed response whose Content-Length header reads back as its
   * body's length, written with its body into the first read, comes back.
   */
  lemma WholeResponseRoundTrip(response: Response, order: seq<string>, buffer: seq<byte>, read: nat, next: seq<byte>)
    requires WellFormedResponseHeader(response.header) && EnumeratesKeys(order, response.header.headers)
    requires response.header.contentLength == BodyLength(response.body)
    requires forall parsed :: UpperCased(parsed, response.header.headers) ==>
               BodyLength(response.body) < UsizeLimit ==> LengthField(parsed) == BodyLength(response.body)
    requires |buffer| == BufferSize && |next| == BufferSize
    requires var head := Utf8(HeadText(ResponseStartLine(response.header), response.header.headers, order));
             && |head| + BodyLength(response.body) <= BufferSize
             && buffer[..|head|] == head
             && buffer[|head|..|head| + BodyLength(response.body)] == BodyBytes(response.body)
             && read == |head| + BodyLength(response.body)
    ensures ResponseFromBuffer(buffer, read, next).Ok?
    ensures var r := ResponseFromBuffer(buffer, read, next).value;
               && r.header.status == response.header.status && r.header.httpVersion == response.header.httpVersion
               && r.header.contentLength == BodyLength(response.body)
               && UpperCased(r.header.headers, response.header.headers)
               && r.body == if BodyLength(response.body) > 0 then response.body else None
  {
    var head := Utf8(HeadText(ResponseStartLine(response.header), response.header.headers, order));
    assert read == |head| ==> next[..BodyLength(response.body)] == BodyBytes(response.body) by {
      if read == |head| {
        assert BodyBytes(response.body) == [];
      }
    }
    ResponseRoundTrip(response, order, buffer, read, next);
    var r := ResponseFromBuffer(buffer, read, next).value;
    assert LengthField(r.header.headers) == BodyLength(response.body);
  }

  /** A response head as `create` makes it is well formed, and its Content-Length header reads back. */
  lemma CreatedResponseHeader(contentType: string, additional: map<string, string>, body: Option<seq<byte>>,
                              header: ResponseHeader)
    requires FieldText(contentType) && WellFormedHeaders(additional) && AddsOnlyNew(additional)
    requires header.httpVersion == HttpVersion
    requires header.headers == StandardHeaders(contentType, BodyLength(body)) + additional
    ensures WellFormedResponseHeader(header)
    ensures forall parsed :: UpperCased(parsed, header.headers) ==>
              BodyLength(body) < UsizeLimit ==> LengthField(parsed) == BodyLength(body)
  {
    CreatedHeaders(contentType, additional, BodyLength(body));
    VersionToken();
  }

  /** `HttpResponse::create`, `to_bytes`, then `from_stream`, the whole response in the first read. */
  lemma CreatedResponseRoundTrip(contentType: string, additional: map<string, string>,
                                 response: Response, order: seq<string>, buffer: seq<byte>, read: nat, next: seq<byte>)
    requires FieldText(contentType) && WellFormedHeaders(additional) && AddsOnlyNew(additional)
    requires response.header.contentLength == BodyLength(response.body)
    requires response.header.httpVersion == HttpVersion
    requires response.header.headers == StandardHeaders(contentType, BodyLength(response.body)) + additional
    requires EnumeratesKeys(order, response.header.headers)
    requires |buffer| == BufferSize && |next| == BufferSize
    requires var head := Utf8(HeadText(ResponseStartLine(response.header), response.header.headers, order));
             && |head| + BodyLength(response.body) <= BufferSize
             && buffer[..|head|] == head
             && buffer[|head|..|head| + BodyLength(response.body)] == BodyBytes(response.body)
             && read == |head| + BodyLength(response.body)
    ensures ResponseFromBuffer(buffer, read, next).Ok?
    ensures var r := ResponseFromBuffer(buffer, read, next).value;
               && r.header.status == response.header.status && r.header.httpVersion == HttpVersion
               && r.header.contentLength == BodyLength(response.body)
               && UpperCased(r.header.headers, response.header.headers)
               && r.body == if BodyLength(response.body) > 0 then response.body else None
  {
    CreatedResponseHeader(contentType, additional, response.body, response.header);
    WholeResponseRoundTrip(response, order, buffer, read, next);
  }


  // ---------------------------------------------------------------- finding

  /** The head of a GET request for "/" whose Content-Length is the largest `usize`. */
  const OverflowHeader: RequestHeader :=
    RequestHeader("/", GET, 0, map["Content-Length" := Decimal(UsizeLimit - 1)], HttpVersion)

  /** One more digit: `n` has one decimal digit more than `n / 10`. */
  lemma DecimalLengthStep(n: nat)
    requires n >= 10
    ensures |Decimal(n)| == |Decimal(n / 10)| + 1
  {
  }

  /** The largest 64-bit `usize`, 18446744073709551615, has twenty decimal digits. */
  lemma LargestDecimalLength()
    ensures |Decimal(UsizeLimit - 1)| == 20
  {
    LargestDecimalLengthHigh();
    DecimalLengthStep(18446744073);
    DecimalLengthStep(184467440737);
    DecimalLengthStep(1844674407370);
    DecimalLengthStep(18446744073709);
    DecimalLengthStep(184467440737095);
    DecimalLengthStep(1844674407370955);
    DecimalLengthStep(18446744073709551);
    DecimalLengthStep(184467440737095516);
    DecimalLengthStep(1844674407370955161);
    DecimalLengthStep(18446744073709551615);
  }

  lemma LargestDecimalLengthHigh()
    ensures |Decimal(1844674407)| == 10
  {
    DecimalLengthStep(18);
    DecimalLengthStep(184);
    DecimalLengthStep(1844);
    DecimalLengthStep(18446);
    DecimalLengthStep(184467);
    DecimalLengthStep(1844674);
    DecimalLengthStep(18446744);
    DecimalLengthStep(184467440);
    DecimalLengthStep(1844674407);
  }

  /** The head `get_string` writes for OverflowHeader, its single header written in the only order. */
  const OverflowHeadText: string :=
    "GET / HTTP/1.1" + Crlf + "Content-Length" + ": " + Decimal(UsizeLimit - 1) + Crlf + Crlf

  /** A head with a single header. */
  lemma OneHeaderText(start: string, name: string, value: string)
    ensures HeadText(start, map[name := value], [name]) == start + Crlf + name + ": " + value + Crlf + Crlf
  {
    var lines := [start] + HeaderLineList(map[name := value], [name]);
    assert lines == [start, name + ": " + value];
    assert lines[..1] == [start];
    assert Lines([start]) == start + Crlf by {
      assert [start][..0] == [];
    }
  }

  lemma OverflowHeadWritten()
    ensures HeadText(RequestStartLine(OverflowHeader), OverflowHeader.headers, ["Content-Length"]) == OverflowHeadText
  {
    assert RequestStartLine(OverflowHeader) == "GET / HTTP/1.1";
    OneHeaderText(RequestStartLine(OverflowHeader), "Content-Length", Decimal(UsizeLimit - 1));
  }

  /** The overflowing head is 56 bytes long. */
  lemma OverflowHeadLength()
    ensures |Utf8(OverflowHeadText)| == 56
  {
    var digits := Decimal(UsizeLimit - 1);
    LargestDecimalLength();
    PrintableText("GET / HTTP/1.1");
    PrintableText("Content-Length");
    PrintableText(": ");
    DigitsText(digits);
    AsciiAppend("GET / HTTP/1.1", Crlf);
    AsciiAppend("GET / HTTP/1.1" + Crlf, "Content-Length");
    AsciiAppend("GET / HTTP/1.1" + Crlf + "Content-Length", ": ");
    AsciiAppend("GET / HTTP/1.1" + Crlf + "Content-Length" + ": ", digits);
    AsciiAppend("GET / HTTP/1.1" + Crlf + "Content-Length" + ": " + digits, Crlf);
    AsciiAppend("GET / HTTP/1.1" + Crlf + "Content-Length" + ": " + digits + Crlf, Crlf);
    Utf8Ascii(OverflowHeadText);
  }

  /**
   * A request buffer that begins with `GET / HTTP/1.1`, then
   * `Content-Length: 18446744073709551615` and the blank line: the head reads
   * back with the largest `usize` as its content length and the body at 56,
   * where the as-written body rule panics and the corrected one finds no body.
   */
  lemma BodyRuleOverflows(buffer: seq<byte>)
    requires |buffer| == BufferSize
    requires var head := Utf8(OverflowHeadText); |head| <= |buffer| && buffer[..|head|] == head
    ensures RequestHeadFromBuffer(buffer).Ok?
    ensures var (header, start) := RequestHeadFromBuffer(buffer).value;
            && start == 56 && header.contentLength == UsizeLimit - 1
            && BodyRuleAsWritten(buffer, start, header.contentLength) == Err(Panic)
            && RequestBody(buffer, start, header.contentLength) == None
  {
    OverflowHeadRead(buffer);
    OverflowHeadLength();
  }

  /** The overflowing head reads back with its Content-Length. */
  lemma OverflowHeadRead(buffer: seq<byte>)
    requires var head := Utf8(OverflowHeadText); |head| <= |buffer| && buffer[..|head|] == head
    ensures RequestHeadFromBuffer(buffer).Ok?
    ensures RequestHeadFromBuffer(buffer).value.0.contentLength == UsizeLimit - 1
    ensures RequestHeadFromBuffer(buffer).value.1 == |Utf8(OverflowHeadText)|
  {
    OverflowHeadWritten();
    OverflowHeaderWellFormed();
    RequestHeadRoundTrip(OverflowHeader, ["Content-Length"], buffer);
    OverflowLengthField(RequestHeadFromBuffer(buffer).value.0.headers);
  }

  lemma OverflowHeaderWellFormed()
    ensures WellFormedRequestHeader(OverflowHeader)
    ensures EnumeratesKeys(["Content-Length"], OverflowHeader.headers)
  {
    ContentLengthHeader(UsizeLimit - 1);
    VersionToken();
    LiteralField("/");
  }

  /** Headers read back from OverflowHeader's carry the largest `usize` as their length field. */
  lemma OverflowLengthField(parsed: map<string, string>)
    requires UpperCased(parsed, OverflowHeader.headers)
    ensures LengthField(parsed) == UsizeLimit - 1
  {
    ContentLengthHeader(UsizeLimit - 1);
    assert "Content-Length" in OverflowHeader.headers;
    ParseUsizeDecimal(UsizeLimit - 1);
  }

}
