/**
 * `Url::parse` (src/main.rs): the path of a URL split into segments on '/',
 * each segment's text before its first '?' kept as a part, and the
 * `key=value` pairs after its last '?' collected into the query map.
 */
module UrlParsing {
  import opened Text

  datatype Url = Url(parts: seq<string>, queryParameters: map<string, string>)

  /** `split_parts.skip(1)`: the segments after the text before the first '/'. */
  function Segments(value: string): seq<string>
  {
    Split(value, "/")[1..]
  }

  /** The part a segment contributes. */
  function SegmentPart(segment: string): string
  {
    if Contains(segment, '?') then Split(segment, "?")[0] else segment
  }

  /** The query text of a segment with a '?': the piece after its last '?'. */
  function SegmentQuery(segment: string): string
  {
    var pieces := Split(segment, "?");
    pieces[|pieces| - 1]
  }

  /** The `key=value` pairs inserted in order; a pair is kept only if it splits into exactly two pieces on "=". */
  function InsertPairs(query: map<string, string>, pairs: seq<string>): map<string, string>
  {
    if pairs == [] then query
    else
      var n := |pairs| - 1;
      var before := InsertPairs(query, pairs[..n]);
      var kv := Split(pairs[n], "=");
      if |kv| == 2 then before[kv[0] := kv[1]] else before
  }

  /** The parts of a list of segments, one per segment. */
  function Parts(segments: seq<string>): seq<string>
  {
    if segments == [] then []
    else Parts(segments[..|segments| - 1]) + [SegmentPart(segments[|segments| - 1])]
  }

  /** The query map built from a list of segments, in order. */
  function Query(segments: seq<string>): map<string, string>
  {
    if segments == [] then map[]
    else
      var n := |segments| - 1;
      if Contains(segments[n], '?')
      then InsertPairs(Query(segments[..n]), Split(SegmentQuery(segments[n]), "&"))
      else Query(segments[..n])
  }

  /** The URL that `Url::parse` builds from `value`. */
  function UrlOf(value: string): Url
  {
    Url(Parts(Segments(value)), Query(Segments(value)))
  }

  /** The inner loop of `Url::parse`: insert every pair that splits into exactly two pieces. */
  method AddPairs(query: map<string, string>, pairs: seq<string>) returns (result: map<string, string>)
    ensures result == InsertPairs(query, pairs)
  {
    result := query;
    for j := 0 to |pairs|
      invariant result == InsertPairs(query, pairs[..j])
    {
      assert pairs[..j + 1][..j] == pairs[..j];
      var qpp := Split(pairs[j], "=");
      if |qpp| == 2 {
        result := result[qpp[0] := qpp[1]];
      }
    }
    assert pairs[..|pairs|] == pairs;
  }

  /** `Url::parse`: a loop over the segments after the first '/'. */
  method Parse(value: string) returns (url: Url)
    ensures url == UrlOf(value)
    ensures |url.parts| == CountChar(value, '/')
  {
    var segments := Split(value, "/")[1..];
    var parts: seq<string> := [];
    var query: map<string, string> := map[];
    for i := 0 to |segments|
      invariant parts == Parts(segments[..i])
      invariant query == Query(segments[..i])
    {
      assert segments[..i + 1][..i] == segments[..i];
      var p := segments[i];
      if '?' in p {
        var pSplit := Split(p, "?");
        parts := parts + [pSplit[0]];
        query := AddPairs(query, Split(pSplit[|pSplit| - 1], "&"));
      } else {
        parts := parts + [p];
      }
    }
    assert segments[..|segments|] == segments;
    url := Url(parts, query);
    PartsCount(value);
  }

  lemma {:induction false} PartsLength(segments: seq<string>)
    ensures |Parts(segments)| == |segments|
    ensures forall k :: 0 <= k < |segments| ==> Parts(segments)[k] == SegmentPart(segments[k])
  {
    if segments != [] {
      var init := segments[..|segments| - 1];
      PartsLength(init);
      assert Parts(segments) == Parts(init) + [SegmentPart(segments[|segments| - 1])];
      forall k | 0 <= k < |segments|
        ensures Parts(segments)[k] == SegmentPart(segments[k])
      {
        if k < |init| {
          assert segments[k] == init[k];
        }
      }
    }
  }

  /** One part per '/' in the input: every segment after the first pushes exactly one part. */
  lemma PartsCount(value: string)
    ensures |UrlOf(value).parts| == CountChar(value, '/')
  {
    SplitCharCount(value, '/');
    PartsLength(Segments(value));
  }

  /**
   * The text before the first '/' is discarded: the input is that text, a
   * '/', and the segments joined with '/'.
   */
  lemma LeadingTextDiscarded(value: string)
    requires Contains(value, '/')
    ensures !Contains(Split(value, "/")[0], '/')
    ensures |Segments(value)| >= 1
    ensures value == Split(value, "/")[0] + "/" + Join(Segments(value), "/")
  {
    var pieces := Split(value, "/");
    FreeOfChar(pieces[0], '/');
    SplitCharCount(value, '/');
    if Contains(value, '/') {
      var j :| 0 <= j < |value| && value[j] == '/';
      CountPositive(value, '/', j);
    }
  }

  lemma {:induction false} CountPositive(s: string, c: char, j: nat)
    requires j < |s| && s[j] == c
    ensures CountChar(s, c) >= 1
    decreases j
  {
    if j > 0 {
      CountPositive(s[1..], c, j - 1);
    }
  }

  /** A segment without '?' is pushed unchanged. */
  lemma PlainSegmentKept(segment: string)
    requires !Contains(segment, '?')
    ensures SegmentPart(segment) == segment
  {
  }

  /** A segment with '?' contributes exactly its text before the first '?'. */
  lemma QuestionSegmentPart(segment: string)
    requires Contains(segment, '?')
    ensures exists i :: 0 <= i < |segment| && segment[i] == '?' && SegmentPart(segment) == segment[..i]
    ensures !Contains(SegmentPart(segment), '?')
  {
    FreeOfChar(segment, '?');
    var i := Find(segment, "?").value;
    assert segment[i..i + 1] == "?";
    assert segment[i] == '?';
    FreeOfChar(SegmentPart(segment), '?');
  }

  /** The query text is what follows the last '?' of the segment. */
  lemma QueryAfterLastQuestion(segment: string)
    requires Contains(segment, '?')
    ensures !Contains(SegmentQuery(segment), '?')
    ensures exists i :: 0 <= i < |segment| && segment[i] == '?' && segment[i + 1..] == SegmentQuery(segment)
  {
    var pieces := Split(segment, "?");
    var query := SegmentQuery(segment);
    FreeOfChar(segment, '?');
    FreeOfChar(query, '?');
    assert |pieces| >= 2;
    JoinEndsWithLast(pieces, "?");
    MarkBefore(segment, query);
  }

  /** Text ending in '?' and then `q` has a '?' followed by exactly `q`. */
  lemma MarkBefore(s: string, q: string)
    requires |s| >= |q| + 1 && s[|s| - |q| - 1..] == "?" + q
    ensures exists i :: 0 <= i < |s| && s[i] == '?' && s[i + 1..] == q
  {
    var i := |s| - |q| - 1;
    assert s[i] == s[i..][0];
    assert s[i + 1..] == s[i..][1..];
  }

  /** A join of two or more pieces ends with the separator and the last piece. */
  lemma {:induction false} JoinEndsWithLast(parts: seq<string>, sep: string)
    requires |parts| >= 2
    ensures var j := Join(parts, sep); var last := parts[|parts| - 1];
            |j| >= |sep| + |last| && j[|j| - |last| - |sep|..] == sep + last
  {
    if |parts| > 2 {
      JoinEndsWithLast(parts[1..], sep);
      assert parts[1..][|parts[1..]| - 1] == parts[|parts| - 1];
      var rest := Join(parts[1..], sep);
      assert Join(parts, sep) == parts[0] + sep + rest;
      var j := Join(parts, sep);
      var last := parts[|parts| - 1];
      assert j[|j| - |last| - |sep|..] == rest[|rest| - |last| - |sep|..];
    }
  }

  /** A pair that splits into a key and a value without '=' is inserted, overwriting any earlier value. */
  lemma LaterPairWins(query: map<string, string>, pairs: seq<string>, key: string, val: string)
    requires !Contains(key, '=') && !Contains(val, '=')
    ensures InsertPairs(query, pairs + [key + "=" + val]) == InsertPairs(query, pairs)[key := val]
  {
    var all := pairs + [key + "=" + val];
    assert all[..|all| - 1] == pairs;
    FreeOfChar(key, '=');
    FreeOfChar(val, '=');
    SplitAfterFree(key, "=", val);
    SplitFree(val, "=");
  }

  /** Every key of the query comes from the starting map or from a pair with exactly two pieces. */
  lemma {:induction false} QueryKeysFromPairs(query: map<string, string>, pairs: seq<string>)
    ensures forall k :: k in InsertPairs(query, pairs) ==>
              k in query || exists i :: 0 <= i < |pairs| && |Split(pairs[i], "=")| == 2 && Split(pairs[i], "=")[0] == k
  {
    if pairs != [] {
      var n := |pairs| - 1;
      QueryKeysFromPairs(query, pairs[..n]);
      forall k | k in InsertPairs(query, pairs)
        ensures k in query || exists i :: 0 <= i < |pairs| && |Split(pairs[i], "=")| == 2 && Split(pairs[i], "=")[0] == k
      {
        if k !in query && k in InsertPairs(query, pairs[..n]) {
          var i :| 0 <= i < n && |Split(pairs[..n][i], "=")| == 2 && Split(pairs[..n][i], "=")[0] == k;
          assert pairs[..n][i] == pairs[i];
        }
      }
    }
  }

  /** Text with none of the URL delimiters '/', '?', '&' and '='. */
  predicate QueryText(s: string)
  {
    forall k :: 0 <= k < |s| ==> s[k] != '/' && s[k] != '?' && s[k] != '&' && s[k] != '='
  }

  lemma TwoSegments(first: string, last: string)
    requires !Contains(first, '/') && !Contains(last, '/')
    ensures Segments("/" + first + "/" + last) == [first, last]
  {
    FreeOfChar("", '/');
    FreeOfChar(first, '/');
    FreeOfChar(last, '/');
    assert "/" + first + "/" + last == "" + "/" + first + "/" + last;
    SplitThree("", first, last, "/");
  }

  lemma SegmentWithPair(second: string, key: string, val: string)
    requires !Contains(second, '?')
    requires QueryText(key) && QueryText(val)
    ensures Contains(second + "?" + key + "=" + val, '?')
    ensures SegmentPart(second + "?" + key + "=" + val) == second
    ensures Split(SegmentQuery(second + "?" + key + "=" + val), "&") == [key + "=" + val]
  {
    var pair := key + "=" + val;
    assert !Contains(pair, '?') && !Contains(pair, '&');
    FreeOfChar(second, '?');
    FreeOfChar(pair, '?');
    assert second + "?" + key + "=" + val == second + "?" + pair;
    SplitAfterFree(second, "?", pair);
    SplitFree(pair, "?");
    FreeOfChar(pair, '&');
    SplitFree(pair, "&");
  }

  lemma TwoSegmentsParts(first: string, last: string)
    requires !Contains(first, '?')
    ensures Parts([first, last]) == [first, SegmentPart(last)]
    ensures Query([first, last]) ==
            if Contains(last, '?') then InsertPairs(map[], Split(SegmentQuery(last), "&")) else map[]
  {
    var segments := [first, last];
    assert segments[..1] == [first] && segments[..1][..0] == [];
    assert Parts(segments[..1]) == [first];
    assert Query(segments[..1]) == map[];
  }

  /**
   * A URL with two segments, the second carrying one `key=value` pair:
   * "/" + first + "/" + second + "?" + key + "=" + val.
   */
  lemma TwoSegmentsOnePair(first: string, second: string, key: string, val: string)
    requires !Contains(first, '/') && !Contains(first, '?')
    requires !Contains(second, '/') && !Contains(second, '?')
    requires QueryText(key) && QueryText(val)
    ensures UrlOf("/" + first + "/" + second + "?" + key + "=" + val) == Url([first, second], map[key := val])
  {
    var last := second + "?" + key + "=" + val;
    assert "/" + first + "/" + second + "?" + key + "=" + val == "/" + first + "/" + last;
    assert !Contains(last, '/') by {
      assert forall k :: 0 <= k < |key| ==> key[k] != '/';
      assert forall k :: 0 <= k < |val| ==> val[k] != '/';
    }
    TwoSegments(first, last);
    SegmentWithPair(second, key, val);
    LaterPairWins(map[], [], key, val);
    assert [] + [key + "=" + val] == [key + "=" + val];
    TwoSegmentsParts(first, last);
  }

  /** `test()` in src/main.rs: "/" has one empty part and no query. */
  lemma RootExample(value: string)
    requires value == "/"
    ensures UrlOf(value) == Url([""], map[])
  {
    FreeOfChar("", '/');
    assert value == "" + "/" + "";
    SplitAfterFree("", "/", "");
    SplitFree("", "/");
    assert Segments(value) == [""];
    FreeOfChar("", '?');
    assert [""][..0] == [];
  }

  /** `test()` in src/main.rs: "/home/test?k=v" has parts home, test and the query k = v. */
  lemma QueryExample(value: string)
    requires value == "/home/test?k=v"
    ensures UrlOf(value) == Url(["home", "test"], map["k" := "v"])
  {
    assert value == "/" + "home" + "/" + "test" + "?" + "k" + "=" + "v";
    TwoSegmentsOnePair("home", "test", "k", "v");
  }
}
