/**
 * The HTTP/1.1 message-head codec of src/http/common.rs, a simplified subset
 * of RFC 9110 and RFC 9112: the verb and status tables (methods and status
 * codes, sections 9 and 15 of RFC 9110), the request-line and status-line
 * (sections 3 and 4 of RFC 9112), the empty-line
 * terminator CR LF CR LF that ends a head (section 2.1), header-field lines
 * (section 5), Content-Length (section 6.2), the serialiser and the rule that
 * takes the body out of the read buffer.
 *
 * A socket read is modelled by the bytes it left in the buffer. Where the
 * source indexes past the end of the split start-line (a Rust panic), the
 * model returns the error `Panic`.
 */
module HttpCommon {
  import opened Wrappers
  import opened Text

  const BufferSize: nat := 4096
  const HttpVersion: string := "HTTP/1.1"
  const Crlf: string := "\r\n"
  const CR: byte := 13
  const LF: byte := 10

  datatype HttpVerb = GET | HEAD | POST | PUT | DELETE | CONNECT | OPTIONS | TRACE | PATCH

  datatype HttpStatus = Ok | BadRequest | Unauthorized | NotFound | MethodNotAllowed | InternalError

  /** An error string returned by the source, or a panic (index out of range). */
  datatype Fault = Error(message: string) | Panic

  datatype RequestHeader = RequestHeader(
    route: string, verb: HttpVerb, contentLength: nat,
    headers: map<string, string>, httpVersion: string)

  datatype Request = Request(header: RequestHeader, body: Option<seq<byte>>)

  datatype ResponseHeader = ResponseHeader(
    httpVersion: string, status: HttpStatus, contentLength: nat,
    headers: map<string, string>)

  datatype Response = Response(header: ResponseHeader, body: Option<seq<byte>>)

  // ---------------------------------------------------------------- verbs

  /** `HttpVerb::get_str`: the verb's name, in capitals. */
  function VerbStr(verb: HttpVerb): (name: string)
    ensures 3 <= |name| <= 7
    ensures forall c :: c in name ==> 'A' <= c <= 'Z'
  {
    match verb
    case GET => "GET"
    case HEAD => "HEAD"
    case POST => "POST"
    case PUT => "PUT"
    case DELETE => "DELETE"
    case CONNECT => "CONNECT"
    case OPTIONS => "OPTIONS"
    case TRACE => "TRACE"
    case PATCH => "PATCH"
  }

  /** `HttpVerb::from_str`: the verb whose name is the upper-cased input, if any. */
  function VerbFromStr(data: string): (r: Result<HttpVerb, string>)
    ensures r.Ok? ==> Upper(data) == VerbStr(r.value)
    ensures r.Err? ==> r.error == "Unknown http verb" && forall v :: Upper(data) != VerbStr(v)
  {
    match Upper(data)
    case "GET" => Result.Ok(GET)
    case "HEAD" => Result.Ok(HEAD)
    case "POST" => Result.Ok(POST)
    case "PUT" => Result.Ok(PUT)
    case "DELETE" => Result.Ok(DELETE)
    case "CONNECT" => Result.Ok(CONNECT)
    case "PATCH" => Result.Ok(PATCH)
    case "OPTIONS" => Result.Ok(OPTIONS)
    case "TRACE" => Result.Ok(TRACE)
    case _ => Err("Unknown http verb")
  }

  /** Every verb's name parses back to that verb. */
  lemma VerbRoundTrip(verb: HttpVerb)
    ensures VerbFromStr(VerbStr(verb)) == Result.Ok(verb)
  {
    UpperOfUpper(VerbStr(verb));
  }

  /** Parsing ignores case: the input and its upper-cased form parse alike. */
  lemma VerbCaseInsensitive(data: string)
    ensures VerbFromStr(Upper(data)) == VerbFromStr(data)
  {
    UpperIsUpper(data);
  }

  // ---------------------------------------------------------------- statuses

  /** `HttpStatus::get_code`: a three-digit status code. */
  function StatusCode(status: HttpStatus): (code: int)
    ensures 100 <= code < 600
    ensures code / 100 == 2 <==> status == HttpStatus.Ok
    ensures code / 100 == 4 <==> status in {BadRequest, Unauthorized, NotFound, MethodNotAllowed}
  {
    match status
    case Ok => 200
    case BadRequest => 400
    case Unauthorized => 401
    case NotFound => 404
    case MethodNotAllowed => 405
    case InternalError => 500
  }

  /** `HttpStatus::get_str`: the reason phrase, letters and spaces on one line. */
  function StatusReason(status: HttpStatus): (reason: string)
    ensures reason != []
    ensures forall c :: c in reason ==> c == ' ' || 'A' <= c <= 'Z' || 'a' <= c <= 'z'
  {
    match status
    case Ok => "OK"
    case BadRequest => "Bad Request"
    case Unauthorized => "Unauthorized"
    case NotFound => "Not Found"
    case MethodNotAllowed => "Method Not Allowed"
    case InternalError => "Internal Error"
  }

  /** `HttpStatus::from_code`: only the six listed codes are known. */
  function StatusFromCode(code: int): (r: Result<HttpStatus, string>)
    ensures r.Ok? <==> code in {200, 400, 401, 404, 405, 500}
    ensures r.Ok? ==> StatusCode(r.value) == code
    ensures r.Err? ==> r.error == "Unknown response type code"
  {
    match code
    case 200 => Result.Ok(HttpStatus.Ok)
    case 400 => Result.Ok(BadRequest)
    case 401 => Result.Ok(Unauthorized)
    case 404 => Result.Ok(NotFound)
    case 405 => Result.Ok(MethodNotAllowed)
    case 500 => Result.Ok(InternalError)
    case _ => Err("Unknown response type code")
  }

  /** Every status's code maps back to that status. */
  lemma StatusRoundTrip(status: HttpStatus)
    ensures StatusFromCode(StatusCode(status)) == Result.Ok(status)
    ensures 0 < StatusCode(status) < 0x8000
  {
  }

  // ---------------------------------------------------------------- create

  /** The headers every created head starts from. */
  function StandardHeaders(contentType: string, contentLength: nat): map<string, string>
  {
    map["Server" := "Psionic 0.0.1",
        "Content-Length" := Decimal(contentLength),
        "Connection" := "Closed",
        "Content-Type" := contentType]
  }

  /** `for (k, v) in addition_headers { headers.insert(k, v) }`: the added headers win. */
  method InsertAll(headers: map<string, string>, additional: map<string, string>)
    returns (result: map<string, string>)
    ensures result.Keys == headers.Keys + additional.Keys
    ensures forall k :: k in additional ==> result[k] == additional[k]
    ensures forall k :: k in headers && k !in additional ==> result[k] == headers[k]
  {
    result := headers;
    var rest := additional.Keys;
    while rest != {}
      invariant rest <= additional.Keys
      invariant result.Keys == headers.Keys + (additional.Keys - rest)
      invariant forall k :: k in additional && k !in rest ==> result[k] == additional[k]
      invariant forall k :: k in headers && k !in additional ==> result[k] == headers[k]
      invariant forall k :: k in headers && k in rest ==> result[k] == headers[k]
      decreases rest
    {
      var k :| k in rest;
      result := result[k := additional[k]];
      rest := rest - {k};
    }
  }

  /** The length of an optional body: 0 for none. */
  function BodyLength(body: Option<seq<byte>>): nat
  {
    if body.Some? then |body.value| else 0
  }

  function BodyBytes(body: Option<seq<byte>>): seq<byte>
  {
    if body.Some? then body.value else []
  }

  /** `HttpRequestHeader::create`. */
  method CreateRequestHeader(route: string, verb: HttpVerb, contentType: string,
                             additional: map<string, string>, contentLength: nat)
    returns (header: RequestHeader)
    ensures header.route == route && header.verb == verb && header.httpVersion == HttpVersion
    ensures header.contentLength == contentLength
    ensures header.headers == StandardHeaders(contentType, contentLength) + additional
  {
    var headers := InsertAll(StandardHeaders(contentType, contentLength), additional);
    header := RequestHeader(route, verb, contentLength, headers, HttpVersion);
  }

  /** `HttpRequest::create`: the content length is the body's length, 0 without a body. */
  method CreateRequest(route: string, verb: HttpVerb, contentType: string,
                       additional: map<string, string>, body: Option<seq<byte>>)
    returns (request: Request)
    ensures request.body == body
    ensures request.header.contentLength == BodyLength(body)
    ensures request.header.route == route && request.header.verb == verb
    ensures request.header.httpVersion == HttpVersion
    ensures request.header.headers == StandardHeaders(contentType, BodyLength(body)) + additional
  {
    var len := if body.Some? then |body.value| else 0;
    var header := CreateRequestHeader(route, verb, contentType, additional, len);
    request := Request(header, body);
  }

  /** `HttpResponseHeader::create`. */
  method CreateResponseHeader(status: HttpStatus, contentType: string,
                              additional: map<string, string>, contentLength: nat)
    returns (header: ResponseHeader)
    ensures header.status == status && header.httpVersion == HttpVersion
    ensures header.contentLength == contentLength
    ensures header.headers == StandardHeaders(contentType, contentLength) + additional
  {
    var headers := InsertAll(StandardHeaders(contentType, contentLength), additional);
    header := ResponseHeader(HttpVersion, status, contentLength, headers);
  }

  /** `HttpResponse::create`. */
  method CreateResponse(status: HttpStatus, contentType: string,
                        additional: map<string, string>, body: Option<seq<byte>>)
    returns (response: Response)
    ensures response.body == body
    ensures response.header.contentLength == BodyLength(body)
    ensures response.header.status == status && response.header.httpVersion == HttpVersion
    ensures response.header.headers == StandardHeaders(contentType, BodyLength(body)) + additional
  {
    var len := if body.Some? then |body.value| else 0;
    var header := CreateResponseHeader(status, contentType, additional, len);
    response := Response(header, body);
  }

  // ---------------------------------------------------------------- serialise

  /** Each line followed by CR LF. */
  function Lines(lines: seq<string>): string
  {
    if lines == [] then []
    else Lines(lines[..|lines| - 1]) + lines[|lines| - 1] + Crlf
  }

  /**
   * The keys of `headers`, each exactly once, in the order a `HashMap`
   * iteration happens to visit them; the order itself is unspecified.
   */
  ghost predicate EnumeratesKeys(order: seq<string>, headers: map<string, string>)
  {
    && (forall i, j :: 0 <= i < j < |order| ==> order[i] != order[j])
    && (forall k :: k in headers <==> k in order)
  }

  /** The `name: value` lines of the headers, in the given order. */
  function HeaderLineList(headers: map<string, string>, order: seq<string>): (lines: seq<string>)
    requires forall k :: k in order ==> k in headers
    ensures |lines| == |order|
    ensures forall i :: 0 <= i < |order| ==> lines[i] == order[i] + ": " + headers[order[i]]
  {
    seq(|order|, i requires 0 <= i < |order| => order[i] + ": " + headers[order[i]])
  }

  /** A head: the start-line, one line per header, and the empty line. */
  function HeadText(startLine: string, headers: map<string, string>, order: seq<string>): string
    requires forall k :: k in order ==> k in headers
  {
    Lines([startLine] + HeaderLineList(headers, order)) + Crlf
  }

  function RequestStartLine(header: RequestHeader): string
  {
    VerbStr(header.verb) + " " + header.route + " " + header.httpVersion
  }

  function ResponseStartLine(header: ResponseHeader): string
  {
    header.httpVersion + " " + Decimal(StatusCode(header.status)) + " " + StatusReason(header.status)
  }

  lemma LinesSnoc(lines: seq<string>, line: string)
    ensures Lines(lines + [line]) == Lines(lines) + line + Crlf
  {
    assert (lines + [line])[..|lines|] == lines;
  }

  lemma HeaderLineListSnoc(headers: map<string, string>, order: seq<string>, i: nat)
    requires i < |order| && forall k :: k in order ==> k in headers
    ensures HeaderLineList(headers, order[..i + 1])
         == HeaderLineList(headers, order[..i]) + [order[i] + ": " + headers[order[i]]]
  {
  }

  /** One turn of the header loop extends the written lines by the next header's line. */
  lemma PushStep(start: string, headers: map<string, string>, order: seq<string>, i: nat, text: string)
    requires i < |order| && forall k :: k in order ==> k in headers
    requires text == Lines([start] + HeaderLineList(headers, order[..i]))
    ensures text + order[i] + ": " + headers[order[i]] + Crlf
         == Lines([start] + HeaderLineList(headers, order[..i + 1]))
  {
    var line := order[i] + ": " + headers[order[i]];
    HeaderLineListSnoc(headers, order, i);
    assert [start] + HeaderLineList(headers, order[..i + 1])
        == ([start] + HeaderLineList(headers, order[..i])) + [line];
    LinesSnoc([start] + HeaderLineList(headers, order[..i]), line);
  }

  /** The header loop of `get_string`: push `name: value` CR LF for each header in iteration order. */
  method PushHeaderLines(start: string, headers: map<string, string>, order: seq<string>)
    returns (text: string)
    requires forall k :: k in order ==> k in headers
    ensures text == Lines([start] + HeaderLineList(headers, order))
  {
    text := start + Crlf;
    LinesSnoc([], start);
    for i := 0 to |order|
      invariant text == Lines([start] + HeaderLineList(headers, order[..i]))
    {
      PushStep(start, headers, order, i, text);
      text := text + order[i];
      text := text + ": ";
      text := text + headers[order[i]];
      text := text + Crlf;
    }
    assert order[..|order|] == order;
  }

  /** `HttpRequestHeader::get_string`. */
  method GetRequestString(header: RequestHeader, order: seq<string>) returns (text: string)
    requires EnumeratesKeys(order, header.headers)
    ensures text == HeadText(RequestStartLine(header), header.headers, order)
  {
    var start := VerbStr(header.verb) + [' '] + header.route + [' '] + header.httpVersion;
    text := PushHeaderLines(start, header.headers, order);
    text := text + Crlf;
  }

  /** `HttpResponseHeader::get_string`. */
  method GetResponseString(header: ResponseHeader, order: seq<string>) returns (text: string)
    requires EnumeratesKeys(order, header.headers)
    ensures text == HeadText(ResponseStartLine(header), header.headers, order)
  {
    var start := header.httpVersion + [' '] + Decimal(StatusCode(header.status)) + [' '] + StatusReason(header.status);
    text := PushHeaderLines(start, header.headers, order);
    text := text + Crlf;
  }

  /** `HttpRequest::to_bytes`: the head's UTF-8 bytes, then the body's bytes if there is a body. */
  method RequestToBytes(request: Request, order: seq<string>) returns (bytes: seq<byte>)
    requires EnumeratesKeys(order, request.header.headers)
    ensures bytes == Utf8(HeadText(RequestStartLine(request.header), request.header.headers, order)) + BodyBytes(request.body)
  {
    var head := GetRequestString(request.header, order);
    bytes := Utf8(head);
    if request.body.Some? {
      bytes := bytes + request.body.value;
    }
  }

  /** `HttpResponse::to_bytes`: the head's UTF-8 bytes, then the body's bytes if there is a body. */
  method ResponseToBytes(response: Response, order: seq<string>) returns (bytes: seq<byte>)
    requires EnumeratesKeys(order, response.header.headers)
    ensures bytes == Utf8(HeadText(ResponseStartLine(response.header), response.header.headers, order)) + BodyBytes(response.body)
  {
    var head := GetResponseString(response.header, order);
    bytes := Utf8(head);
    if response.body.Some? {
      bytes := bytes + response.body.value;
    }
  }

  // ---------------------------------------------------------------- parse

  /** The header map and content length collected so far by the line loop. */
  datatype HeaderFields = HeaderFields(headers: map<string, string>, contentLength: nat)

  /**
   * One turn of the line loop: a line that splits on ": " into two or more
   * pieces adds the upper-cased first piece with the second as its value, and
   * a parseable `CONTENT-LENGTH` value becomes the content length.
   */
  function HeaderStep(fields: HeaderFields, line: string): HeaderFields
  {
    var item := Split(line, ": ");
    if |item| > 1 then
      var k := Upper(item[0]);
      var v := item[1];
      var length := if k == "CONTENT-LENGTH" && ParseUsize(v).Some? then ParseUsize(v).value else fields.contentLength;
      HeaderFields(fields.headers[k := v], length)
    else fields
  }

  /** The fields collected from `lines`, in order, starting from no headers and length 0. */
  function HeaderFieldsOf(lines: seq<string>): HeaderFields
  {
    if lines == [] then HeaderFields(map[], 0)
    else HeaderStep(HeaderFieldsOf(lines[..|lines| - 1]), lines[|lines| - 1])
  }

  /** `HttpRequestHeader::parse_from_string`. */
  function ParseRequest(data: string): Result<RequestHeader, Fault>
  {
    var lines := Split(data, Crlf);
    var status := Split(lines[0], " ");
    match VerbFromStr(status[0])
    case Err(e) => Err(Error(e))
    case Ok(verb) =>
      if |status| < 3 then Err(Panic)
      else
        var fields := HeaderFieldsOf(lines[1..]);
        Result.Ok(RequestHeader(status[1], verb, fields.contentLength, fields.headers, status[2]))
  }

  /** `HttpResponseHeader::parse_from_string`; the reason phrase is ignored. */
  function ParseResponse(data: string): Result<ResponseHeader, Fault>
  {
    var lines := Split(data, Crlf);
    var status := Split(lines[0], " ");
    if |status| < 2 then Err(Panic)
    else
      match ParseI16(status[1])
      case None => Err(Error("Failed to parse status code"))
      case Some(code) =>
        match StatusFromCode(code)
        case Err(e) => Err(Error(e))
        case Ok(st) =>
          var fields := HeaderFieldsOf(lines[1..]);
          Result.Ok(ResponseHeader(status[0], st, fields.contentLength, fields.headers))
  }

  /** The line loop shared by both `parse_from_string`s. */
  method ParseHeaderLines(lines: seq<string>) returns (headers: map<string, string>, contentLength: nat)
    ensures HeaderFields(headers, contentLength) == HeaderFieldsOf(lines)
  {
    headers := map[];
    contentLength := 0;
    for i := 0 to |lines|
      invariant HeaderFields(headers, contentLength) == HeaderFieldsOf(lines[..i])
    {
      assert lines[..i + 1][..i] == lines[..i];
      var item := Split(lines[i], ": ");
      if |item| > 1 {
        var k := Upper(item[0]);
        var v := item[1];
        if k == "CONTENT-LENGTH" {
          match ParseUsize(v)
          case Some(n) => contentLength := n;
          case None =>
        }
        headers := headers[k := v];
      }
    }
    assert lines[..|lines|] == lines;
  }

  method ParseRequestHeader(data: string) returns (r: Result<RequestHeader, Fault>)
    ensures r == ParseRequest(data)
  {
    var lines := Split(data, Crlf);
    var status := Split(lines[0], " ");
    var verb := VerbFromStr(status[0]);
    if verb.Err? {
      return Err(Error(verb.error));
    }
    if |status| < 3 {
      return Err(Panic);
    }
    var headers, contentLength := ParseHeaderLines(lines[1..]);
    r := Result.Ok(RequestHeader(status[1], verb.value, contentLength, headers, status[2]));
  }

  method ParseResponseHeader(data: string) returns (r: Result<ResponseHeader, Fault>)
    ensures r == ParseResponse(data)
  {
    var lines := Split(data, Crlf);
    var status := Split(lines[0], " ");
    if |status| < 2 {
      return Err(Panic);
    }
    var code := ParseI16(status[1]);
    if code.None? {
      return Err(Error("Failed to parse status code"));
    }
    var st := StatusFromCode(code.value);
    if st.Err? {
      return Err(Error(st.error));
    }
    var headers, contentLength := ParseHeaderLines(lines[1..]);
    r := Result.Ok(ResponseHeader(status[0], st.value, contentLength, headers));
  }

  // ---------------------------------------------------------------- scan

  /** Index `i` (> 4) ends the bytes CR LF CR LF at `i - 3 .. i`. */
  predicate TerminatorAt(buffer: seq<byte>, i: nat)
  {
    4 < i < |buffer| && buffer[i] == LF && buffer[i - 1] == CR && buffer[i - 2] == LF && buffer[i - 3] == CR
  }

  /** The first terminator index at or after `from`. */
  function HeaderEndFrom(buffer: seq<byte>, from: nat): (r: Option<nat>)
    ensures r.Some? ==> from <= r.value && TerminatorAt(buffer, r.value)
    ensures r.Some? ==> forall j :: from <= j < r.value ==> !TerminatorAt(buffer, j)
    ensures r.None? ==> forall j :: from <= j ==> !TerminatorAt(buffer, j)
    decreases |buffer| - from
  {
    if from >= |buffer| then None
    else if TerminatorAt(buffer, from) then Some(from)
    else HeaderEndFrom(buffer, from + 1)
  }

  /** The index of the first CR LF CR LF terminator (past index 4), if any. */
  function HeaderEnd(buffer: seq<byte>): Option<nat>
  {
    HeaderEndFrom(buffer, 0)
  }

  /** `HttpRequestHeader::create_from_buffer`, as a value: the parsed head and the body's start index. */
  function RequestHeadFromBuffer(buffer: seq<byte>): (r: Result<(RequestHeader, nat), Fault>)
    ensures r.Ok? ==> 5 < r.value.1 <= |buffer|
  {
    match HeaderEnd(buffer)
    case None => Err(Error("Request header larger than buffer"))
    case Some(i) =>
      match ParseRequest(DecodeLossy(buffer[..i]))
      case Err(e) => Err(e)
      case Ok(header) => Result.Ok((header, i + 1))
  }

  function ResponseHeadFromBuffer(buffer: seq<byte>): (r: Result<(ResponseHeader, nat), Fault>)
    ensures r.Ok? ==> 5 < r.value.1 <= |buffer|
  {
    match HeaderEnd(buffer)
    case None => Err(Error("Request header larger than buffer"))
    case Some(i) =>
      match ParseResponse(DecodeLossy(buffer[..i]))
      case Err(e) => Err(e)
      case Ok(header) => Result.Ok((header, i + 1))
  }

  /** Once the terminator is known, the head is the parse of the text before its final LF. */
  lemma RequestHeadAt(buffer: seq<byte>, i: nat)
    requires HeaderEnd(buffer) == Some(i)
    ensures ParseRequest(DecodeLossy(buffer[..i])).Err? ==>
              RequestHeadFromBuffer(buffer) == Err(ParseRequest(DecodeLossy(buffer[..i])).error)
    ensures ParseRequest(DecodeLossy(buffer[..i])).Ok? ==>
              RequestHeadFromBuffer(buffer) == Result.Ok((ParseRequest(DecodeLossy(buffer[..i])).value, i + 1))
  {
  }

  lemma ResponseHeadAt(buffer: seq<byte>, i: nat)
    requires HeaderEnd(buffer) == Some(i)
    ensures ParseResponse(DecodeLossy(buffer[..i])).Err? ==>
              ResponseHeadFromBuffer(buffer) == Err(ParseResponse(DecodeLossy(buffer[..i])).error)
    ensures ParseResponse(DecodeLossy(buffer[..i])).Ok? ==>
              ResponseHeadFromBuffer(buffer) == Result.Ok((ParseResponse(DecodeLossy(buffer[..i])).value, i + 1))
  {
  }

  /** Past a non-terminator the scan continues as from the next index. */
  lemma ScanStep(buffer: seq<byte>, i: nat)
    requires i < |buffer| && HeaderEndFrom(buffer, i) == HeaderEnd(buffer)
    ensures TerminatorAt(buffer, i) ==> HeaderEnd(buffer) == Some(i)
    ensures !TerminatorAt(buffer, i) ==> HeaderEndFrom(buffer, i + 1) == HeaderEnd(buffer)
  {
  }

  /**
   * `HttpRequestHeader::create_from_buffer`: scan for the first terminator,
   * parse the text before its final LF, and report where the body starts.
   */
  method CreateRequestHeaderFromBuffer(buffer: seq<byte>) returns (r: Result<(RequestHeader, nat), Fault>)
    ensures r == RequestHeadFromBuffer(buffer)
    ensures r.Ok? ==> 5 < r.value.1 <= |buffer|
  {
    for i := 0 to |buffer|
      invariant HeaderEndFrom(buffer, i) == HeaderEnd(buffer)
    {
      ScanStep(buffer, i);
      if i > 4 && buffer[i] == LF && buffer[i - 1] == CR && buffer[i - 2] == LF && buffer[i - 3] == CR {
        var header := DecodeLossy(buffer[..i]);
        var parsed := ParseRequestHeader(header);
        RequestHeadAt(buffer, i);
        if parsed.Err? {
          return Err(parsed.error);
        }
        return Result.Ok((parsed.value, i + 1));
      }
    }
    return Err(Error("Request header larger than buffer"));
  }

  /** `HttpResponseHeader::create_from_buffer`. */
  method CreateResponseHeaderFromBuffer(buffer: seq<byte>) returns (r: Result<(ResponseHeader, nat), Fault>)
    ensures r == ResponseHeadFromBuffer(buffer)
    ensures r.Ok? ==> 5 < r.value.1 <= |buffer|
  {
    for i := 0 to |buffer|
      invariant HeaderEndFrom(buffer, i) == HeaderEnd(buffer)
    {
      ScanStep(buffer, i);
      if i > 4 && buffer[i] == LF && buffer[i - 1] == CR && buffer[i - 2] == LF && buffer[i - 3] == CR {
        var header := DecodeLossy(buffer[..i]);
        var parsed := ParseResponseHeader(header);
        ResponseHeadAt(buffer, i);
        if parsed.Err? {
          return Err(parsed.error);
        }
        return Result.Ok((parsed.value, i + 1));
      }
    }
    return Err(Error("Request header larger than buffer"));
  }

  // ---------------------------------------------------------------- body

  /**
   * The body rule of `HttpRequest::from_stream`: the body is the
   * `contentLength` bytes after the head when there are some and they lie
   * inside the buffer; otherwise there is no body (a longer body is dropped).
   * The comparison is made without the overflowing sum; see `BodyRuleAsWritten`.
   */
  function RequestBody(buffer: seq<byte>, start: nat, contentLength: nat): (body: Option<seq<byte>>)
    requires |buffer| == BufferSize && start <= BufferSize
    ensures body.Some? <==> contentLength > 0 && start + contentLength <= BufferSize
    ensures body.Some? ==> body.value == buffer[start..start + contentLength]
  {
    if contentLength == 0 then None
    else if contentLength > BufferSize - start then None
    else Some(buffer[start..start + contentLength])
  }

  /**
   * The body rule of `HttpResponse::from_stream`. When the first read
   * returned exactly the head, the buffer is cleared and read again; `next`
   * is the buffer after that second read.
   */
  function ResponseBody(buffer: seq<byte>, start: nat, contentLength: nat, read: nat, next: seq<byte>): (body: Option<seq<byte>>)
    requires |buffer| == BufferSize && |next| == BufferSize && start <= BufferSize
    ensures body.Some? <==> contentLength > 0 && start + contentLength <= BufferSize
    ensures body.Some? && read == start ==> body.value == next[..contentLength]
    ensures body.Some? && read != start ==> body.value == buffer[start..start + contentLength]
  {
    if contentLength == 0 then None
    else if contentLength > BufferSize - start then None
    else if read == start then Some(next[..contentLength])
    else Some(buffer[start..start + contentLength])
  }

  /** `HttpRequest::from_stream` after its single read filled `buffer`. */
  function RequestFromBuffer(buffer: seq<byte>): (r: Result<Request, Fault>)
    requires |buffer| == BufferSize
    ensures r.Err? <==> RequestHeadFromBuffer(buffer).Err?
    ensures r.Err? ==> r.error == RequestHeadFromBuffer(buffer).error
    ensures r.Ok? ==> var (header, start) := RequestHeadFromBuffer(buffer).value;
              r.value == Request(header, RequestBody(buffer, start, header.contentLength))
  {
    var head := RequestHeadFromBuffer(buffer);
    if head.Err? then Err(head.error)
    else
      var (header, start) := head.value;
      Result.Ok(Request(header, RequestBody(buffer, start, header.contentLength)))
  }

  /** `HttpResponse::from_stream`: `read` bytes came in first; `next` is the buffer after a second read. */
  function ResponseFromBuffer(buffer: seq<byte>, read: nat, next: seq<byte>): (r: Result<Response, Fault>)
    requires |buffer| == BufferSize && |next| == BufferSize
    ensures r.Err? <==> ResponseHeadFromBuffer(buffer).Err?
    ensures r.Err? ==> r.error == ResponseHeadFromBuffer(buffer).error
    ensures r.Ok? ==> var (header, start) := ResponseHeadFromBuffer(buffer).value;
              r.value == Response(header, ResponseBody(buffer, start, header.contentLength, read, next))
  {
    var head := ResponseHeadFromBuffer(buffer);
    if head.Err? then Err(head.error)
    else
      var (header, start) := head.value;
      Result.Ok(Response(header, ResponseBody(buffer, start, header.contentLength, read, next)))
  }

  // ---------------------------------------------------------------- finding

  /**
   * The body rule exactly as the source writes it, with `usize` arithmetic:
   * `start + contentLength` is computed even to compare it with 4096. When
   * the sum does not fit in 64 bits the source panics (an overflow check in a
   * debug build; in a release build the sum wraps to a value below `start`,
   * the slice `buffer[start..end]` then has its end before its start, which
   * panics too).
   */
  function BodyRuleAsWritten(buffer: seq<byte>, start: nat, contentLength: nat): (r: Result<Option<seq<byte>>, Fault>)
    requires |buffer| == BufferSize && start <= BufferSize && contentLength < UsizeLimit
    ensures r.Err? <==> start + contentLength >= UsizeLimit
    ensures r.Err? ==> r.error == Panic
    ensures r.Ok? && r.value.Some? ==>
              0 < contentLength == |r.value.value| && start + contentLength <= BufferSize
              && r.value.value == buffer[start..start + contentLength]
  {
    if start + contentLength >= UsizeLimit then Err(Panic)
    else if contentLength == 0 then Result.Ok(None)
    else if start + contentLength > BufferSize then Result.Ok(None)
    else Result.Ok(Some(buffer[start..start + contentLength]))
  }

  /** Wherever the as-written rule does not panic, it agrees with `RequestBody`. */
  lemma BodyRuleAgrees(buffer: seq<byte>, start: nat, contentLength: nat)
    requires |buffer| == BufferSize && start <= BufferSize && contentLength < UsizeLimit
    requires BodyRuleAsWritten(buffer, start, contentLength).Ok?
    ensures BodyRuleAsWritten(buffer, start, contentLength) == Result.Ok(RequestBody(buffer, start, contentLength))
  {
  }
}
