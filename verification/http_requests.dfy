/** HTTP/1.1 requests: what the development proxy writes and the gateway reads. */
module HttpRequests {
  import opened Wrappers
  import opened Utf8
  import opened ChunkedCoding
  import opened ChunkedRelay
  import opened HttpText
  import opened Sorting
  import opened Strings

  datatype Request = Request(verb: string, target: string, headers: map<string, string>, body: Option<Octets>)

  datatype RequestError = HeadersTooLong | NoMethod | BadLength | Ambiguous | TooLarge | BadBody(error: ChunkError)

  const HOST := "host"
  const CONTENT_LENGTH := "content-length"
  const TRANSFER_ENCODING := "transfer-encoding"
  const FORWARDED_HOST := "x-forwarded-host"
  const FORWARDED_PROTO := "x-forwarded-proto"
  const SESSION := "x-tokamak-session"
  const CONNECTION := "connection"
  const UPGRADE := "upgrade"

  predicate IsHopByHop(name: string) {
    || name == CONNECTION || name == "keep-alive" || name == "proxy-connection" || name == "te"
    || name == "trailer" || name == TRANSFER_ENCODING || name == UPGRADE
  }

  /** Headers the proxy does not pass on as they came. */
  predicate IsDropped(name: string, websocket: bool) {
    || name == HOST || name == CONTENT_LENGTH || name == FORWARDED_HOST || name == FORWARDED_PROTO || name == SESSION
    || (websocket && name == "sec-websocket-extensions")
    || IsHopByHop(name)
  }

  // ---- Writing ----

  type Fields = seq<(string, string)>

  function Kept(names: seq<string>, headers: map<string, string>, websocket: bool): Fields
    requires forall name :: name in names ==> name in headers
  {
    if names == [] then []
    else
      (if IsDropped(names[0], websocket) then [] else [(names[0], headers[names[0]])])
      + Kept(names[1..], headers, websocket)
  }

  function HostOf(request: Request, authority: string): string {
    if HOST in request.headers then request.headers[HOST] else authority
  }

  function BodyLength(request: Request): nat {
    if request.body.Some? then |request.body.value| else 0
  }

  function Added(request: Request, authority: string, token: string, websocket: bool): Fields {
    var host := HostOf(request, authority);
    [("Host", host), ("X-Forwarded-Host", host), ("X-Forwarded-Proto", "https"), ("X-Tokamak-Session", token)]
    + if websocket then [("Connection", "Upgrade"), ("Upgrade", "websocket")]
      else [("Connection", "close"), ("Content-Length", Numeral(BodyLength(request), 10))]
  }

  function FieldLine(field: (string, string)): string {
    field.0 + [':'] + ([' '] + field.1)
  }

  function FieldLines(fields: Fields): (lines: seq<string>)
    ensures |lines| == |fields|
  {
    seq(|fields|, i requires 0 <= i < |fields| => FieldLine(fields[i]))
  }

  function RequestLine(request: Request): string {
    request.verb + ([' '] + request.target + " HTTP/1.1")
  }

  function AllFields(request: Request, authority: string, token: string, websocket: bool): Fields {
    Kept(Sorted(request.headers.Keys), request.headers, websocket) + Added(request, authority, token, websocket)
  }

  function HeadLines(request: Request, authority: string, token: string, websocket: bool): seq<string> {
    [RequestLine(request)] + FieldLines(AllFields(request, authority, token, websocket))
  }

  function HeadBytes(lines: seq<string>): Octets {
    Encode(JoinLines(lines) + ['\r', '\n'])
  }

  function BodyBytes(request: Request, websocket: bool): Octets {
    if !websocket && request.body.Some? then request.body.value else []
  }

  function FieldBytes(fields: Fields): Octets {
    Encode(JoinLines(FieldLines(fields)))
  }

  lemma OneMoreField(fields: Fields, field: (string, string))
    ensures FieldBytes(fields + [field]) == FieldBytes(fields) + Encode(FieldLine(field) + ['\r', '\n'])
  {
    var lines := FieldLines(fields);
    assert FieldLines(fields + [field]) == lines + [FieldLine(field)];
    JoinConcat(lines, [FieldLine(field)]);
    JoinSingle(FieldLine(field));
    EncodeConcat(JoinLines(lines), FieldLine(field) + ['\r', '\n']);
  }

  lemma JoinSingle(line: string)
    ensures JoinLines([line]) == line + ['\r', '\n']
  {
    assert JoinLines([line][1..]) == "";
  }

  lemma {:induction false} JoinConcat(a: seq<string>, b: seq<string>)
    ensures JoinLines(a + b) == JoinLines(a) + JoinLines(b)
  {
    if a == [] {
      assert a + b == b;
    } else {
      assert (a + b)[1..] == a[1..] + b;
      JoinConcat(a[1..], b);
    }
  }

  lemma KeptStep(names: seq<string>, index: nat, headers: map<string, string>, websocket: bool, before: Fields)
    requires index < |names| && forall name :: name in names ==> name in headers
    ensures before + Kept(names[index..], headers, websocket)
         == (if IsDropped(names[index], websocket) then before else before + [(names[index], headers[names[index]])])
            + Kept(names[index + 1..], headers, websocket)
  {
    assert names[index..][0] == names[index] && names[index..][1..] == names[index + 1..];
  }

  /** The proxy's loop over the headers of the request it passes on. */
  method WriteKept(headers: map<string, string>, websocket: bool) returns (output: Octets)
    ensures output == FieldBytes(Kept(Sorted(headers.Keys), headers, websocket))
  {
    var names := Sorted(headers.Keys);
    ghost var kept := Kept(names, headers, websocket);
    ghost var written: Fields := [];
    output := [];
    var index := 0;
    assert names[0..] == names;
    while index < |names|
      invariant 0 <= index <= |names|
      invariant kept == written + Kept(names[index..], headers, websocket)
      invariant output == FieldBytes(written)
    {
      var name := names[index];
      KeptStep(names, index, headers, websocket, written);
      if !IsDropped(name, websocket) {
        var field := (name, headers[name]);
        output := output + Encode(FieldLine(field) + ['\r', '\n']);
        OneMoreField(written, field);
        written := written + [field];
      }
      index := index + 1;
    }
    assert kept == written;
  }

  /** The header lines of the proxy's own. */
  method WriteFields(fields: Fields) returns (output: Octets)
    ensures output == FieldBytes(fields)
  {
    output := [];
    var index := 0;
    while index < |fields|
      invariant 0 <= index <= |fields|
      invariant output == FieldBytes(fields[..index])
    {
      output := output + Encode(FieldLine(fields[index]) + ['\r', '\n']);
      OneMoreField(fields[..index], fields[index]);
      assert fields[..index] + [fields[index]] == fields[..index + 1];
      index := index + 1;
    }
    assert fields[..|fields|] == fields;
  }

  method WriteRequest(request: Request, authority: string, token: string, websocket: bool) returns (output: Octets)
    ensures output == HeadBytes(HeadLines(request, authority, token, websocket)) + BodyBytes(request, websocket)
  {
    var line, added := RequestLine(request), Added(request, authority, token, websocket);
    output := Encode(line + ['\r', '\n']);
    var kept := WriteKept(request.headers, websocket);
    output := output + kept;
    var own := WriteFields(added);
    output := output + own + CRLF;
    HeadInParts(line, Kept(Sorted(request.headers.Keys), request.headers, websocket), added);
    if !websocket && request.body.Some? {
      output := output + request.body.value;
    }
  }

  lemma FieldBytesConcat(kept: Fields, added: Fields)
    ensures FieldBytes(kept + added) == FieldBytes(kept) + FieldBytes(added)
    ensures JoinLines(FieldLines(kept + added)) == JoinLines(FieldLines(kept)) + JoinLines(FieldLines(added))
  {
    assert FieldLines(kept + added) == FieldLines(kept) + FieldLines(added);
    JoinConcat(FieldLines(kept), FieldLines(added));
    EncodeConcat(JoinLines(FieldLines(kept)), JoinLines(FieldLines(added)));
  }

  lemma HeadOfFields(line: string, fields: Fields)
    ensures HeadBytes([line] + FieldLines(fields)) == Encode(line + ['\r', '\n']) + FieldBytes(fields) + CRLF
  {
    var joined, end := JoinLines(FieldLines(fields)), ['\r', '\n'];
    JoinConcat([line], FieldLines(fields));
    JoinSingle(line);
    EncodeLineEnd();
    EncodeConcat(line + end + joined, end);
    EncodeConcat(line + end, joined);
  }

  lemma HeadInParts(line: string, kept: Fields, added: Fields)
    ensures HeadBytes([line] + FieldLines(kept + added))
         == Encode(line + ['\r', '\n']) + FieldBytes(kept) + FieldBytes(added) + CRLF
  {
    HeadOfFields(line, kept + added);
    FieldBytesConcat(kept, added);
    Associate(Encode(line + ['\r', '\n']), FieldBytes(kept), FieldBytes(added));
  }

  // ---- Reading ----

  predicate EndsBlock(bytes: Octets) {
    |bytes| >= 4 && bytes[|bytes| - 4..] == CRLF + CRLF
  }

  /** The header block with the empty line that ends it, and what follows; `taken` bytes read so far. */
  function BlockFrom(stream: Octets, taken: nat): (r: Result<(Octets, Octets), RequestError>)
    requires taken <= |stream|
    ensures r.Ok? ==> stream == r.value.0 + r.value.1
    decreases |stream| - taken
  {
    if taken == |stream| then Err(BadBody(UnexpectedEof))
    else if taken + 1 > MAX_HEADERS then Err(HeadersTooLong)
    else if EndsBlock(stream[..taken + 1]) then Ok((stream[..taken + 1], stream[taken + 1..]))
    else BlockFrom(stream, taken + 1)
  }

  /** The headers so far, the content length and whether a chunked body was announced. */
  datatype Head = Head(headers: map<string, string>, length: Option<nat>, chunked: bool)

  predicate MentionsChunked(value: string) {
    exists i :: 0 <= i < |Split(value, ',')| && Lower(Trim(Split(value, ',')[i])) == "chunked"
  }

  /** One header line's effect; a later line of the same name wins. */
  function Take(head: Head, name: string, value: string): Result<Head, RequestError> {
    var length := if name == CONTENT_LENGTH then FromRadix(value, 10) else head.length;
    if name == CONTENT_LENGTH && length.None? then Err(BadLength)
    else Ok(Head(head.headers[name := value], length,
                 head.chunked || (name == TRANSFER_ENCODING && MentionsChunked(value))))
  }

  function TakeLine(head: Head, line: string): Result<Head, RequestError> {
    match SplitColon(line)
    case None => Ok(head)
    case Some((name, value)) => Take(head, Lower(Trim(name)), Trim(value))
  }

  function TakeLines(head: Head, lines: seq<string>): Result<Head, RequestError>
    decreases |lines|
  {
    if lines == [] || lines[0] == "" then Ok(head)
    else
      var next :- TakeLine(head, lines[0]);
      TakeLines(next, lines[1..])
  }

  function Verb(line: string): string {
    Word(TrimStart(line))
  }

  function Target(line: string): string {
    var start := TrimStart(line);
    var target := Word(TrimStart(start[|Word(start)|..]));
    if target == "" then "/" else target
  }

  function ReadSized(stream: Octets, head: Head): Result<(Octets, Octets), RequestError> {
    var length := if head.length.Some? then head.length.value else 0;
    if head.chunked && head.length.Some? then Err(Ambiguous)
    else if length > MAX_HTTP_BODY then Err(TooLarge)
    else if head.chunked then
      match ReadBody(stream, [], Some(MAX_HTTP_BODY))
      case Ok(body) => Ok(body)
      case Err(e) => Err(BadBody(e))
    else if |stream| < length then Err(BadBody(UnexpectedEof))
    else Ok((stream[..length], stream[length..]))
  }

  function Optional(body: Octets): Option<Octets> {
    if body == [] then None else Some(body)
  }

  /**
   * The request at the front of a stream, and what follows it. `lossy` turns the header block into
   * text; how it replaces bytes that are not UTF-8 is left open.
   */
  function ReadRequest(stream: Octets, lossy: Octets -> string): Result<(Request, Octets), RequestError> {
    var (block, rest) :- BlockFrom(stream, 0);
    var lines := SplitLines(lossy(block));
    if Verb(lines[0]) == "" then Err(NoMethod)
    else
      var head :- TakeLines(Head(map[], None, false), lines[1..]);
      var (body, after) :- ReadSized(rest, head);
      Ok((Request(Verb(lines[0]), Target(lines[0]), head.headers, Optional(body)), after))
  }

  ghost predicate ReadsUtf8(lossy: Octets -> string) {
    forall bytes: Octets :: Decode(bytes).Some? ==> lossy(bytes) == Decode(bytes).value
  }

  method ReadHeaderBlock(stream: RequestStream) returns (r: Result<Octets, RequestError>)
    modifies stream
    ensures match BlockFrom(old(stream.unread), 0) {
              case Ok((block, rest)) => r == Ok(block) && stream.unread == rest
              case Err(e) => r == Err(e)
            }
  {
    var data: Octets := [];
    ghost var start := stream.unread;
    while true
      invariant start == data + stream.unread
      invariant BlockFrom(start, 0) == BlockFrom(start, |data|)
      decreases |stream.unread|
    {
      ghost var before, already := stream.unread, data;
      var byte := stream.ReadExact(1);
      if byte.Err? {
        return Err(BadBody(byte.error));
      }
      BlockStep(start, already, byte.value, stream.unread) by { assert before == byte.value + stream.unread; }
      data := data + byte.value;
      if |data| > MAX_HEADERS {
        return Err(HeadersTooLong);
      }
      if EndsBlock(data) {
        return Ok(data);
      }
    }
  }

  lemma BlockStep(stream: Octets, data: Octets, byte: Octets, rest: Octets)
    requires |byte| == 1 && stream == data + (byte + rest)
    ensures stream == (data + byte) + rest
    ensures var next := data + byte;
            BlockFrom(stream, |data|) ==
            if |next| > MAX_HEADERS then Err(HeadersTooLong)
            else if EndsBlock(next) then Ok((next, rest))
            else BlockFrom(stream, |next|)
  {
    var next := data + byte;
    assert stream == next + rest;
    assert stream[..|next|] == next && stream[|next|..] == rest;
  }

  method ParseHead(lines: seq<string>) returns (r: Result<Head, RequestError>)
    ensures r == TakeLines(Head(map[], None, false), lines)
  {
    var headers: map<string, string>, length: Option<nat>, chunked, index := map[], None, false, 0;
    assert lines[0..] == lines;
    while index < |lines| && lines[index] != ""
      invariant 0 <= index <= |lines|
      invariant TakeLines(Head(map[], None, false), lines) == TakeLines(Head(headers, length, chunked), lines[index..])
    {
      var line := lines[index];
      assert lines[index..][0] == line && lines[index..][1..] == lines[index + 1..];
      index := index + 1;
      var parts := SplitColon(line);
      if parts.None? {
        continue;
      }
      var name, value := Lower(Trim(parts.value.0)), Trim(parts.value.1);
      if name == CONTENT_LENGTH {
        var parsed := FromRadix(value, 10);
        if parsed.None? {
          return Err(BadLength);
        }
        length := parsed;
      }
      if name == TRANSFER_ENCODING && MentionsChunked(value) {
        chunked := true;
      }
      headers := headers[name := value];
    }
    return Ok(Head(headers, length, chunked));
  }

  method ReadRequestFrom(stream: RequestStream, lossy: Octets -> string) returns (r: Result<Request, RequestError>)
    modifies stream
    ensures match ReadRequest(old(stream.unread), lossy) {
              case Ok((request, rest)) => r == Ok(request) && stream.unread == rest
              case Err(e) => r == Err(e)
            }
  {
    var block :- ReadHeaderBlock(stream);
    ghost var rest := stream.unread;
    var lines := SplitLines(lossy(block));
    if Verb(lines[0]) == "" {
      return Err(NoMethod);
    }
    var head :- ParseHead(lines[1..]);
    if head.chunked && head.length.Some? {
      return Err(Ambiguous);
    }
    if head.length.Some? && head.length.value > MAX_HTTP_BODY {
      return Err(TooLarge);
    }
    var body;
    if head.chunked {
      body := stream.ReadChunkedBody();
    } else {
      body := stream.ReadExact(if head.length.Some? then head.length.value else 0);
    }
    if body.Err? {
      return Err(BadBody(body.error));
    }
    return Ok(Request(Verb(lines[0]), Target(lines[0]), head.headers, Optional(body.value)));
  }
}
