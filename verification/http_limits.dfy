/** A request at the header limit: read by one parser, and refused by the next once the proxy has added to it. */
module HttpLimits {
  import opened Wrappers
  import opened Utf8
  import opened ChunkedCoding
  import opened HttpText
  import opened HttpRequests
  import opened HttpRoundTrip
  import opened Sorting

  /** A request without a body whose headers are all passed on. */
  predicate PassedWhole(request: Request, websocket: bool) {
    && WellFormed(request) && request.body == None
    && forall name :: name in request.headers ==> !IsDropped(name, websocket)
  }

  function OwnFields(request: Request, websocket: bool): Fields {
    Kept(Sorted(request.headers.Keys), request.headers, websocket)
  }

  /** The request as a client sends it, before the proxy adds anything. */
  function OwnBlock(request: Request, websocket: bool): Octets {
    HeadBytes([RequestLine(request)] + FieldLines(OwnFields(request, websocket)))
  }

  lemma OwnWritable(request: Request, websocket: bool)
    requires WellFormed(request)
    ensures CleanFields(OwnFields(request, websocket))
    ensures WritableLines([RequestLine(request)] + FieldLines(OwnFields(request, websocket)))
  {
    var fields := OwnFields(request, websocket);
    KeptClean(Sorted(request.headers.Keys), request.headers, websocket);
    RequestLineReads(request);
    forall i | 0 <= i < |fields|
      ensures FieldLine(fields[i]) != "" && OneLine(FieldLine(fields[i]))
    {
      FieldLineWritable(fields[i]);
    }
  }

  lemma AllPassed(names: seq<string>, request: Request, websocket: bool)
    requires PassedWhole(request, websocket) && forall name :: name in names <==> name in request.headers
    ensures map[] + Passed(Elements(names), request.headers, websocket) == request.headers
  {
    assert Elements(names) == request.headers.Keys;
    assert PassedNames(Elements(names), websocket) == request.headers.Keys;
  }

  lemma OwnTakenWhole(request: Request, websocket: bool)
    requires PassedWhole(request, websocket)
    ensures TakeLines(Head(map[], None, false), FieldLines(OwnFields(request, websocket)) + ["", ""])
         == Ok(Head(request.headers, None, false))
  {
    var names, start := Sorted(request.headers.Keys), Head(map[], None, false);
    var fields := OwnFields(request, websocket);
    KeptClean(names, request.headers, websocket);
    FieldsTaken(start, fields, ["", ""]);
    KeptTaken(start, names, request.headers, websocket, []);
    assert fields + [] == fields;
    AllPassed(names, request, websocket);
  }

  lemma OwnLinesRead(request: Request, websocket: bool, lossy: Octets -> string)
    requires PassedWhole(request, websocket) && ReadsUtf8(lossy)
    ensures var split := SplitLines(lossy(OwnBlock(request, websocket)));
            && Verb(split[0]) == request.verb && Target(split[0]) == request.target
            && TakeLines(Head(map[], None, false), split[1..]) == Ok(Head(request.headers, None, false))
  {
    var fields := FieldLines(OwnFields(request, websocket));
    OwnWritable(request, websocket);
    HeadText([RequestLine(request)] + fields, lossy);
    RequestLineReads(request);
    OwnTakenWhole(request, websocket);
    FirstLine(RequestLine(request), fields);
  }

  lemma FirstLine(line: string, fields: seq<string>)
    ensures ([line] + fields + ["", ""])[0] == line && ([line] + fields + ["", ""])[1..] == fields + ["", ""]
  {
  }

  lemma NoBody(rest: Octets, head: Head)
    requires head.length.None? && !head.chunked
    ensures ReadSized(rest, head) == Ok(([], rest))
  {
    assert rest[..0] == [] && rest[0..] == rest;
  }

  /** The client's block is read as the request, up to the limit. */
  lemma OwnBlockReads(request: Request, websocket: bool, rest: Octets, lossy: Octets -> string)
    requires PassedWhole(request, websocket) && ReadsUtf8(lossy)
    ensures ReadRequest(OwnBlock(request, websocket) + rest, lossy)
         == if |OwnBlock(request, websocket)| > MAX_HEADERS then Err(HeadersTooLong) else Ok((request, rest))
  {
    var lines := [RequestLine(request)] + FieldLines(OwnFields(request, websocket));
    OwnWritable(request, websocket);
    HeadStep(lines);
    BlockReads(lines, rest, 0);
    if |OwnBlock(request, websocket)| <= MAX_HEADERS {
      OwnLinesRead(request, websocket, lossy);
      NoBody(rest, Head(request.headers, None, false));
    }
  }

  /** What the proxy adds takes room. */
  lemma ForwardedLonger(request: Request, authority: string, token: string, websocket: bool)
    ensures |HeadBytes(HeadLines(request, authority, token, websocket))| > |OwnBlock(request, websocket)|
  {
    var line, kept := RequestLine(request), OwnFields(request, websocket);
    var added := Added(request, authority, token, websocket);
    HeadInParts(line, kept, added);
    HeadOfFields(line, kept);
    assert FieldLines(added)[0] == FieldLine(added[0]);
    assert JoinLines(FieldLines(added)) != "";
  }

  /** Whoever fills the header block to the limit is read, but not behind the proxy. */
  lemma FullBlockRefused(request: Request, authority: string, token: string, websocket: bool, rest: Octets,
                         lossy: Octets -> string)
    requires PassedWhole(request, websocket) && |OwnBlock(request, websocket)| == MAX_HEADERS
    requires ReadsUtf8(lossy) && Clean(authority) && Clean(token)
    ensures ReadRequest(OwnBlock(request, websocket) + rest, lossy) == Ok((request, rest))
    ensures ReadRequest(HeadBytes(HeadLines(request, authority, token, websocket)) + rest, lossy) == Err(HeadersTooLong)
  {
    OwnBlockReads(request, websocket, rest, lossy);
    ForwardedLonger(request, authority, token, websocket);
    RequestRoundTrip(request, authority, token, websocket, rest, lossy);
    var head := HeadBytes(HeadLines(request, authority, token, websocket));
    assert head + [] == head;
  }

  // ---- Such a request ----

  predicate Ascii(text: string) {
    forall i :: 0 <= i < |text| ==> text[i] < '\U{80}'
  }

  lemma {:induction false} AsciiLength(text: string)
    requires Ascii(text)
    ensures |Encode(text)| == |text|
  {
    if text != "" {
      AsciiLength(text[1..]);
    }
  }

  function Filler(n: nat): string {
    seq(n, _ => 'a')
  }

  /** `GET /` with one header `x` of `n` letters. */
  function LongRequest(n: nat): Request {
    Request("GET", "/", map["x" := Filler(n)], None)
  }

  lemma LongRequestPasses(n: nat)
    ensures PassedWhole(LongRequest(n), false)
    ensures OwnFields(LongRequest(n), false) == [("x", Filler(n))]
  {
    var request := LongRequest(n);
    assert Lower("x") == "x";
    var names := Sorted(request.headers.Keys);
    assert request.headers.Keys == {"x"};
    OnlyName(names, "x");
    assert Kept([], request.headers, false) == [];
    assert !IsDropped("x", false);
  }

  lemma OnlyName(names: seq<string>, name: string)
    requires (forall n :: n in names <==> n == name) && forall i, j :: 0 <= i < j < |names| ==> names[i] != names[j]
    ensures names == [name]
  {
    assert name in names;
    forall i | 0 <= i < |names|
      ensures i == 0 && names[i] == name
    {
      assert names[0] in names && names[i] in names;
    }
    assert name in names && names[|names| - 1] == name;
  }

  lemma OneFieldLength(line: string, field: (string, string))
    requires Ascii(line) && Ascii(FieldLine(field))
    ensures |HeadBytes([line] + FieldLines([field]))| == |line| + |FieldLine(field)| + 6
  {
    var end := ['\r', '\n'];
    HeadOfFields(line, [field]);
    assert FieldLines([field]) == [FieldLine(field)];
    JoinSingle(FieldLine(field));
    AsciiLength(line + end);
    AsciiLength(FieldLine(field) + end);
  }

  lemma LongRequestLength(n: nat)
    ensures |OwnBlock(LongRequest(n), false)| == n + 23
  {
    var request := LongRequest(n);
    var field := ("x", Filler(n));
    LongRequestPasses(n);
    OneFieldLength(RequestLine(request), field);
  }

  /**
   * A client's request that the gateway reads and whose forwarded form it refuses: one header of
   * 65513 letters makes a block of exactly the limit.
   */
  lemma ProxyCanRefuse(authority: string, token: string, rest: Octets, lossy: Octets -> string)
    requires ReadsUtf8(lossy) && Clean(authority) && Clean(token)
    ensures var request := LongRequest(65513);
            && ReadRequest(OwnBlock(request, false) + rest, lossy) == Ok((request, rest))
            && ReadRequest(HeadBytes(HeadLines(request, authority, token, false)) + rest, lossy) == Err(HeadersTooLong)
  {
    LongRequestPasses(65513);
    LongRequestLength(65513);
    FullBlockRefused(LongRequest(65513), authority, token, false, rest, lossy);
  }

  // ---- What is forwarded ----

  /** Headers that end at the proxy. */
  const ENDING := {"host", "content-length", "x-forwarded-host", "x-forwarded-proto", "x-tokamak-session", "connection",
                   "keep-alive", "proxy-connection", "te", "trailer", "transfer-encoding", "upgrade"}

  lemma DroppedNames(name: string, websocket: bool)
    ensures IsDropped(name, websocket) <==> name in ENDING || (websocket && name == "sec-websocket-extensions")
  {
  }

  /** Every other header arrives with its value, and no header the client did not send but the proxy's own. */
  lemma OthersForwarded(request: Request, authority: string, token: string, websocket: bool, name: string)
    requires name !in ENDING && !(websocket && name == "sec-websocket-extensions")
    ensures var headers := Forwarded(request, authority, token, websocket).headers;
            && (name in headers <==> name in request.headers)
            && (name in headers ==> headers[name] == request.headers[name])
  {
    DroppedNames(name, websocket);
  }

  /** The proxy's own headers. */
  lemma OwnForwarded(request: Request, authority: string, token: string, websocket: bool)
    ensures var headers := Forwarded(request, authority, token, websocket).headers;
            var host := if "host" in request.headers then request.headers["host"] else authority;
            && "host" in headers && headers["host"] == host
            && "x-forwarded-host" in headers && headers["x-forwarded-host"] == host
            && "x-forwarded-proto" in headers && headers["x-forwarded-proto"] == "https"
            && "x-tokamak-session" in headers && headers["x-tokamak-session"] == token
            && "connection" in headers && headers["connection"] == (if websocket then "Upgrade" else "close")
            && ("upgrade" in headers <==> websocket) && ("content-length" in headers <==> !websocket)
            && (websocket ==> headers["upgrade"] == "websocket")
            && (!websocket ==> headers["content-length"] == Numeral(BodyLength(request), 10))
  {
    OwnNames(request, authority, token, websocket);
    DroppedNames("upgrade", websocket);
    DroppedNames("content-length", websocket);
  }

  lemma OwnNames(request: Request, authority: string, token: string, websocket: bool)
    ensures OwnHeaders(request, authority, token, websocket).Keys
         == {"host", "x-forwarded-host", "x-forwarded-proto", "x-tokamak-session", "connection"}
            + (if websocket then {"upgrade"} else {"content-length"})
  {
  }
}
