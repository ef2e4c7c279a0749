/** A request the proxy passes on is read back by the gateway as the same request. */
module HttpRoundTrip {
  import opened Wrappers
  import opened Utf8
  import opened ChunkedCoding
  import opened HttpText
  import opened HttpRequests
  import opened Sorting

  // ---- Requests that can be written ----

  /** Header text that survives a header line. */
  predicate Clean(text: string) {
    Trimmed(text) && OneLine(text)
  }

  predicate CleanName(name: string) {
    Clean(name) && ':' !in name
  }

  predicate WellFormed(request: Request) {
    && request.verb != "" && Solid(request.verb)
    && request.target != "" && Solid(request.target)
    && (forall name :: name in request.headers ==>
          CleanName(name) && Lower(name) == name && Clean(request.headers[name]))
    && request.body != Some([])
  }

  // ---- The header block ----

  lemma HeadStep(lines: seq<string>)
    ensures lines == [] ==> HeadBytes(lines) == CRLF
    ensures lines != [] ==> HeadBytes(lines) == Encode(lines[0]) + CRLF + HeadBytes(lines[1..])
  {
    EncodeLineEnd();
    if lines == [] {
      assert JoinLines(lines) + ['\r', '\n'] == ['\r', '\n'];
    } else {
      var rest := JoinLines(lines[1..]) + ['\r', '\n'];
      JoinStep(lines, ['\r', '\n']);
      EncodeConcat(lines[0] + ['\r', '\n'], rest);
      EncodeConcat(lines[0], ['\r', '\n']);
    }
  }

  predicate BlankAt(bytes: Octets, p: nat) {
    p + 4 <= |bytes| && bytes[p] == 13 && bytes[p + 1] == 10 && bytes[p + 2] == 13 && bytes[p + 3] == 10
  }

  lemma NoLineEndAtStart(line: Octets, rest: Octets)
    requires line != [] && OneLineBytes(line)
    ensures var bytes := line + CRLF + rest; !(bytes[0] == 13 && bytes[1] == 10)
  {
    var bytes := line + CRLF + rest;
    if |line| > 1 {
      assert bytes[0] == line[0] && bytes[1] == line[1];
    } else {
      assert bytes[1] == CRLF[0];
    }
  }

  lemma BlankPastLine(line: Octets, rest: Octets, p: nat)
    requires line != [] && OneLineBytes(line) && BlankAt(line + CRLF + rest, p)
    ensures p >= |line| + 2 || (p == |line| && |rest| >= 2 && rest[0] == 13 && rest[1] == 10)
  {
    var bytes := line + CRLF + rest;
    assert bytes[|line|] == 13 && bytes[|line| + 1] == 10;
    assert forall i :: 0 <= i < |line| ==> bytes[i] == line[i];
    assert forall i :: 0 <= i < |line| - 1 ==> !(bytes[i] == 13 && bytes[i + 1] == 10);
    assert p == |line| ==> bytes[p + 2] == rest[0] && bytes[p + 3] == rest[1];
  }

  lemma BlankShift(before: Octets, bytes: Octets, p: nat)
    requires p >= |before| && BlankAt(before + bytes, p)
    ensures BlankAt(bytes, p - |before|)
  {
  }

  predicate WritableLines(lines: seq<string>) {
    forall i :: 0 <= i < |lines| ==> lines[i] != "" && OneLine(lines[i])
  }

  /** The empty line that ends the block is the only one in it. */
  lemma {:induction false} BlankOnlyAtEnd(lines: seq<string>, p: nat)
    requires WritableLines(lines) && BlankAt(HeadBytes(lines), p)
    ensures p + 4 == |HeadBytes(lines)|
    decreases |lines|
  {
    HeadStep(lines);
    if lines != [] {
      var line, others := Encode(lines[0]), lines[1..];
      var rest := HeadBytes(others);
      EncodeOneLine(lines[0]);
      BlankPastLine(line, rest, p);
      HeadStep(others);
      if p >= |line| + 2 {
        var q := p - |line| - 2;
        BlankShift(line + CRLF, rest, p);
        BlankOnlyAtEnd(others, q);
      } else if others != [] {
        EncodeOneLine(others[0]);
        NoLineEndAtStart(Encode(others[0]), HeadBytes(others[1..]));
      }
    }
  }

  lemma {:induction false} BlankEnds(lines: seq<string>)
    requires WritableLines(lines) && lines != []
    ensures EndsBlock(HeadBytes(lines))
    decreases |lines|
  {
    HeadStep(lines);
    HeadStep(lines[1..]);
    var bytes, rest := HeadBytes(lines), HeadBytes(lines[1..]);
    if |lines| > 1 {
      BlankEnds(lines[1..]);
      assert bytes[|bytes| - 4..] == rest[|rest| - 4..];
    } else {
      assert bytes == Encode(lines[0]) + (CRLF + CRLF);
    }
  }

  /** Any written block is read whole, unless it is over the limit. */
  lemma {:induction false} BlockReads(lines: seq<string>, rest: Octets, taken: nat)
    requires WritableLines(lines) && lines != [] && taken < |HeadBytes(lines)| && taken <= MAX_HEADERS
    ensures var block := HeadBytes(lines);
            BlockFrom(block + rest, taken) == if |block| > MAX_HEADERS then Err(HeadersTooLong) else Ok((block, rest))
    decreases |HeadBytes(lines)| - taken
  {
    var block := HeadBytes(lines);
    var stream := block + rest;
    assert stream[..taken + 1] == block[..taken + 1];
    if taken + 1 <= MAX_HEADERS {
      if taken + 1 == |block| {
        BlankEnds(lines);
        assert block[..taken + 1] == block && stream[taken + 1..] == rest;
      } else {
        if EndsBlock(block[..taken + 1]) {
          EndIsBlank(block, taken + 1);
          BlankOnlyAtEnd(lines, taken - 3);
        }
        BlockReads(lines, rest, taken + 1);
      }
    }
  }

  lemma EndIsBlank(bytes: Octets, n: nat)
    requires n <= |bytes| && EndsBlock(bytes[..n])
    ensures n >= 4 && BlankAt(bytes, n - 4)
  {
    var tail := bytes[..n][n - 4..];
    assert tail == CRLF + CRLF;
    assert bytes[n - 4] == tail[0] && bytes[n - 3] == tail[1] && bytes[n - 2] == tail[2] && bytes[n - 1] == tail[3];
  }

  // ---- The header lines ----

  lemma FieldLineWritable(field: (string, string))
    requires CleanName(field.0) && Clean(field.1)
    ensures FieldLine(field) != "" && OneLine(FieldLine(field))
  {
    var (name, value) := field;
    var line := FieldLine(field);
    forall i | 0 <= i < |line| - 1
      ensures !(line[i] == '\r' && line[i + 1] == '\n')
    {
      if i < |name| - 1 {
        assert line[i] == name[i] && line[i + 1] == name[i + 1];
      } else if i >= |name| + 2 {
        assert line[i] == value[i - |name| - 2] && line[i + 1] == value[i - |name| - 1];
      }
    }
  }

  lemma FieldLineTaken(head: Head, field: (string, string))
    requires CleanName(field.0) && Clean(field.1)
    ensures TakeLine(head, FieldLine(field)) == Take(head, Lower(field.0), field.1)
  {
    SplitColonAt(field.0, [' '] + field.1);
    TrimmedStays(field.0);
    TrimSpace(field.1);
  }

  predicate CleanFields(fields: Fields) {
    forall i :: 0 <= i < |fields| ==> CleanName(fields[i].0) && Clean(fields[i].1)
  }

  function TakeAll(head: Head, fields: Fields): Result<Head, RequestError>
    decreases |fields|
  {
    if fields == [] then Ok(head)
    else
      var next :- Take(head, Lower(fields[0].0), fields[0].1);
      TakeAll(next, fields[1..])
  }

  lemma {:induction false} FieldsTaken(head: Head, fields: Fields, rest: seq<string>)
    requires CleanFields(fields) && rest != [] && rest[0] == ""
    ensures TakeLines(head, FieldLines(fields) + rest) == TakeAll(head, fields)
    decreases |fields|
  {
    var lines := FieldLines(fields) + rest;
    if fields == [] {
      assert lines == rest;
    } else {
      FieldLineWritable(fields[0]);
      FieldLineTaken(head, fields[0]);
      assert lines[0] == FieldLine(fields[0]) && lines[1..] == FieldLines(fields[1..]) + rest;
      var next := Take(head, Lower(fields[0].0), fields[0].1);
      if next.Ok? {
        FieldsTaken(next.value, fields[1..], rest);
      }
    }
  }

  lemma TakeFirst(head: Head, field: (string, string), later: Fields)
    ensures var taken := Take(head, Lower(field.0), field.1);
            TakeAll(head, [field] + later) == if taken.Ok? then TakeAll(taken.value, later) else taken
  {
    assert ([field] + later)[1..] == later;
  }

  lemma TakeOther(head: Head, name: string, value: string)
    requires name != CONTENT_LENGTH && name != TRANSFER_ENCODING
    ensures Take(head, name, value) == Ok(head.(headers := head.headers[name := value]))
  {
  }

  lemma DroppedFraming(name: string, websocket: bool)
    requires !IsDropped(name, websocket)
    ensures name != CONTENT_LENGTH && name != TRANSFER_ENCODING
  {
  }

  function PassedNames(names: set<string>, websocket: bool): set<string> {
    set name | name in names && !IsDropped(name, websocket)
  }

  function Only(names: set<string>, headers: map<string, string>): map<string, string>
    requires names <= headers.Keys
  {
    map name | name in names :: headers[name]
  }

  function Passed(names: set<string>, headers: map<string, string>, websocket: bool): map<string, string>
    requires names <= headers.Keys
  {
    Only(PassedNames(names, websocket), headers)
  }

  function Elements(names: seq<string>): set<string> {
    set name | name in names
  }

  /** The headers passed on arrive as they were. */
  lemma {:induction false} KeptTaken(head: Head, names: seq<string>, headers: map<string, string>, websocket: bool,
                                     more: Fields)
    requires forall name :: name in names ==> name in headers && Lower(name) == name
    ensures TakeAll(head, Kept(names, headers, websocket) + more)
         == TakeAll(head.(headers := head.headers + Passed(Elements(names), headers, websocket)), more)
    decreases |names|
  {
    if names == [] {
      assert Kept(names, headers, websocket) + more == more;
      assert head.headers + Passed(Elements(names), headers, websocket) == head.headers;
    } else {
      var name, others := names[0], names[1..];
      KeptFirst(names, headers, websocket, more);
      PassedFirst(names, headers, websocket, head.headers);
      var later := Kept(others, headers, websocket) + more;
      if IsDropped(name, websocket) {
        assert [] + later == later;
        KeptTaken(head, others, headers, websocket, more);
      } else {
        var next := head.(headers := head.headers[name := headers[name]]);
        DroppedFraming(name, websocket);
        TakeOther(head, name, headers[name]);
        KeptTaken(next, others, headers, websocket, more);
        TakeFirst(head, (name, headers[name]), later);
      }
    }
  }

  lemma KeptFirst(names: seq<string>, headers: map<string, string>, websocket: bool, more: Fields)
    requires names != [] && forall name :: name in names ==> name in headers
    ensures Kept(names, headers, websocket) + more ==
            (if IsDropped(names[0], websocket) then [] else [(names[0], headers[names[0]])])
            + (Kept(names[1..], headers, websocket) + more)
  {
  }

  lemma PassedFirst(names: seq<string>, headers: map<string, string>, websocket: bool, before: map<string, string>)
    requires names != [] && forall name :: name in names ==> name in headers
    ensures before + Passed(Elements(names), headers, websocket)
         == (if IsDropped(names[0], websocket) then before else before[names[0] := headers[names[0]]])
            + Passed(Elements(names[1..]), headers, websocket)
  {
    var name, others := names[0], Elements(names[1..]);
    assert Elements(names) == others + {name};
    var later := PassedNames(others, websocket);
    if IsDropped(name, websocket) {
      assert PassedNames(others + {name}, websocket) == later;
    } else {
      assert PassedNames(others + {name}, websocket) == later + {name};
      OnlyFirst(name, later, headers, before);
    }
  }

  lemma OnlyFirst(name: string, names: set<string>, headers: map<string, string>, before: map<string, string>)
    requires names <= headers.Keys && name in headers
    ensures before + Only(names + {name}, headers) == before[name := headers[name]] + Only(names, headers)
  {
  }

  // ---- The proxy's own headers ----

  function OwnHeaders(request: Request, authority: string, token: string, websocket: bool): map<string, string> {
    var host := HostOf(request, authority);
    map[HOST := host, FORWARDED_HOST := host, FORWARDED_PROTO := "https", SESSION := token]
    + if websocket then map[CONNECTION := "Upgrade", UPGRADE := "websocket"]
      else map[CONNECTION := "close", CONTENT_LENGTH := Numeral(BodyLength(request), 10)]
  }

  lemma LowerHost()
    ensures Lower("Host") == HOST && CleanName("Host")
  {
  }

  lemma LowerForwardedHost()
    ensures Lower("X-Forwarded-Host") == FORWARDED_HOST && CleanName("X-Forwarded-Host")
  {
  }

  lemma LowerForwardedProto()
    ensures Lower("X-Forwarded-Proto") == FORWARDED_PROTO && CleanName("X-Forwarded-Proto") && Clean("https")
  {
  }

  lemma LowerSession()
    ensures Lower("X-Tokamak-Session") == SESSION && CleanName("X-Tokamak-Session")
  {
  }

  lemma LowerConnection()
    ensures Lower("Connection") == CONNECTION && CleanName("Connection") && Clean("close") && Clean("Upgrade")
  {
  }

  lemma LowerUpgrade()
    ensures Lower("Upgrade") == UPGRADE && CleanName("Upgrade") && Clean("websocket")
  {
  }

  lemma LowerContentLength()
    ensures Lower("Content-Length") == CONTENT_LENGTH && CleanName("Content-Length")
  {
  }

  /** A field that does not say how long the body is. */
  predicate Plain(field: (string, string)) {
    Lower(field.0) != CONTENT_LENGTH && Lower(field.0) != TRANSFER_ENCODING
  }

  function With(head: Head, field: (string, string)): Head {
    head.(headers := head.headers + map[Lower(field.0) := field.1])
  }

  lemma OneTaken(head: Head, field: (string, string), more: Fields)
    requires Plain(field)
    ensures TakeAll(head, [field] + more) == TakeAll(With(head, field), more)
  {
    TakeFirst(head, field, more);
    TakeOther(head, Lower(field.0), field.1);
    assert head.headers[Lower(field.0) := field.1] == head.headers + map[Lower(field.0) := field.1];
  }

  lemma TwoTaken(head: Head, a: (string, string), b: (string, string), more: Fields)
    requires Plain(a) && Plain(b)
    ensures TakeAll(head, [a, b] + more) == TakeAll(With(With(head, a), b), more)
  {
    assert [a, b] + more == [a] + ([b] + more);
    OneTaken(head, a, [b] + more);
    OneTaken(With(head, a), b, more);
  }

  lemma DecimalReads(length: nat)
    requires length < USIZE
    ensures FromRadix(Numeral(length, 10), 10) == Some(length)
  {
    NumeralReads(length, 10);
    Plain16Untouched(Numeral(length, 10));
  }

  lemma TakeLength(head: Head, text: string, length: nat)
    requires FromRadix(text, 10) == Some(length)
    ensures Take(head, CONTENT_LENGTH, text)
         == Ok(Head(head.headers[CONTENT_LENGTH := text], Some(length), head.chunked))
  {
    assert |CONTENT_LENGTH| != |TRANSFER_ENCODING|;
  }

  /** The last line of all gives the length of the body that follows. */
  lemma LengthTaken(head: Head, a: (string, string), last: (string, string), length: nat)
    requires Plain(a) && Lower(last.0) == CONTENT_LENGTH && FromRadix(last.1, 10) == Some(length)
    ensures TakeAll(head, [a, last])
         == Ok(Head(head.headers + map[Lower(a.0) := a.1] + map[CONTENT_LENGTH := last.1], Some(length), head.chunked))
  {
    assert [a, last] == [a] + [last] && [last] == [last] + [];
    TakeFirst(head, a, [last]);
    TakeOther(head, Lower(a.0), a.1);
    var next := head.(headers := head.headers[Lower(a.0) := a.1]);
    TakeFirst(next, last, []);
    TakeLength(next, last.1, length);
    assert next.headers == head.headers + map[Lower(a.0) := a.1];
    assert next.headers[CONTENT_LENGTH := last.1] == next.headers + map[CONTENT_LENGTH := last.1];
  }

  lemma OwnTaken(headers: map<string, string>, request: Request, authority: string, token: string, websocket: bool)
    requires BodyLength(request) < USIZE
    ensures TakeAll(Head(headers, None, false), Added(request, authority, token, websocket))
         == Ok(Head(headers + OwnHeaders(request, authority, token, websocket),
                    if websocket then None else Some(BodyLength(request)), false))
  {
    var host, length := HostOf(request, authority), BodyLength(request);
    var a, b := ("Host", host), ("X-Forwarded-Host", host);
    var c, d := ("X-Forwarded-Proto", "https"), ("X-Tokamak-Session", token);
    LowerHost();
    LowerForwardedHost();
    LowerForwardedProto();
    LowerSession();
    LowerConnection();
    LowerUpgrade();
    var last := if websocket then [("Connection", "Upgrade"), ("Upgrade", "websocket")]
                else [("Connection", "close"), ("Content-Length", Numeral(length, 10))];
    assert Added(request, authority, token, websocket) == [a, b] + ([c, d] + last);
    var first := Head(headers, None, false);
    TwoTaken(first, a, b, [c, d] + last);
    var second := With(With(first, a), b);
    TwoTaken(second, c, d, last);
    var third := With(With(second, c), d);
    if websocket {
      assert last == last + [];
      TwoTaken(third, last[0], last[1], []);
      SixMaps(headers, HOST, FORWARDED_HOST, FORWARDED_PROTO, SESSION, CONNECTION, UPGRADE, host, "https", token,
              "Upgrade", "websocket");
    } else {
      LowerContentLength();
      DecimalReads(length);
      LengthTaken(third, last[0], last[1], length);
      SixMaps(headers, HOST, FORWARDED_HOST, FORWARDED_PROTO, SESSION, CONNECTION, CONTENT_LENGTH, host, "https", token,
              "close", Numeral(length, 10));
    }
  }

  lemma SixMaps(m: map<string, string>, a: string, b: string, c: string, d: string, e: string, f: string,
                host: string, proto: string, token: string, x: string, y: string)
    ensures m + map[a := host] + map[b := host] + map[c := proto] + map[d := token] + map[e := x] + map[f := y]
         == m + (map[a := host, b := host, c := proto, d := token] + map[e := x, f := y])
  {
    var four := map[a := host, b := host, c := proto, d := token];
    FourUpdates(m, a, b, c, d, host, proto, token);
    TwoUpdates(m + four, e, f, x, y);
    MapsAssociate(m, four, map[e := x, f := y]);
  }

  lemma FourUpdates(m: map<string, string>, a: string, b: string, c: string, d: string,
                    host: string, proto: string, token: string)
    ensures m + map[a := host] + map[b := host] + map[c := proto] + map[d := token]
         == m + map[a := host, b := host, c := proto, d := token]
  {
    var two := map[a := host, b := host];
    TwoUpdates(m, a, b, host, host);
    TwoUpdates(m + two, c, d, proto, token);
    TwoUpdates(two, c, d, proto, token);
    MapsAssociate(m, two, map[c := proto, d := token]);
  }

  lemma TwoUpdates(m: map<string, string>, a: string, b: string, x: string, y: string)
    ensures m + map[a := x] + map[b := y] == m + map[a := x, b := y] == m[a := x][b := y]
  {
  }

  lemma MapsAssociate(a: map<string, string>, b: map<string, string>, c: map<string, string>)
    ensures a + b + c == a + (b + c)
  {
  }

  // ---- The request line ----

  lemma TrimStartAt(text: string)
    requires text != "" && !IsWhitespace(text[0])
    ensures TrimStart(text) == text && TrimStart([' '] + text) == text
  {
    assert ([' '] + text)[1..] == text;
  }

  lemma WordsRead(verb: string, target: string, version: string)
    requires verb != "" && Solid(verb) && target != "" && Solid(target) && version != "" && version[0] == ' '
    ensures var line := verb + ([' '] + target + version);
            Verb(line) == verb && Target(line) == target
  {
    var rest := [' '] + target + version;
    var line := verb + rest;
    TrimStartAt(line);
    WordBefore(verb, rest);
    assert line[|verb|..] == rest == [' '] + (target + version);
    TrimStartAt(target + version);
    WordBefore(target, version);
  }

  lemma NoReturns(verb: string, target: string, version: string)
    requires Solid(verb) && Solid(target) && '\r' !in version
    ensures OneLine(verb + ([' '] + target + version))
  {
    var line := verb + ([' '] + target + version);
    forall i | 0 <= i < |line|
      ensures line[i] != '\r'
    {
      if i < |verb| {
        assert line[i] == verb[i];
      } else if i > |verb| && i <= |verb| + |target| {
        assert line[i] == target[i - |verb| - 1];
      } else if i > |verb| + |target| {
        assert line[i] == version[i - |verb| - |target| - 1];
      }
    }
  }

  lemma RequestLineReads(request: Request)
    requires WellFormed(request)
    ensures var line := RequestLine(request);
            line != "" && OneLine(line) && Verb(line) == request.verb && Target(line) == request.target
  {
    WordsRead(request.verb, request.target, " HTTP/1.1");
    NoReturns(request.verb, request.target, " HTTP/1.1");
  }

  // ---- Round trip ----

  lemma {:induction false} KeptClean(names: seq<string>, headers: map<string, string>, websocket: bool)
    requires forall name :: name in names ==> name in headers && CleanName(name) && Clean(headers[name])
    ensures CleanFields(Kept(names, headers, websocket))
  {
    if names != [] {
      KeptClean(names[1..], headers, websocket);
    }
  }

  lemma DecimalClean(length: nat)
    ensures Clean(Numeral(length, 10))
  {
    var text := Numeral(length, 10);
    NumeralReads(length, 10);
    forall i | 0 <= i < |text|
      ensures text[i] != '\r' && !IsWhitespace(text[i])
    {
      assert Digit16(text[i]).Some?;
    }
  }

  lemma AddedClean(request: Request, authority: string, token: string, websocket: bool)
    requires WellFormed(request) && Clean(authority) && Clean(token)
    ensures CleanFields(Added(request, authority, token, websocket))
  {
    LowerHost();
    LowerForwardedHost();
    LowerForwardedProto();
    LowerSession();
    LowerConnection();
    LowerUpgrade();
    LowerContentLength();
    DecimalClean(BodyLength(request));
    assert Clean(HostOf(request, authority));
  }

  lemma FieldsClean(request: Request, authority: string, token: string, websocket: bool)
    requires WellFormed(request) && Clean(authority) && Clean(token)
    ensures CleanFields(AllFields(request, authority, token, websocket))
    ensures WritableLines(HeadLines(request, authority, token, websocket))
  {
    KeptClean(Sorted(request.headers.Keys), request.headers, websocket);
    AddedClean(request, authority, token, websocket);
    RequestLineReads(request);
    var fields := AllFields(request, authority, token, websocket);
    forall i | 0 <= i < |fields|
      ensures FieldLine(fields[i]) != "" && OneLine(FieldLine(fields[i]))
    {
      FieldLineWritable(fields[i]);
    }
  }

  /** The request the gateway sees: the headers passed on as they were, and the proxy's own. */
  function Forwarded(request: Request, authority: string, token: string, websocket: bool): Request {
    Request(request.verb, request.target,
            Passed(request.headers.Keys, request.headers, websocket)
            + OwnHeaders(request, authority, token, websocket),
            if websocket then None else request.body)
  }

  lemma HeadTaken(request: Request, authority: string, token: string, websocket: bool)
    requires WellFormed(request) && Clean(authority) && Clean(token) && BodyLength(request) < USIZE
    ensures TakeLines(Head(map[], None, false),
                      FieldLines(AllFields(request, authority, token, websocket)) + ["", ""])
         == Ok(Head(Forwarded(request, authority, token, websocket).headers,
                    if websocket then None else Some(BodyLength(request)), false))
  {
    var names := Sorted(request.headers.Keys);
    var added := Added(request, authority, token, websocket);
    var start := Head(map[], None, false);
    FieldsClean(request, authority, token, websocket);
    FieldsTaken(start, AllFields(request, authority, token, websocket), ["", ""]);
    KeptTaken(start, names, request.headers, websocket, added);
    assert Elements(names) == request.headers.Keys;
    var passed := Passed(request.headers.Keys, request.headers, websocket);
    assert map[] + passed == passed;
    OwnTaken(passed, request, authority, token, websocket);
  }

  lemma HeadText(lines: seq<string>, lossy: Octets -> string)
    requires WritableLines(lines) && ReadsUtf8(lossy)
    ensures SplitLines(lossy(HeadBytes(lines))) == lines + ["", ""]
  {
    var end := ['\r', '\n'];
    DecodeEncode(JoinLines(lines) + end);
    SplitJoined(lines, end);
    assert end[2..] == "" && SplitLines("") == [""];
    assert SplitLines(end) == ["", ""];
  }

  /**
   * A request the proxy writes is read by the gateway with the same method and target, the same body,
   * and the headers of `Forwarded`, leaving what follows it; unless its header block or its body is
   * over the limit, which is what the gateway then says.
   */
  lemma RequestRoundTrip(request: Request, authority: string, token: string, websocket: bool,
                         rest: Octets, lossy: Octets -> string)
    requires WellFormed(request) && Clean(authority) && Clean(token) && BodyLength(request) < USIZE
    requires ReadsUtf8(lossy)
    ensures var head := HeadBytes(HeadLines(request, authority, token, websocket));
            ReadRequest(head + BodyBytes(request, websocket) + rest, lossy) ==
            if |head| > MAX_HEADERS then Err(HeadersTooLong)
            else if !websocket && BodyLength(request) > MAX_HTTP_BODY then Err(TooLarge)
            else Ok((Forwarded(request, authority, token, websocket), rest))
  {
    var lines := HeadLines(request, authority, token, websocket);
    var head, body := HeadBytes(lines), BodyBytes(request, websocket);
    FieldsClean(request, authority, token, websocket);
    Associate(head, body, rest);
    HeadStep(lines);
    BlockReads(lines, body + rest, 0);
    if |head| <= MAX_HEADERS {
      HeadLinesRead(request, authority, token, websocket, lossy);
      SizedReads(request, Forwarded(request, authority, token, websocket).headers, websocket, rest);
    }
  }

  lemma HeadLinesRead(request: Request, authority: string, token: string, websocket: bool, lossy: Octets -> string)
    requires WellFormed(request) && Clean(authority) && Clean(token) && BodyLength(request) < USIZE
    requires ReadsUtf8(lossy)
    ensures var split := SplitLines(lossy(HeadBytes(HeadLines(request, authority, token, websocket))));
            && Verb(split[0]) == request.verb && Target(split[0]) == request.target
            && TakeLines(Head(map[], None, false), split[1..])
               == Ok(Head(Forwarded(request, authority, token, websocket).headers,
                          if websocket then None else Some(BodyLength(request)), false))
  {
    var lines := HeadLines(request, authority, token, websocket);
    FieldsClean(request, authority, token, websocket);
    HeadText(lines, lossy);
    RequestLineReads(request);
    var split := lines + ["", ""];
    assert split[0] == RequestLine(request);
    assert split[1..] == FieldLines(AllFields(request, authority, token, websocket)) + ["", ""];
    HeadTaken(request, authority, token, websocket);
  }

  lemma SizedReads(request: Request, headers: map<string, string>, websocket: bool, rest: Octets)
    requires request.body != Some([])
    ensures var length := if websocket then None else Some(BodyLength(request));
            ReadSized(BodyBytes(request, websocket) + rest, Head(headers, length, false)) ==
            if !websocket && BodyLength(request) > MAX_HTTP_BODY then Err(TooLarge)
            else Ok((BodyBytes(request, websocket), rest))
    ensures Optional(BodyBytes(request, websocket)) == if websocket then None else request.body
  {
    var body := BodyBytes(request, websocket);
    assert (body + rest)[..|body|] == body && (body + rest)[|body|..] == rest;
  }

  // ---- Every request that was read can be passed on ----

  lemma TakenClean(head: Head, line: string)
    requires OneLine(line) && TakeLine(head, line).Ok?
    requires forall name :: name in head.headers ==>
               CleanName(name) && Lower(name) == name && Clean(head.headers[name])
    ensures var next := TakeLine(head, line).value;
            forall name :: name in next.headers ==>
              CleanName(name) && Lower(name) == name && Clean(next.headers[name])
  {
    if SplitColon(line).Some? {
      var (name, value) := SplitColon(line).value;
      SplitColonParts(line);
      WithinOneLine(name, line);
      WithinOneLine(value, line);
      TrimWithin(name);
      TrimWithin(value);
      WithinOneLine(Trim(name), name);
      WithinOneLine(Trim(value), value);
      WithinNoColon(Trim(name), name);
      LowerKeeps(Trim(name));
    }
  }

  lemma WithinNoColon(part: string, whole: string)
    requires Within(part, whole) && ':' !in whole
    ensures ':' !in part
  {
    var i, j :| 0 <= i <= j <= |whole| && part == whole[i..j];
    assert forall k :: 0 <= k < |part| ==> part[k] == whole[i + k];
  }

  lemma {:induction false} LinesClean(head: Head, lines: seq<string>)
    requires (forall i :: 0 <= i < |lines| ==> OneLine(lines[i])) && TakeLines(head, lines).Ok?
    requires forall name :: name in head.headers ==>
               CleanName(name) && Lower(name) == name && Clean(head.headers[name])
    ensures var last := TakeLines(head, lines).value;
            forall name :: name in last.headers ==>
              CleanName(name) && Lower(name) == name && Clean(last.headers[name])
    decreases |lines|
  {
    if lines != [] && lines[0] != "" {
      TakenClean(head, lines[0]);
      LinesClean(TakeLine(head, lines[0]).value, lines[1..]);
    }
  }

  /** Whatever the bytes, a request that is read satisfies what the round trip asks of a request. */
  lemma ReadIsWellFormed(stream: Octets, lossy: Octets -> string)
    requires ReadRequest(stream, lossy).Ok?
    ensures WellFormed(ReadRequest(stream, lossy).value.0)
  {
    var lines := SplitLines(lossy(BlockFrom(stream, 0).value.0));
    SplitOneLine(lossy(BlockFrom(stream, 0).value.0));
    LinesClean(Head(map[], None, false), lines[1..]);
    var start := TrimStart(lines[0]);
    WordSolid(start);
    WordSolid(TrimStart(start[|Word(start)|..]));
  }

  /**
   * From the client through the proxy to the gateway behind it: whatever request the first reads,
   * the second reads its forwarded form, up to the limits on a header block that the proxy's own
   * lines have lengthened.
   */
  lemma ProxiedRequest(stream: Octets, authority: string, token: string, websocket: bool, rest: Octets,
                       lossy: Octets -> string)
    requires ReadRequest(stream, lossy).Ok? && ReadsUtf8(lossy) && Clean(authority) && Clean(token)
    ensures var request := ReadRequest(stream, lossy).value.0;
            var head := HeadBytes(HeadLines(request, authority, token, websocket));
            ReadRequest(head + BodyBytes(request, websocket) + rest, lossy) ==
            if |head| > MAX_HEADERS then Err(HeadersTooLong)
            else Ok((Forwarded(request, authority, token, websocket), rest))
  {
    var request := ReadRequest(stream, lossy).value.0;
    ReadIsWellFormed(stream, lossy);
    ReadBodyBound(stream, lossy);
    RequestRoundTrip(request, authority, token, websocket, rest, lossy);
  }

  lemma ReadBodyBound(stream: Octets, lossy: Octets -> string)
    requires ReadRequest(stream, lossy).Ok?
    ensures BodyLength(ReadRequest(stream, lossy).value.0) <= MAX_HTTP_BODY
  {
    var rest := BlockFrom(stream, 0).value.1;
    LimitOnly(rest, [], MAX_HTTP_BODY);
  }
}
