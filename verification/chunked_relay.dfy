/** Chunked bodies in motion: the request reader, the host-response pump and the response writer. */
module ChunkedRelay {
  import opened Wrappers
  import opened Utf8
  import opened ChunkedCoding

  /** One more byte of a line: either it is over, or the next byte decides. */
  lemma LineStep(stream: Octets, line: Octets, byte: Octets, rest: Octets)
    requires |byte| == 1 && stream == line + (byte + rest)
    ensures stream == (line + byte) + rest
    ensures var next := line + byte;
            LineFrom(stream, |line|) ==
            if |next| > MAX_HEADERS then Err(LineTooLong)
            else if EndsLine(next) then Ok((next[..|next| - 2], rest))
            else LineFrom(stream, |next|)
  {
    var next := line + byte;
    assert stream == next + rest;
    assert stream[..|next|] == next && stream[|next|..] == rest;
    if EndsLine(next) {
      assert stream[..|next| - 2] == next[..|next| - 2];
    }
  }

  // ---- Reading a request body ----

  /** A connection that is read until the wanted bytes are there or it ends. */
  class RequestStream {
    var unread: Octets

    constructor (bytes: Octets)
      ensures unread == bytes
    {
      unread := bytes;
    }

    method ReadExact(count: nat) returns (r: Result<Octets, ChunkError>)
      modifies this
      ensures r == if |old(unread)| < count then Err(UnexpectedEof) else Ok(old(unread)[..count])
      ensures unread == if |old(unread)| < count then [] else old(unread)[count..]
    {
      if |unread| < count {
        unread := [];
        return Err(UnexpectedEof);
      }
      r := Ok(unread[..count]);
      unread := unread[count..];
    }

    method NextLine() returns (r: Result<Octets, ChunkError>)
      modifies this
      ensures match ReadLine(old(unread)) {
                case Ok((line, rest)) => r == Ok(line) && unread == rest
                case Err(e) => r == Err(e)
              }
    {
      var line: Octets := [];
      ghost var stream := unread;
      while true
        invariant stream == line + unread
        invariant LineFrom(stream, 0) == LineFrom(stream, |line|)
        decreases |unread|
      {
        ghost var before, already := unread, line;
        var byte :- ReadExact(1);
        LineStep(stream, already, byte, unread) by { assert before == byte + unread; }
        line := line + byte;
        if |line| > MAX_HEADERS {
          return Err(LineTooLong);
        }
        if EndsLine(line) {
          line := line[..|line| - 2];
          if Decode(line).None? {
            return Err(NotUtf8);
          }
          return Ok(line);
        }
      }
    }

    method SkipTrailers() returns (r: Result<(), ChunkError>)
      modifies this
      ensures match Trailers(old(unread), 0) {
                case Ok(rest) => r == Ok(()) && unread == rest
                case Err(e) => r == Err(e)
              }
    {
      var taken: nat := 0;
      while true
        invariant Trailers(old(unread), 0) == Trailers(unread, taken)
        decreases |unread|
      {
        var line :- NextLine();
        taken := taken + |line| + 2;
        if taken > MAX_HEADERS {
          return Err(TrailersTooLarge);
        }
        if line == [] {
          return Ok(());
        }
      }
    }

    /** The whole body of a chunked request, leaving what follows it unread. */
    method ReadChunkedBody() returns (r: Result<Octets, ChunkError>)
      modifies this
      ensures match ReadBody(old(unread), [], Some(MAX_HTTP_BODY)) {
                case Ok((body, rest)) => r == Ok(body) && unread == rest
                case Err(e) => r == Err(e)
              }
    {
      var body: Octets := [];
      while true
        invariant |body| <= MAX_HTTP_BODY
        invariant ReadBody(old(unread), [], Some(MAX_HTTP_BODY)) == ReadBody(unread, body, Some(MAX_HTTP_BODY))
        decreases |unread|
      {
        var line :- NextLine();
        ghost var rest := unread;
        var size := ChunkSize(line);
        if size.None? {
          return Err(BadSize);
        }
        if size.value == 0 {
          var skipped :- SkipTrailers();
          return Ok(body);
        }
        if |body| + size.value > MAX_HTTP_BODY {
          return Err(BodyTooLarge);
        }
        var data :- ReadExact(size.value);
        var terminator :- ReadExact(2);
        assert |rest| >= size.value + 2 && rest[size.value..size.value + 2] == terminator;
        if terminator != CRLF {
          return Err(NotTerminated);
        }
        body := body + data;
        assert unread == rest[size.value + 2..];
      }
    }
  }

  // ---- Pumping a host response ----

  /** How the pump's next look at the connection goes; a read that is ready gets at most `count` bytes. */
  datatype Turn = Cancelled | TimedOut | Failing | Ready(count: nat)

  datatype Outcome =
    | Complete
    | Stopped                     // cancelled, the receiver gone, or no turn left
    | Failed(error: ChunkError)

  /** What may still come is among what could come before, so a cancellation or an error is not made up. */
  predicate Left(turns: seq<Turn>, before: seq<Turn>) {
    forall turn :: turn in turns ==> turn in before
  }

  const PUMP_BUFFER: nat := 16 * 1024

  function Least(a: nat, b: nat): nat {
    if a < b then a else b
  }

  /** The data of a chunked stream that comes before its end or its first defect. */
  function Payload(stream: Octets): Octets
    decreases |stream|
  {
    match ReadLine(stream)
    case Err(_) => []
    case Ok((line, rest)) =>
      match ChunkSize(line)
      case None => []
      case Some(size) =>
        if size == 0 then []
        else if AfterChunk(rest, size).Ok? then rest[..size] + Payload(AfterChunk(rest, size).value)
        else rest[..Least(size, |rest|)]
  }

  /** A well-formed body is its payload. */
  lemma {:induction false} PayloadIsBody(stream: Octets, body: Octets)
    requires ReadBody(stream, body, None).Ok?
    ensures ReadBody(stream, body, None).value.0 == body + Payload(stream)
    decreases |stream|
  {
    var (line, rest) := ReadLine(stream).value;
    var size := ChunkSize(line).value;
    if size == 0 {
      assert body + [] == body;
    } else {
      PayloadIsBody(rest[size + 2..], body + rest[..size]);
      Associate(body, rest[..size], Payload(rest[size + 2..]));
    }
  }

  /** What one run of the pump leaves behind, given the stream it started from. */
  ghost predicate Pumped(stream: Octets, sent: seq<Octets>, outcome: Outcome, unread: Octets) {
    && Concat(sent) <= Payload(stream)
    && (forall i :: 0 <= i < |sent| ==> 0 < |sent[i]| <= PUMP_BUFFER)
    && (outcome == Complete ==> ReadBody(stream, [], None) == Ok((Concat(sent), unread)))
    && (outcome.Failed? && outcome.error != Broken ==>
          ReadBody(stream, [], None) == Err(outcome.error) && Concat(sent) == Payload(stream))
  }

  class HostBody {
    var unread: Octets
    var turns: seq<Turn>
    var accepts: nat             // sends left before the receiver goes away
    var sent: seq<Octets>
    var failure: bool            // an error was sent after the data

    constructor (stream: Octets, turns: seq<Turn>, accepts: nat)
      ensures unread == stream && this.turns == turns && this.accepts == accepts && sent == [] && !failure
    {
      unread, this.turns, this.accepts, sent, failure := stream, turns, accepts, [], false;
    }

    method SendHostChunk(chunk: Octets) returns (delivered: bool)
      modifies this`accepts, this`sent
      ensures delivered <==> chunk != [] && old(accepts) > 0
      ensures sent == if delivered then old(sent) + [chunk] else old(sent)
      ensures !delivered ==> accepts == old(accepts)
    {
      if chunk == [] || accepts == 0 {
        return false;
      }
      accepts, sent := accepts - 1, sent + [chunk];
      return true;
    }

    /** Some bytes, none at the end of the stream; no value once cancelled. */
    method ReadHostChunk(limit: nat) returns (r: Result<Option<Octets>, ChunkError>)
      requires limit > 0
      modifies this`unread, this`turns
      ensures r.Err? ==> r.error == Broken
      ensures r.Ok? && r.value.Some? ==> |r.value.value| <= limit && old(unread) == r.value.value + unread
      ensures r.Ok? && r.value == Some([]) ==> unread == []
      ensures r.Err? || r.value.None? ==> unread == old(unread)
      ensures Left(turns, old(turns)) && (r == Err(Broken) ==> Failing in old(turns))
      ensures r == Ok(None) ==> turns == [] || Cancelled in old(turns)
    {
      while turns != []
        invariant Left(turns, old(turns))
        invariant unread == old(unread)
        decreases |turns|
      {
        var turn := turns[0];
        assert turn in turns;
        turns := turns[1..];
        match turn {
          case Cancelled => return Ok(None);
          case TimedOut =>
          case Failing => return Err(Broken);
          case Ready(ready) =>
            var wanted := if ready == 0 then 1 else if ready < limit then ready else limit;
            var count := if wanted < |unread| then wanted else |unread|;
            var data := unread[..count];
            unread := unread[count..];
            return Ok(Some(data));
        }
      }
      return Ok(None);
    }

    method ReadHostExact(count: nat) returns (r: Result<Option<Octets>, ChunkError>)
      modifies this`unread, this`turns
      ensures r.Ok? && r.value.Some? ==> |r.value.value| == count && old(unread) == r.value.value + unread
      ensures r.Err? ==> r.error == Broken || (r.error == UnexpectedEof && |old(unread)| < count)
      ensures Left(turns, old(turns)) && (r == Err(Broken) ==> Failing in old(turns))
      ensures r == Ok(None) ==> turns == [] || Cancelled in old(turns)
    {
      var buffer: Octets := [];
      while |buffer| < count
        invariant Left(turns, old(turns))
        invariant |buffer| <= count && old(unread) == buffer + unread
        decreases count - |buffer|
      {
        var data :- ReadHostChunk(count - |buffer|);
        if data.None? {
          return Ok(None);
        }
        if data.value == [] {
          return Err(UnexpectedEof);
        }
        buffer := buffer + data.value;
      }
      return Ok(Some(buffer));
    }

    method ReadUpstreamLine() returns (r: Result<Option<Octets>, ChunkError>)
      modifies this`unread, this`turns
      ensures r.Ok? && r.value.Some? ==> ReadLine(old(unread)) == Ok((r.value.value, unread))
      ensures r.Err? ==> r.error == Broken || ReadLine(old(unread)) == Err(r.error)
      ensures Left(turns, old(turns)) && (r == Err(Broken) ==> Failing in old(turns))
      ensures r == Ok(None) ==> turns == [] || Cancelled in old(turns)
    {
      var line: Octets := [];
      ghost var stream := unread;
      while true
        invariant Left(turns, old(turns))
        invariant stream == line + unread
        invariant LineFrom(stream, 0) == LineFrom(stream, |line|)
        decreases |unread|
      {
        ghost var before, already := unread, line;
        var byte :- ReadHostExact(1);
        if byte.None? {
          return Ok(None);
        }
        LineStep(stream, already, byte.value, unread) by { assert before == byte.value + unread; }
        line := line + byte.value;
        if |line| > MAX_HEADERS {
          return Err(LineTooLong);
        }
        if EndsLine(line) {
          line := line[..|line| - 2];
          if Decode(line).None? {
            return Err(NotUtf8);
          }
          return Ok(Some(line));
        }
      }
    }

    /** No value once cancelled. */
    method ReadChunkedTrailers() returns (r: Result<Option<()>, ChunkError>)
      modifies this`unread, this`turns
      ensures r.Ok? && r.value.Some? ==> Trailers(old(unread), 0) == Ok(unread)
      ensures r.Err? ==> r.error == Broken || Trailers(old(unread), 0) == Err(r.error)
      ensures Left(turns, old(turns)) && (r == Err(Broken) ==> Failing in old(turns))
      ensures r == Ok(None) ==> turns == [] || Cancelled in old(turns)
    {
      var bytes: nat := 0;
      while true
        invariant Left(turns, old(turns))
        invariant Trailers(old(unread), 0) == Trailers(unread, bytes)
        decreases |unread|
      {
        var line :- ReadUpstreamLine();
        if line.None? {
          return Ok(None);
        }
        bytes := bytes + |line.value| + 2;
        if bytes > MAX_HEADERS {
          return Err(TrailersTooLarge);
        }
        if line.value == [] {
          return Ok(Some(()));
        }
      }
    }

    /** Passes a chunk's data on as it comes; no value once cancelled or the receiver is gone. */
    method PumpData(size: nat) returns (r: Result<Option<()>, ChunkError>, ghost taken: nat)
      modifies this`unread, this`turns, this`accepts, this`sent
      ensures taken <= |old(unread)| && taken <= size
      ensures Concat(sent) == Concat(old(sent)) + old(unread)[..taken]
      ensures old(sent) <= sent && forall i :: |old(sent)| <= i < |sent| ==> 0 < |sent[i]| <= PUMP_BUFFER
      ensures r.Ok? && r.value.Some? ==> taken == size && unread == old(unread)[size..]
      ensures r.Err? ==> r.error == Broken || (r.error == UnexpectedEof && taken == |old(unread)| < size)
      ensures Left(turns, old(turns)) && (r == Err(Broken) ==> Failing in old(turns))
      ensures r == Ok(None) ==> turns == [] || Cancelled in old(turns) || accepts == 0
    {
      taken := 0;
      var remaining: nat := size;
      while remaining > 0
        invariant Left(turns, old(turns))
        invariant taken <= size && remaining == size - taken && taken <= |old(unread)|
        invariant unread == old(unread)[taken..]
        invariant Concat(sent) == Concat(old(sent)) + old(unread)[..taken]
        invariant old(sent) <= sent
        invariant forall i :: |old(sent)| <= i < |sent| ==> 0 < |sent[i]| <= PUMP_BUFFER
        decreases remaining
      {
        ghost var already := sent;
        var data :- ReadHostChunk(if remaining < PUMP_BUFFER then remaining else PUMP_BUFFER);
        if data.None? {
          return Ok(None), taken;
        }
        if data.value == [] {
          return Err(UnexpectedEof), taken;
        }
        var delivered := SendHostChunk(data.value);
        if !delivered {
          return Ok(None), taken;
        }
        SendMore(old(unread), taken, data.value, unread, Concat(old(sent)), already);
        taken := taken + |data.value|;
        remaining := remaining - |data.value|;
      }
      return Ok(Some(())), taken;
    }

    /** A chunk's data and its closing line end. */
    method PumpChunk(size: nat) returns (r: Result<Option<()>, ChunkError>, ghost taken: nat)
      modifies this`unread, this`turns, this`accepts, this`sent
      ensures taken <= |old(unread)| && taken <= size
      ensures Concat(sent) == Concat(old(sent)) + old(unread)[..taken]
      ensures old(sent) <= sent && forall i :: |old(sent)| <= i < |sent| ==> 0 < |sent[i]| <= PUMP_BUFFER
      ensures r.Ok? && r.value.Some? ==> taken == size && AfterChunk(old(unread), size) == Ok(unread)
      ensures r.Err? && r.error != Broken ==>
                AfterChunk(old(unread), size) == Err(r.error) && taken == Least(size, |old(unread)|)
      ensures Left(turns, old(turns)) && (r == Err(Broken) ==> Failing in old(turns))
      ensures r == Ok(None) ==> turns == [] || Cancelled in old(turns) || accepts == 0
    {
      ghost var rest := unread;
      r, taken := PumpData(size);
      if r.Err? || r.value.None? {
        return;
      }
      var terminator := ReadHostExact(2);
      if terminator.Err? {
        return Err(terminator.error), taken;
      }
      if terminator.value.None? {
        return Ok(None), taken;
      }
      assert rest == rest[..size] + (terminator.value.value + unread);
      assert rest[size..size + 2] == terminator.value.value && rest[size + 2..] == unread;
      if terminator.value.value != CRLF {
        return Err(NotTerminated), taken;
      }
      return Ok(Some(())), taken;
    }

    method PumpChunkedBody() returns (outcome: Outcome)
      requires sent == []
      modifies this`unread, this`turns, this`accepts, this`sent
      ensures Pumped(old(unread), sent, outcome, unread)
      ensures outcome == Failed(Broken) ==> Failing in old(turns)
      ensures outcome == Stopped ==> turns == [] || Cancelled in old(turns) || accepts == 0
    {
      ghost var stream := unread;
      assert Concat([]) + Payload(stream) == Payload(stream);
      while true
        invariant Left(turns, old(turns))
        invariant ReadBody(stream, [], None) == ReadBody(unread, Concat(sent), None)
        invariant Payload(stream) == Concat(sent) + Payload(unread)
        invariant forall i :: 0 <= i < |sent| ==> 0 < |sent[i]| <= PUMP_BUFFER
        decreases |unread|
      {
        ghost var before, already := unread, Concat(sent);
        var line := ReadUpstreamLine();
        if line.Err? {
          return Failed(line.error);
        }
        if line.value.None? {
          return Stopped;
        }
        ghost var rest := unread;
        var size := ChunkSize(line.value.value);
        if size.None? {
          return Failed(BadSize);
        }
        if size.value == 0 {
          var trailers := ReadChunkedTrailers();
          return if trailers.Err? then Failed(trailers.error) else if trailers.value.None? then Stopped else Complete;
        }
        var pumped, taken := PumpChunk(size.value);
        PayloadTaken(before, taken);
        Associate(already, rest[..taken], Payload(before)[taken..]);
        if pumped.Err? {
          return Failed(pumped.error);
        }
        if pumped.value.None? {
          return Stopped;
        }
      }
    }

    /** The receiver, if it is still there, is told of a failure. */
    method PumpHostBody() returns (outcome: Outcome)
      requires sent == [] && !failure
      modifies this
      ensures Pumped(old(unread), sent, outcome, unread)
      ensures failure ==> outcome.Failed?
      ensures outcome.Failed? && accepts > 0 ==> failure
      ensures outcome == Failed(Broken) ==> Failing in old(turns)
      ensures outcome == Stopped ==> turns == [] || Cancelled in old(turns) || accepts == 0
    {
      outcome := PumpChunkedBody();
      if outcome.Failed? && accepts > 0 {
        failure := true;
      }
    }
  }

  /** What one chunk contributes first is a part of the payload. */
  lemma PayloadTaken(stream: Octets, taken: nat)
    requires ReadLine(stream).Ok? && ChunkSize(ReadLine(stream).value.0).Some?
    requires taken <= ChunkSize(ReadLine(stream).value.0).value && taken <= |ReadLine(stream).value.1|
    ensures var (rest, size) := (ReadLine(stream).value.1, ChunkSize(ReadLine(stream).value.0).value);
            && taken <= |Payload(stream)|
            && Payload(stream) == rest[..taken] + Payload(stream)[taken..]
            && (taken == size && size > 0 && AfterChunk(rest, size).Ok? ==>
                  Payload(stream)[taken..] == Payload(AfterChunk(rest, size).value))
            && (taken == Least(size, |rest|) && AfterChunk(rest, size).Err? && size > 0 ==>
                  Payload(stream)[taken..] == [])
  {
  }

  lemma SendMore(all: Octets, taken: nat, data: Octets, rest: Octets, before: Octets, sent: seq<Octets>)
    requires taken <= |all| && all[taken..] == data + rest
    requires Concat(sent) == before + all[..taken]
    ensures taken + |data| <= |all| && all[taken + |data|..] == rest
    ensures Concat(sent + [data]) == before + all[..taken + |data|]
  {
    assert all == all[..taken] + (data + rest);
    assert all[..taken + |data|] == all[..taken] + data;
    EncodeChunksSnoc(sent, data);
    Associate(before, all[..taken], data);
  }

  // ---- Writing a streamed response ----

  /** What the response writer meets while it waits on the body channel. */
  datatype Event =
    | Produced(chunk: Octets)
    | ProducerFailed
    | Idle(cancelled: bool, peerClosed: bool)     // nothing came for one poll interval
    | Closed

  datatype Ending = Terminated | Abandoned | PeerGone | ProducerError | Waiting

  /** The chunks written before the writer stops; empty ones are skipped. */
  function Written(events: seq<Event>): seq<Octets> {
    if events == [] then []
    else
      match events[0]
      case Produced(chunk) => (if chunk == [] then [] else [chunk]) + Written(events[1..])
      case Idle(cancelled, peerClosed) => if cancelled || peerClosed then [] else Written(events[1..])
      case _ => []
  }

  /** The event the writer stops at. */
  function StopOf(events: seq<Event>): Option<Event> {
    if events == [] then None
    else if events[0].Produced? || events[0] == Idle(false, false) then StopOf(events[1..])
    else Some(events[0])
  }

  /** How the response ends, given whether it is cancelled when the writer leaves its loop. */
  function EndingOf(events: seq<Event>, cancelledAtEnd: bool): Ending {
    match StopOf(events)
    case None => Waiting
    case Some(ProducerFailed) => ProducerError
    case Some(Idle(false, _)) => PeerGone
    case Some(_) => if cancelledAtEnd then Abandoned else Terminated
  }

  method WriteStream(events: seq<Event>, cancelledAtEnd: bool) returns (output: Octets, ending: Ending)
    ensures ending == EndingOf(events, cancelledAtEnd)
    ensures output == EncodeChunks(Written(events)) + (if ending == Terminated then LAST_CHUNK else [])
  {
    output := [];
    var index := 0;
    ghost var chunks: seq<Octets> := [];
    assert events[0..] == events && [] + Written(events) == Written(events);
    label waiting: while index < |events|
      invariant 0 <= index <= |events|
      invariant output == EncodeChunks(chunks)
      invariant Written(events) == chunks + Written(events[index..])
      invariant StopOf(events) == StopOf(events[index..])
    {
      assert events[index..][1..] == events[index + 1..];
      match events[index] {
        case Produced(chunk) =>
          if chunk != [] {
            EncodeChunksSnoc(chunks, chunk);
            output := output + EncodeChunk(chunk);
            WrittenMore(chunks, chunk, Written(events[index + 1..]));
            chunks := chunks + [chunk];
          } else {
            assert [] + Written(events[index + 1..]) == Written(events[index + 1..]);
          }
        case ProducerFailed =>
          assert chunks + [] == chunks && output + [] == output;
          return output, ProducerError;
        case Idle(cancelled, peerClosed) =>
          if cancelled {
            assert chunks + [] == chunks;
            break waiting;
          }
          if peerClosed {
            assert chunks + [] == chunks && output + [] == output;
            return output, PeerGone;
          }
        case Closed =>
          assert chunks + [] == chunks;
          break waiting;
      }
      index := index + 1;
    }
    assert chunks + [] == chunks && output + [] == output;
    if index == |events| {
      return output, Waiting;
    }
    if cancelledAtEnd {
      return output, Abandoned;
    }
    return output + LAST_CHUNK, Terminated;
  }

  lemma WrittenMore(chunks: seq<Octets>, chunk: Octets, rest: seq<Octets>)
    ensures chunks + ([chunk] + rest) == chunks + [chunk] + rest
  {
  }

  /** No producer holds a chunk longer than the machine word counts. */
  predicate Fits(events: seq<Event>) {
    forall i :: 0 <= i < |events| && events[i].Produced? ==> |events[i].chunk| < USIZE
  }

  lemma {:induction false} WrittenWritable(events: seq<Event>)
    requires Fits(events)
    ensures Writable(Written(events))
  {
    if events != [] {
      assert forall i :: 0 <= i < |events| - 1 ==> events[1..][i] == events[i + 1];
      WrittenWritable(events[1..]);
    }
  }

  /** Every byte produced before the stop is written, in order; only the empty chunks are dropped. */
  function ProducedBytes(events: seq<Event>): Octets {
    if events == [] then []
    else
      match events[0]
      case Produced(chunk) => chunk + ProducedBytes(events[1..])
      case Idle(false, false) => ProducedBytes(events[1..])
      case _ => []
  }

  lemma {:induction false} WrittenBytes(events: seq<Event>)
    ensures Concat(Written(events)) == ProducedBytes(events)
  {
    if events != [] {
      WrittenBytes(events[1..]);
      match events[0]
      case Produced(chunk) =>
        assert [] + Written(events[1..]) == Written(events[1..]);
        if chunk == [] {
          assert chunk + ProducedBytes(events[1..]) == ProducedBytes(events[1..]);
        } else {
          assert Written(events)[1..] == Written(events[1..]);
        }
      case _ =>
    }
  }

  /** The body a client reads off a finished response, and what it makes of an unfinished one. */
  lemma ResponseReadBack(events: seq<Event>, cancelledAtEnd: bool, rest: Octets, limit: Option<nat>)
    requires Fits(events)
    ensures var ending, chunks := EndingOf(events, cancelledAtEnd), EncodeChunks(Written(events));
            var body := ProducedBytes(events);
            && (ending == Terminated ==>
                  ReadBody(chunks + LAST_CHUNK + rest, [], limit)
                  == if Over(|body|, limit) then Err(BodyTooLarge) else Ok((body, rest)))
            && (ending != Terminated ==>
                  ReadBody(chunks, [], limit) == Err(if Over(|body|, limit) then BodyTooLarge else UnexpectedEof))
  {
    var chunks := Written(events);
    WrittenWritable(events);
    WrittenBytes(events);
    ChunkedRoundTrip(chunks, rest, limit);
    var encoded := EncodeChunks(chunks);
    if Over(|Concat(chunks)|, limit) {
      RefuseChunks(chunks, [], [], limit);
      assert encoded + [] == encoded;
    } else {
      assert (encoded + LAST_CHUNK)[..|encoded|] == encoded;
      CutIsIncomplete(chunks, |encoded|, [], limit);
    }
  }

  /** The cancellation flags are only ever raised. */
  predicate FlagsStay(events: seq<Event>, cancelledAtEnd: bool) {
    (exists i :: 0 <= i < |events| && events[i].Idle? && events[i].cancelled) ==> cancelledAtEnd
  }

  /** The end marker is written when the producer closed the channel with no error or cancellation, and only then. */
  lemma {:induction false} TerminatedOnlyWhenClosed(events: seq<Event>, cancelledAtEnd: bool)
    requires FlagsStay(events, cancelledAtEnd)
    ensures EndingOf(events, cancelledAtEnd) == Terminated <==> StopOf(events) == Some(Closed) && !cancelledAtEnd
    decreases |events|
  {
    if events != [] && (events[0].Produced? || events[0] == Idle(false, false)) {
      forall i | 0 <= i < |events| - 1 && events[1..][i].Idle? && events[1..][i].cancelled
        ensures cancelledAtEnd
      {
        assert events[i + 1] == events[1..][i];
      }
      TerminatedOnlyWhenClosed(events[1..], cancelledAtEnd);
    }
  }

  // ---- The two hops together ----

  /**
   * The writer takes what the pump sent, in order. It sees the channel close only after all of it
   * and no error; a pump that stopped early did so because the response was cancelled.
   */
  ghost predicate Carried(sent: seq<Octets>, outcome: Outcome, events: seq<Event>, cancelledAtEnd: bool) {
    && Written(events) <= sent
    && (StopOf(events) == Some(Closed) ==> Written(events) == sent && !outcome.Failed?)
    && (StopOf(events) == Some(Closed) && outcome == Stopped ==> cancelledAtEnd)
    && FlagsStay(events, cancelledAtEnd)
  }

  /**
   * From a development server through the proxy to the client: whatever the reads and polls, what
   * the client reads of the body is a prefix of what the server sent, and the client finds the body
   * complete only if the server completed it, and then with the same bytes. A truncated or broken
   * server response never looks complete.
   */
  lemma RelayFaithful(stream: Octets, sent: seq<Octets>, outcome: Outcome, unread: Octets,
                      events: seq<Event>, cancelledAtEnd: bool, rest: Octets, limit: Option<nat>)
    requires Pumped(stream, sent, outcome, unread) && Fits(events)
    requires Carried(sent, outcome, events, cancelledAtEnd)
    ensures Concat(Written(events)) <= Payload(stream)
    ensures var encoded := EncodeChunks(Written(events));
            if EndingOf(events, cancelledAtEnd) == Terminated then
              && ReadBody(stream, [], None) == Ok((Payload(stream), unread))
              && ReadBody(encoded + LAST_CHUNK + rest, [], limit)
                 == if Over(|Payload(stream)|, limit) then Err(BodyTooLarge) else Ok((Payload(stream), rest))
            else ReadBody(encoded, [], limit).Err?
  {
    ConcatPrefix(Written(events), sent);
    TerminatedOnlyWhenClosed(events, cancelledAtEnd);
    ResponseReadBack(events, cancelledAtEnd, rest, limit);
    WrittenBytes(events);
    if EndingOf(events, cancelledAtEnd) == Terminated {
      PayloadIsBody(stream, []);
      assert [] + Payload(stream) == Payload(stream);
    }
  }

  lemma {:induction false} ConcatPrefix(part: seq<Octets>, whole: seq<Octets>)
    requires part <= whole
    ensures Concat(part) <= Concat(whole)
    decreases |part|
  {
    if part != [] {
      assert part[0] == whole[0];
      ConcatPrefix(part[1..], whole[1..]);
    }
  }

  /** The limited request reader and the pump agree on every body within the limit, and on every defect. */
  lemma ReadersAgree(stream: Octets, sent: seq<Octets>, outcome: Outcome, unread: Octets)
    requires Pumped(stream, sent, outcome, unread)
    ensures var limited := ReadBody(stream, [], Some(MAX_HTTP_BODY));
            && (outcome == Complete ==>
                  limited == if |Concat(sent)| <= MAX_HTTP_BODY then Ok((Concat(sent), unread)) else Err(BodyTooLarge))
            && (limited.Ok? ==> Concat(sent) <= limited.value.0 && (outcome.Failed? ==> outcome.error == Broken))
            && (outcome.Failed? && outcome.error != Broken ==> limited in {Err(outcome.error), Err(BodyTooLarge)})
  {
    LimitOnly(stream, [], MAX_HTTP_BODY);
    if ReadBody(stream, [], None).Ok? {
      PayloadIsBody(stream, []);
      assert [] + Payload(stream) == Payload(stream);
    }
  }
}
