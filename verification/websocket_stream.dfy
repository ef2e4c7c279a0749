/** Reading frames from a stream that arrives in arbitrary pieces. */
module WebSocketStream {
  import opened Wrappers
  import opened WebSocketFrames

  const READ_SIZE := 8192
  const BUFFER_LIMIT := MAX_WEBSOCKET_BODY + 14
  /** The longest frame, header included, for which the buffer guard can never fire. */
  const SAFE_FRAME := MAX_WEBSOCKET_BODY + 15 - READ_SIZE

  /** One answer of the underlying stream; at the end of the list it answers end of file. */
  datatype Piece = Data(bytes: Bytes) | NotReady

  datatype ReadEnd = Closed | Failed(error: FrameError)
  datatype ReadOutcome = Got(frame: Frame) | Pending | AtEnd

  datatype Codec = Codec(buffer: Bytes, closed: bool, pieces: seq<Piece>)

  predicate PieceOk(piece: Piece) {
    piece.Data? ==> 1 <= |piece.bytes| <= READ_SIZE
  }

  predicate PiecesOk(pieces: seq<Piece>) {
    forall i :: 0 <= i < |pieces| ==> PieceOk(pieces[i])
  }

  function ReadFrame(codec: Codec, expectMask: bool): (Codec, Result<ReadOutcome, FrameError>)
    decreases |codec.pieces|
  {
    if codec.closed then (codec, Ok(AtEnd))
    else
      match ParseFrame(codec.buffer, expectMask)
      case Err(e) => (codec, Err(e))
      case Ok(Some((frame, rest))) => (codec.(buffer := rest), Ok(Got(frame)))
      case Ok(None) =>
        if codec.pieces == [] then (codec.(closed := true), Ok(AtEnd))
        else
          match codec.pieces[0]
          case NotReady => (codec.(pieces := codec.pieces[1..]), Ok(Pending))
          case Data(bytes) =>
            var grown := Codec(codec.buffer + bytes, false, codec.pieces[1..]);
            if |grown.buffer| > BUFFER_LIMIT then (grown, Err(FrameTooLarge)) else ReadFrame(grown, expectMask)
  }

  /** The codec object: one call drains its buffer and reads until a frame, an error or a pause. */
  class WebSocketCodec {
    var buffer: Bytes
    var closed: bool
    var pieces: seq<Piece>

    function View(): Codec
      reads this
    {
      Codec(buffer, closed, pieces)
    }

    constructor (pieces: seq<Piece>)
      ensures View() == Codec([], false, pieces)
    {
      buffer, closed, this.pieces := [], false, pieces;
    }

    method NextFrame(expectMask: bool) returns (r: Result<ReadOutcome, FrameError>)
      modifies this
      ensures (View(), r) == ReadFrame(old(View()), expectMask)
    {
      if closed {
        return Ok(AtEnd);
      }
      while true
        invariant !closed && ReadFrame(old(View()), expectMask) == ReadFrame(View(), expectMask)
        decreases |pieces|
      {
        var parsed := ParseFrame(buffer, expectMask);
        if parsed.Err? {
          return Err(parsed.error);
        }
        if parsed.value.Some? {
          buffer := parsed.value.value.1;
          return Ok(Got(parsed.value.value.0));
        }
        if pieces == [] {
          closed := true;
          return Ok(AtEnd);
        }
        var piece := pieces[0];
        pieces := pieces[1..];
        if piece.NotReady? {
          return Ok(Pending);
        }
        buffer := buffer + piece.bytes;
        if |buffer| > BUFFER_LIMIT {
          return Err(FrameTooLarge);
        }
      }
    }
  }

  // ---- Reading everything ----

  function Arrived(pieces: seq<Piece>): Bytes {
    if pieces == [] then []
    else (if pieces[0].Data? then pieces[0].bytes else []) + Arrived(pieces[1..])
  }

  ghost function Work(codec: Codec): nat {
    |codec.buffer| + |Arrived(codec.pieces)| + |codec.pieces|
  }

  /** A call that returns a frame or a pause leaves less to do. */
  lemma {:induction false} ReadFrameWorks(codec: Codec, expectMask: bool)
    ensures var (next, r) := ReadFrame(codec, expectMask);
            r.Ok? && !r.value.AtEnd? ==> Work(next) < Work(codec)
    decreases |codec.pieces|
  {
    if !codec.closed && ParseFrame(codec.buffer, expectMask) == Ok(None)
       && codec.pieces != [] && codec.pieces[0].Data? {
      ReadFrameWorks(Codec(codec.buffer + codec.pieces[0].bytes, false, codec.pieces[1..]), expectMask);
    }
  }

  /** Calling until the stream ends or fails, waiting through the pauses. */
  ghost function Drain(codec: Codec, expectMask: bool): (seq<Frame>, ReadEnd)
    decreases Work(codec)
  {
    ReadFrameWorks(codec, expectMask);
    match ReadFrame(codec, expectMask)
    case (_, Err(e)) => ([], Failed(e))
    case (_, Ok(AtEnd)) => ([], Closed)
    case (next, Ok(Pending)) => Drain(next, expectMask)
    case (next, Ok(Got(frame))) =>
      var (frames, end) := Drain(next, expectMask);
      ([frame] + frames, end)
  }

  /** Parsing the whole stream at once: the reference. An incomplete last frame is dropped at the end. */
  function ParseAll(stream: Bytes, expectMask: bool): (seq<Frame>, ReadEnd)
    decreases |stream|
  {
    match ParseFrame(stream, expectMask)
    case Err(e) => ([], Failed(e))
    case Ok(None) => ([], Closed)
    case Ok(Some((frame, rest))) =>
      var (frames, end) := ParseAll(rest, expectMask);
      ([frame] + frames, end)
  }

  /**
   * Every complete frame of the stream is either short enough that a full read behind its last
   * missing byte stays within the buffer limit, or has too little behind it to pass that limit.
   */
  predicate Tight(stream: Bytes, expectMask: bool)
    decreases |stream|
  {
    match ParseFrame(stream, expectMask)
    case Ok(Some((_, rest))) =>
      (|stream| - |rest| <= SAFE_FRAME || |stream| <= BUFFER_LIMIT) && Tight(rest, expectMask)
    case _ => true
  }

  /** While nothing can be parsed off the front of a tight stream, no read passes the limit. */
  lemma ReadFits(buffer: Bytes, bytes: Bytes, later: Bytes, expectMask: bool)
    requires ParseFrame(buffer, expectMask) == Ok(None) && |bytes| <= READ_SIZE
    requires Tight(buffer + (bytes + later), expectMask)
    ensures |buffer| + |bytes| <= BUFFER_LIMIT
  {
    HeaderStable(buffer, bytes + later, expectMask);
    var stream := buffer + (bytes + later);
    if ParseHeader(buffer, expectMask) != Ok(None) && ParseFrame(stream, expectMask).value.Some? {
      var header := ParseHeader(stream, expectMask).value.value;
      assert |stream| - |ParseFrame(stream, expectMask).value.value.1| == header.frameLength;
    }
  }

  /**
   * However a tight stream is cut into reads, with pauses anywhere, the frames and the first error
   * are those of parsing it whole.
   */
  lemma {:induction false} SplitIndependent(codec: Codec, expectMask: bool)
    requires !codec.closed && PiecesOk(codec.pieces)
    requires Tight(codec.buffer + Arrived(codec.pieces), expectMask)
    ensures Drain(codec, expectMask) == ParseAll(codec.buffer + Arrived(codec.pieces), expectMask)
    decreases Work(codec)
  {
    var later := Arrived(codec.pieces);
    var stream := codec.buffer + later;
    FrameStable(codec.buffer, later, expectMask);
    match ParseFrame(codec.buffer, expectMask)
    case Err(_) =>
    case Ok(Some((frame, rest))) =>
      ReadFrameWorks(codec, expectMask);
      SplitIndependent(codec.(buffer := rest), expectMask);
    case Ok(None) =>
      if codec.pieces == [] {
        assert stream == codec.buffer;
      } else {
        match codec.pieces[0]
        case NotReady =>
          assert later == Arrived(codec.pieces[1..]);
          SplitIndependent(codec.(pieces := codec.pieces[1..]), expectMask);
        case Data(bytes) =>
          var grown := Codec(codec.buffer + bytes, false, codec.pieces[1..]);
          assert grown.buffer + Arrived(grown.pieces) == stream;
          ReadFits(codec.buffer, bytes, Arrived(grown.pieces), expectMask);
          DrainGrown(codec, grown, expectMask);
          SplitIndependent(grown, expectMask);
      }
  }

  /** Draining goes on from the grown buffer. */
  lemma DrainGrown(codec: Codec, grown: Codec, expectMask: bool)
    requires !codec.closed && ParseFrame(codec.buffer, expectMask) == Ok(None)
    requires codec.pieces != [] && codec.pieces[0].Data?
    requires grown == Codec(codec.buffer + codec.pieces[0].bytes, false, codec.pieces[1..])
    requires |grown.buffer| <= BUFFER_LIMIT
    ensures Drain(codec, expectMask) == Drain(grown, expectMask)
    ensures Work(grown) < Work(codec)
  {
    assert ReadFrame(codec, expectMask) == ReadFrame(grown, expectMask);
  }

  // ---- Streams that are not tight ----

  /** The stream one byte at a time. */
  function Bytewise(stream: Bytes): (pieces: seq<Piece>)
    ensures PiecesOk(pieces)
  {
    if stream == [] then [] else [Data([stream[0]])] + Bytewise(stream[1..])
  }

  lemma ArrivedStep(piece: Piece, rest: seq<Piece>)
    ensures Arrived([piece] + rest) == (if piece.Data? then piece.bytes else []) + Arrived(rest)
  {
    assert ([piece] + rest)[1..] == rest;
  }

  lemma ConcatAssociative<T>(a: seq<T>, b: seq<T>, c: seq<T>)
    ensures (a + b) + c == a + (b + c)
  {
  }

  lemma {:induction false} BytewiseArrives(stream: Bytes, rest: seq<Piece>)
    ensures Arrived(Bytewise(stream) + rest) == stream + Arrived(rest)
  {
    if stream == [] {
      assert Bytewise(stream) + rest == rest;
      assert stream + Arrived(rest) == Arrived(rest);
    } else {
      var first, others := [stream[0]], stream[1..];
      BytewiseArrives(others, rest);
      ConcatAssociative([Data(first)], Bytewise(others), rest);
      ArrivedStep(Data(first), Bytewise(others) + rest);
      ConcatAssociative(first, others, Arrived(rest));
      assert first + others == stream;
    }
  }

  /** A proper prefix of a frame is never parsed, as a frame or as an error. */
  lemma PrefixWaits(prefix: Bytes, rest: Bytes, header: Header, expectMask: bool)
    requires ParseHeader(prefix + rest, expectMask) == Ok(Some(header)) && |prefix| < header.frameLength
    ensures ParseFrame(prefix, expectMask) == Ok(None)
  {
    HeaderStable(prefix, rest, expectMask);
  }

  /** While nothing can be parsed, a piece that fits is taken in. */
  lemma TakesPiece(buffer: Bytes, bytes: Bytes, rest: seq<Piece>, expectMask: bool)
    requires ParseFrame(buffer, expectMask) == Ok(None) && |buffer| + |bytes| <= BUFFER_LIMIT
    ensures ReadFrame(Codec(buffer, false, [Data(bytes)] + rest), expectMask)
         == ReadFrame(Codec(buffer + bytes, false, rest), expectMask)
  {
    assert ([Data(bytes)] + rest)[1..] == rest;
  }

  /** Byte by byte, the codec takes in a prefix of a frame and goes on with what follows. */
  lemma {:induction false} PrefixTaken(
    prefix: Bytes, feed: Bytes, tail: seq<Piece>, rest: Bytes, header: Header, expectMask: bool)
    requires ParseHeader(prefix + feed + rest, expectMask) == Ok(Some(header))
    requires |prefix| + |feed| < header.frameLength <= BUFFER_LIMIT
    ensures ReadFrame(Codec(prefix, false, Bytewise(feed) + tail), expectMask)
            == ReadFrame(Codec(prefix + feed, false, tail), expectMask)
    decreases |feed|
  {
    if feed == [] {
      assert Bytewise(feed) + tail == tail && prefix + feed == prefix;
    } else {
      var first, others := [feed[0]], feed[1..];
      assert feed == first + others;
      ConcatAssociative(prefix, feed, rest);
      PrefixWaits(prefix, feed + rest, header, expectMask);
      ConcatAssociative([Data(first)], Bytewise(others), tail);
      TakesPiece(prefix, first, Bytewise(others) + tail, expectMask);
      ConcatAssociative(prefix, first, others);
      PrefixTaken(prefix + first, others, tail, rest, header, expectMask);
    }
  }

  function Least(a: nat, b: nat): nat {
    if a < b then a else b
  }

  /** All but the last byte of the first frame one at a time, then the longest read, then the rest. */
  function BadCut(stream: Bytes, length: nat): (pieces: seq<Piece>)
    requires 0 < length <= |stream|
    ensures PiecesOk(pieces)
  {
    var k := length - 1;
    var end := Least(k + READ_SIZE, |stream|);
    Bytewise(stream[..k]) + ([Data(stream[k..end])] + Bytewise(stream[end..]))
  }

  lemma CutTwice(stream: Bytes, i: nat, j: nat)
    requires i <= j <= |stream|
    ensures stream[..i] + (stream[i..j] + stream[j..]) == stream
  {
  }

  lemma BadCutArrives(stream: Bytes, length: nat)
    requires 0 < length <= |stream|
    ensures Arrived(BadCut(stream, length)) == stream
  {
    var k := length - 1;
    var end := Least(k + READ_SIZE, |stream|);
    var after := stream[end..];
    BytewiseArrives(stream[..k], [Data(stream[k..end])] + Bytewise(after));
    ArrivedStep(Data(stream[k..end]), Bytewise(after));
    BytewiseArrives(after, []);
    assert Bytewise(after) + [] == Bytewise(after);
    assert after + Arrived([]) == after;
    CutTwice(stream, k, end);
  }

  /** With one read pending that overflows the buffer, the codec fails. */
  lemma OverflowFails(buffer: Bytes, full: Bytes, rest: seq<Piece>, expectMask: bool)
    requires ParseFrame(buffer, expectMask) == Ok(None) && |buffer| + |full| > BUFFER_LIMIT
    ensures ReadFrame(Codec(buffer, false, [Data(full)] + rest), expectMask).1 == Err(FrameTooLarge)
  {
  }

  lemma HeaderBound(stream: Bytes, header: Header, expectMask: bool)
    requires ParseHeader(stream, expectMask) == Ok(Some(header))
    ensures 0 < header.frameLength <= BUFFER_LIMIT
  {
  }

  /** A proper prefix of the first frame, byte by byte, ends up in the buffer. */
  lemma PrefixRead(stream: Bytes, k: nat, header: Header, tail: seq<Piece>, expectMask: bool)
    requires ParseHeader(stream, expectMask) == Ok(Some(header)) && k < header.frameLength && k <= |stream|
    ensures ReadFrame(Codec([], false, Bytewise(stream[..k]) + tail), expectMask)
         == ReadFrame(Codec(stream[..k], false, tail), expectMask)
    ensures ParseFrame(stream[..k], expectMask) == Ok(None)
  {
    var prefix := stream[..k];
    HeaderBound(stream, header, expectMask);
    assert [] + prefix == prefix && prefix + stream[k..] == stream;
    PrefixTaken([], prefix, tail, stream[k..], header, expectMask);
    PrefixWaits(prefix, stream[k..], header, expectMask);
  }

  lemma DrainFailed(codec: Codec, expectMask: bool, error: FrameError)
    requires ReadFrame(codec, expectMask).1 == Err(error)
    ensures Drain(codec, expectMask) == ([], Failed(error))
  {
  }

  /**
   * A first frame that is too long for the bytes behind it: parsing the whole stream finds it, yet
   * there is a cut of the same stream on which the codec rejects it as too large.
   */
  lemma LongFrameRefused(stream: Bytes, header: Header, expectMask: bool)
    requires ParseHeader(stream, expectMask) == Ok(Some(header)) && header.frameLength <= |stream|
    requires header.frameLength > SAFE_FRAME && |stream| > BUFFER_LIMIT
    ensures PiecesOk(BadCut(stream, header.frameLength)) && Arrived(BadCut(stream, header.frameLength)) == stream
    ensures Drain(Codec([], false, BadCut(stream, header.frameLength)), expectMask) == ([], Failed(FrameTooLarge))
    ensures ParseFrame(stream, expectMask).Ok? && ParseFrame(stream, expectMask).value.Some?
  {
    var k := header.frameLength - 1;
    var end := Least(k + READ_SIZE, |stream|);
    var tail := [Data(stream[k..end])] + Bytewise(stream[end..]);
    BadCutArrives(stream, header.frameLength);
    PrefixRead(stream, k, header, tail, expectMask);
    OverflowFails(stream[..k], stream[k..end], Bytewise(stream[end..]), expectMask);
    DrainFailed(Codec([], false, BadCut(stream, header.frameLength)), expectMask, FrameTooLarge);
  }

  /** A frame alone shows the header it had in the stream. */
  lemma HeaderOfFrame(stream: Bytes, header: Header, expectMask: bool)
    requires ParseHeader(stream, expectMask) == Ok(Some(header)) && header.frameLength <= |stream|
    ensures ParseHeader(stream[..header.frameLength], expectMask) == Ok(Some(header))
  {
    var frame := stream[..header.frameLength];
    assert frame + stream[header.frameLength..] == stream;
    HeaderStable(frame, stream[header.frameLength..], expectMask);
  }

  lemma FrameAlone(stream: Bytes, expectMask: bool)
    requires ParseFrame(stream, expectMask).Ok? && ParseFrame(stream, expectMask).value.Some?
    ensures var (frame, rest) := ParseFrame(stream, expectMask).value.value;
            var length := |stream| - |rest|;
            && 0 < length <= BUFFER_LIMIT && rest == stream[length..]
            && ParseHeader(stream, expectMask).Ok? && ParseHeader(stream, expectMask).value.Some?
            && ParseHeader(stream, expectMask).value.value.frameLength == length
            && ParseFrame(stream[..length], expectMask) == Ok(Some((frame, [])))
  {
    var (frame, rest) := ParseFrame(stream, expectMask).value.value;
    var header := ParseHeader(stream, expectMask).value.value;
    var alone := stream[..header.frameLength];
    HeaderOfFrame(stream, header, expectMask);
    assert alone + rest == stream;
    FrameStable(alone, rest, expectMask);
    assert alone[header.frameLength..] == [];
  }

  lemma BytewiseSnoc(stream: Bytes, last: bv8, tail: seq<Piece>)
    ensures Bytewise(stream + [last]) + tail == Bytewise(stream) + ([Data([last])] + tail)
    decreases |stream|
  {
    if stream == [] {
      assert stream + [last] == [last] && [last][1..] == [];
      assert Bytewise([last]) == [Data([last])];
    } else {
      assert (stream + [last])[1..] == stream[1..] + [last];
      BytewiseSnoc(stream[1..], last, tail);
      ConcatAssociative([Data([stream[0]])], Bytewise(stream[1..] + [last]), tail);
      ConcatAssociative([Data([stream[0]])], Bytewise(stream[1..]), [Data([last])] + tail);
    }
  }

  /** A frame that comes byte by byte is delivered, and the codec goes on with what follows. */
  lemma FrameDelivered(stream: Bytes, tail: seq<Piece>, expectMask: bool)
    requires ParseFrame(stream, expectMask).Ok? && ParseFrame(stream, expectMask).value.Some?
    ensures var (frame, rest) := ParseFrame(stream, expectMask).value.value;
            ReadFrame(Codec([], false, Bytewise(stream[..|stream| - |rest|]) + tail), expectMask)
            == (Codec([], false, tail), Ok(Got(frame)))
  {
    var (frame, rest) := ParseFrame(stream, expectMask).value.value;
    FrameAlone(stream, expectMask);
    var k := |stream| - |rest| - 1;
    FrameTaken(stream, k, ParseHeader(stream, expectMask).value.value, frame, tail, expectMask);
  }

  lemma FrameTaken(stream: Bytes, k: nat, header: Header, frame: Frame, tail: seq<Piece>, expectMask: bool)
    requires ParseHeader(stream, expectMask) == Ok(Some(header))
    requires k < |stream| && header.frameLength == k + 1 <= BUFFER_LIMIT
    requires ParseFrame(stream[..k + 1], expectMask) == Ok(Some((frame, [])))
    ensures ReadFrame(Codec([], false, Bytewise(stream[..k + 1]) + tail), expectMask)
         == (Codec([], false, tail), Ok(Got(frame)))
  {
    var prefix, last := stream[..k], stream[k];
    assert stream[..k + 1] == prefix + [last] && prefix + stream[k..] == stream;
    BytewiseSnoc(prefix, last, tail);
    PrefixRead(stream, k, header, [Data([last])] + tail, expectMask);
    PrefixWaits(prefix, stream[k..], header, expectMask);
    TakesPiece(prefix, [last], tail, expectMask);
    ReadsParsed(stream[..k + 1], tail, frame, expectMask);
  }

  lemma ReadsParsed(buffer: Bytes, pieces: seq<Piece>, frame: Frame, expectMask: bool)
    requires ParseFrame(buffer, expectMask) == Ok(Some((frame, [])))
    ensures ReadFrame(Codec(buffer, false, pieces), expectMask) == (Codec([], false, pieces), Ok(Got(frame)))
  {
  }

  /** A cut on which the codec and the whole parse differ: tight frames byte by byte up to one that is not. */
  function UntightCut(stream: Bytes, expectMask: bool): (pieces: seq<Piece>)
    requires !Tight(stream, expectMask)
    ensures PiecesOk(pieces)
    decreases |stream|
  {
    var rest := ParseFrame(stream, expectMask).value.value.1;
    var length := |stream| - |rest|;
    if Tight(rest, expectMask) then BadCut(stream, length)
    else Bytewise(stream[..length]) + UntightCut(rest, expectMask)
  }

  /** On the cut the codec stops for a frame too large, and what it found differs from parsing the stream whole. */
  ghost predicate Differs(stream: Bytes, pieces: seq<Piece>, expectMask: bool) {
    && Arrived(pieces) == stream
    && Drain(Codec([], false, pieces), expectMask) != ParseAll(stream, expectMask)
    && Drain(Codec([], false, pieces), expectMask).1 == Failed(FrameTooLarge)
  }

  lemma UntightFirst(stream: Bytes, expectMask: bool) returns (header: Header)
    requires !Tight(stream, expectMask) && Tight(ParseFrame(stream, expectMask).value.value.1, expectMask)
    ensures ParseHeader(stream, expectMask) == Ok(Some(header)) && header.frameLength <= |stream|
    ensures header.frameLength > SAFE_FRAME && |stream| > BUFFER_LIMIT
    ensures UntightCut(stream, expectMask) == BadCut(stream, header.frameLength)
  {
    FrameAlone(stream, expectMask);
    header := ParseHeader(stream, expectMask).value.value;
  }

  lemma DiffersHere(stream: Bytes, expectMask: bool)
    requires !Tight(stream, expectMask) && Tight(ParseFrame(stream, expectMask).value.value.1, expectMask)
    ensures Differs(stream, UntightCut(stream, expectMask), expectMask)
  {
    var header := UntightFirst(stream, expectMask);
    LongFrameRefused(stream, header, expectMask);
    ParseAllGot(stream, expectMask);
  }

  lemma SameTail(first: Frame, a: seq<Frame>, b: seq<Frame>)
    ensures [first] + a == [first] + b ==> a == b
  {
    assert ([first] + a)[1..] == a && ([first] + b)[1..] == b;
  }

  lemma DiffersLater(stream: Bytes, tail: seq<Piece>, expectMask: bool)
    requires ParseFrame(stream, expectMask).Ok? && ParseFrame(stream, expectMask).value.Some?
    requires Differs(ParseFrame(stream, expectMask).value.value.1, tail, expectMask)
    ensures var rest := ParseFrame(stream, expectMask).value.value.1;
            Differs(stream, Bytewise(stream[..|stream| - |rest|]) + tail, expectMask)
  {
    var (frame, rest) := ParseFrame(stream, expectMask).value.value;
    ParseAllGot(stream, expectMask);
    DiffersBehind(stream, tail, expectMask);
    SameTail(frame, Drain(Codec([], false, tail), expectMask).0, ParseAll(rest, expectMask).0);
  }

  lemma {:induction false} UntightDiffers(stream: Bytes, expectMask: bool)
    requires !Tight(stream, expectMask)
    ensures Differs(stream, UntightCut(stream, expectMask), expectMask)
    decreases |stream|
  {
    var rest := ParseFrame(stream, expectMask).value.value.1;
    if Tight(rest, expectMask) {
      DiffersHere(stream, expectMask);
    } else {
      UntightDiffers(rest, expectMask);
      DiffersLater(stream, UntightCut(rest, expectMask), expectMask);
    }
  }

  /** A cut of what follows the first frame, put behind that frame byte by byte. */
  lemma DiffersBehind(stream: Bytes, tail: seq<Piece>, expectMask: bool)
    requires ParseFrame(stream, expectMask).Ok? && ParseFrame(stream, expectMask).value.Some?
    requires Arrived(tail) == ParseFrame(stream, expectMask).value.value.1
    ensures var (frame, rest) := ParseFrame(stream, expectMask).value.value;
            var pieces := Bytewise(stream[..|stream| - |rest|]) + tail;
            && Arrived(pieces) == stream
            && Drain(Codec([], false, pieces), expectMask)
               == ([frame] + Drain(Codec([], false, tail), expectMask).0, Drain(Codec([], false, tail), expectMask).1)
  {
    var (frame, rest) := ParseFrame(stream, expectMask).value.value;
    var length := |stream| - |rest|;
    FrameAlone(stream, expectMask);
    BytewiseArrives(stream[..length], tail);
    assert stream[..length] + stream[length..] == stream;
    FrameDelivered(stream, tail, expectMask);
    DrainGot(Codec([], false, Bytewise(stream[..length]) + tail), Codec([], false, tail), frame, expectMask);
  }

  lemma DrainGot(codec: Codec, next: Codec, frame: Frame, expectMask: bool)
    requires ReadFrame(codec, expectMask) == (next, Ok(Got(frame)))
    ensures Drain(codec, expectMask).0 == [frame] + Drain(next, expectMask).0
    ensures Drain(codec, expectMask).1 == Drain(next, expectMask).1
  {
    ReadFrameWorks(codec, expectMask);
  }

  lemma ParseAllGot(stream: Bytes, expectMask: bool)
    requires ParseFrame(stream, expectMask).Ok? && ParseFrame(stream, expectMask).value.Some?
    ensures var (frame, rest) := ParseFrame(stream, expectMask).value.value;
            ParseAll(stream, expectMask) == ([frame] + ParseAll(rest, expectMask).0, ParseAll(rest, expectMask).1)
  {
  }

  /**
   * Exactly the tight streams do not depend on the cut: on every cut of them, and of no other
   * stream, the codec's frames and first error are those of parsing the stream whole.
   */
  lemma TightExact(stream: Bytes, expectMask: bool)
    ensures Tight(stream, expectMask) <==>
            forall pieces :: PiecesOk(pieces) && Arrived(pieces) == stream ==>
              Drain(Codec([], false, pieces), expectMask) == ParseAll(stream, expectMask)
  {
    if Tight(stream, expectMask) {
      forall pieces | PiecesOk(pieces) && Arrived(pieces) == stream
        ensures Drain(Codec([], false, pieces), expectMask) == ParseAll(stream, expectMask)
      {
        assert [] + Arrived(pieces) == stream;
        SplitIndependent(Codec([], false, pieces), expectMask);
      }
    } else {
      UntightDiffers(stream, expectMask);
    }
  }

  /** Such a stream: a frame of the longest body with five bytes or more behind it. */
  lemma CutCanMatter(payload: Bytes, rest: Bytes)
    requires |payload| == MAX_WEBSOCKET_BODY && |rest| >= 5
    ensures WriteFrame(0x2, payload, None).Ok?
    ensures var stream := WriteFrame(0x2, payload, None).value + rest;
            && !Tight(stream, false) && Differs(stream, UntightCut(stream, false), false)
            && ParseFrame(stream, false) == Ok(Some((Frame(true, 0x2, payload), rest)))
  {
    FrameRoundTrip(0x2, payload, None, rest);
    UntightDiffers(WriteFrame(0x2, payload, None).value + rest, false);
  }
}
