/** Frames as any peer may put them on the wire, and the messages they carry. */
module WebSocketWire {
  import opened Wrappers
  import opened WebSocketFrames
  import opened WebSocketStream
  import opened WebSocketMessages
  import WebSocketClose

  // ---- One frame ----

  /** The three forms of the length: in seven bits, and in two or eight bytes more, which may be longer than needed. */
  datatype Width = Short | Medium | Long

  predicate WidthFits(width: Width, length: nat) {
    match width
    case Short => length <= 125
    case Medium => length < 0x1_0000
    case Long => length < 0x1_0000_0000_0000_0000
  }

  function LengthBytes(width: Width, length: nat, maskBit: bv8): Bytes
    requires WidthFits(width, length)
  {
    match width
    case Short => [maskBit | ByteOf(length)]
    case Medium => [maskBit | 126] + ToBigEndian(length, 2)
    case Long => [maskBit | 127] + ToBigEndian(length, 8)
  }

  function FirstByte(finalFrame: bool, opcode: bv8): bv8 {
    (if finalFrame then 0x80 else 0) | opcode
  }

  /** A frame as section 5.2 of RFC 6455 draws it. */
  datatype Sent = Sent(frame: Frame, width: Width, key: Option<Bytes>)

  predicate SentOk(sent: Sent) {
    && sent.frame.opcode < 16 && WidthFits(sent.width, |sent.frame.payload|)
    && (sent.key.Some? ==> |sent.key.value| == 4)
  }

  function MaskBit(key: Option<Bytes>): bv8 {
    if key.Some? then 0x80 else 0
  }

  function OnWire(sent: Sent): Bytes
    requires SentOk(sent)
  {
    [FirstByte(sent.frame.finalFrame, sent.frame.opcode)]
    + LengthBytes(sent.width, |sent.frame.payload|, MaskBit(sent.key))
    + (if sent.key.Some? then sent.key.value + Masked(sent.frame.payload, sent.key.value) else sent.frame.payload)
  }

  lemma FirstBits(finalFrame: bool, opcode: bv8)
    requires opcode < 16
    ensures var byte := FirstByte(finalFrame, opcode);
            byte & 0x70 == 0 && byte & 0x0f == opcode && (byte & 0x80 != 0 <==> finalFrame)
  {
  }

  /** The big-endian number: the first byte counts most. */
  lemma {:induction false} BigEndianFirst(first: bv8, rest: Bytes)
    ensures BigEndian([first] + rest) == first as nat * Power256(|rest|) + BigEndian(rest)
    decreases |rest|
  {
    if rest == [] {
      LastByte([], first);
      assert [] + [first] == [first] && [first] + rest == [first];
    } else {
      var k := |rest| - 1;
      assert [first] + rest == ([first] + rest[..k]) + [rest[k]];
      assert rest == rest[..k] + [rest[k]];
      LastByte([first] + rest[..k], rest[k]);
      LastByte(rest[..k], rest[k]);
      BigEndianFirst(first, rest[..k]);
      OneMoreByte(first as nat, Power256(k), BigEndian(rest[..k]), rest[k] as nat);
      assert Power256(k + 1) == 256 * Power256(k);
    }
  }

  lemma OneMoreByte(first: nat, power: nat, middle: nat, last: nat)
    ensures (first * power + middle) * 256 + last == first * (256 * power) + (middle * 256 + last)
  {
  }

  /** Masking changes byte `i` by byte `i mod 4` of the key. */
  lemma MaskedAt(payload: Bytes, key: Bytes, i: nat)
    requires |key| == 4 && i < |payload|
    ensures |Masked(payload, key)| == |payload| && Masked(payload, key)[i] == payload[i] ^ key[i % 4]
  {
  }

  lemma LengthRead(first: bv8, width: Width, length: nat, maskBit: bv8, rest: Bytes)
    requires WidthFits(width, length) && (maskBit == 0 || maskBit == 0x80)
    ensures var field := LengthBytes(width, length, maskBit);
            var buffer := [first] + field + rest;
            && LengthField(buffer) == Some((|field| - 1, length)) && buffer[0] == first
            && (buffer[1] & 0x80 != 0 <==> maskBit == 0x80)
  {
    match width
    case Short =>
      LengthBits(length, maskBit);
      assert ([first] + LengthBytes(width, length, maskBit) + rest)[1] == maskBit | ByteOf(length);
    case Medium =>
      assert Power256(2) == 0x1_0000;
      ExtendedLength(first, maskBit | 126, length, 2, rest);
      MaskBits(126, maskBit);
    case Long =>
      assert Power256(8) == 0x1_0000_0000_0000_0000;
      ExtendedLength(first, maskBit | 127, length, 8, rest);
      MaskBits(127, maskBit);
  }

  /** What the receiver allows: payloads up to the limit, and control frames whole and short. */
  predicate Legal(frame: Frame) {
    && |frame.payload| <= 16 * 1024 * 1024
    && (frame.opcode >= 0x8 ==> frame.finalFrame && |frame.payload| <= 125)
  }

  lemma WireHeader(sent: Sent, rest: Bytes)
    requires SentOk(sent)
    ensures var field := LengthBytes(sent.width, |sent.frame.payload|, MaskBit(sent.key));
            var body := if sent.key.Some? then sent.key.value + Masked(sent.frame.payload, sent.key.value)
                        else sent.frame.payload;
            var offset := 1 + |field|;
            var start := if sent.key.Some? then offset + 4 else offset;
            && OnWire(sent) + rest == [FirstByte(sent.frame.finalFrame, sent.frame.opcode)] + field + (body + rest)
            && ParseHeader(OnWire(sent) + rest, sent.key.Some?)
               == if |sent.frame.payload| > 16 * 1024 * 1024 then Err(FrameTooLarge)
                  else if !Legal(sent.frame) then Err(BadControlFrame)
                  else Ok(Some(Header(sent.frame.finalFrame, sent.frame.opcode, start, start + |sent.frame.payload|,
                                      if sent.key.Some? then Some(offset) else None)))
  {
    var first := FirstByte(sent.frame.finalFrame, sent.frame.opcode);
    var field := LengthBytes(sent.width, |sent.frame.payload|, MaskBit(sent.key));
    var body := if sent.key.Some? then sent.key.value + Masked(sent.frame.payload, sent.key.value)
                else sent.frame.payload;
    FirstBits(sent.frame.finalFrame, sent.frame.opcode);
    LengthRead(first, sent.width, |sent.frame.payload|, MaskBit(sent.key), body + rest);
    Regrouped([first] + field, body, rest);
  }

  lemma Regrouped(a: Bytes, b: Bytes, c: Bytes)
    ensures a + b + c == a + (b + c)
  {
  }

  /**
   * Every frame a peer may send, final or not, masked or not, with any form of the length, is read
   * back as it is and leaves exactly what follows it, if it is legal; and is refused otherwise.
   */
  lemma WireFrameParses(sent: Sent, rest: Bytes)
    requires SentOk(sent)
    ensures ParseFrame(OnWire(sent) + rest, sent.key.Some?)
         == if |sent.frame.payload| > 16 * 1024 * 1024 then Err(FrameTooLarge)
            else if !Legal(sent.frame) then Err(BadControlFrame)
            else Ok(Some((sent.frame, rest)))
  {
    WireHeader(sent, rest);
    if Legal(sent.frame) {
      if sent.key.Some? {
        MaskedWire(sent, rest);
      } else {
        PlainWire(sent, rest);
      }
    }
  }

  function WireHead(sent: Sent): Bytes
    requires SentOk(sent)
  {
    [FirstByte(sent.frame.finalFrame, sent.frame.opcode)]
    + LengthBytes(sent.width, |sent.frame.payload|, MaskBit(sent.key))
  }

  /** A frame whose header is known is taken out of the buffer by the header's offsets. */
  lemma FromHeader(buffer: Bytes, header: Header, expectMask: bool, raw: Bytes, rest: Bytes)
    requires ParseHeader(buffer, expectMask) == Ok(Some(header))
    requires header.payloadOffset <= header.frameLength <= |buffer|
    requires buffer[header.payloadOffset..header.frameLength] == raw && buffer[header.frameLength..] == rest
    ensures header.maskOffset.None? ==>
              ParseFrame(buffer, expectMask) == Ok(Some((Frame(header.finalFrame, header.opcode, raw), rest)))
    ensures header.maskOffset.Some? && header.maskOffset.value + 4 <= |buffer| ==>
              ParseFrame(buffer, expectMask)
              == Ok(Some((Frame(header.finalFrame, header.opcode,
                                Masked(raw, buffer[header.maskOffset.value..header.maskOffset.value + 4])), rest)))
  {
  }

  lemma MaskedWire(sent: Sent, rest: Bytes)
    requires SentOk(sent) && Legal(sent.frame) && sent.key.Some?
    ensures ParseFrame(OnWire(sent) + rest, true) == Ok(Some((sent.frame, rest)))
  {
    var head, key, payload := WireHead(sent), sent.key.value, sent.frame.payload;
    var body := Masked(payload, key);
    WireHeader(sent, rest);
    FourParts(head, key, body, rest);
    Regrouped(head, key, body);
    var header := ParseHeader(OnWire(sent) + rest, true).value.value;
    FromHeader(OnWire(sent) + rest, header, true, body, rest);
    MaskedTwice(payload, key);
  }

  lemma PlainWire(sent: Sent, rest: Bytes)
    requires SentOk(sent) && Legal(sent.frame) && sent.key.None?
    ensures ParseFrame(OnWire(sent) + rest, false) == Ok(Some((sent.frame, rest)))
  {
    var head, payload := WireHead(sent), sent.frame.payload;
    WireHeader(sent, rest);
    ThreeParts(head, payload, rest);
    var header := ParseHeader(OnWire(sent) + rest, false).value.value;
    FromHeader(OnWire(sent) + rest, header, false, payload, rest);
  }

  lemma ThreeParts(a: Bytes, b: Bytes, c: Bytes)
    ensures (a + b + c)[|a|..|a| + |b|] == b && (a + b + c)[|a| + |b|..] == c
  {
  }

  /** What the writer puts out is such a frame, final, with the shortest form of the length. */
  lemma WriterIsShortest(opcode: bv8, payload: Bytes, key: Option<Bytes>)
    requires (key.Some? ==> |key.value| == 4) && opcode < 16 && |payload| <= 16 * 1024 * 1024
    requires opcode >= 0x8 ==> |payload| <= 125
    ensures var width := if |payload| <= 125 then Short else if |payload| < 0x1_0000 then Medium else Long;
            WriteFrame(opcode, payload, key) == Ok(OnWire(Sent(Frame(true, opcode, payload), width, key)))
  {
    SmallOpcode(opcode);
    var first: Bytes := [0x80 | opcode];
    if key.Some? {
      Regrouped(first + WriteLength(|payload|, 0x80), key.value, Masked(payload, key.value));
    }
    ShortestForm(|payload|, MaskBit(key));
  }

  lemma ShortestForm(length: nat, maskBit: bv8)
    requires length <= 16 * 1024 * 1024
    ensures WriteLength(length, maskBit)
         == LengthBytes(if length <= 125 then Short else if length < 0x1_0000 then Medium else Long, length, maskBit)
  {
  }

  lemma SmallOpcode(opcode: bv8)
    requires opcode < 16
    ensures opcode & 0x40 == 0
  {
  }

  /** Whatever follows, a reserved bit is refused first, and then a mask where none belongs or none where one does. */
  lemma HeaderRefused(buffer: Bytes, expectMask: bool)
    requires |buffer| >= 2
    ensures buffer[0] & 0x70 != 0 ==> ParseFrame(buffer, expectMask) == Err(ReservedBits)
    ensures buffer[0] & 0x70 == 0 && (buffer[1] & 0x80 != 0) != expectMask ==>
              ParseFrame(buffer, expectMask) == Err(WrongMask)
  {
  }

  // ---- Many frames ----

  /** What a client may send: legal masked frames. */
  predicate ClientFrames(list: seq<Sent>) {
    forall i :: 0 <= i < |list| ==> SentOk(list[i]) && list[i].key.Some? && Legal(list[i].frame)
  }

  function FramesIn(list: seq<Sent>): seq<Frame> {
    seq(|list|, i requires 0 <= i < |list| => list[i].frame)
  }

  function AllOnWire(list: seq<Sent>): Bytes
    requires ClientFrames(list)
  {
    if list == [] then [] else OnWire(list[0]) + AllOnWire(list[1..])
  }

  /** Each frame is short enough, or too little follows it to matter. */
  predicate AllTight(list: seq<Sent>)
    requires ClientFrames(list)
  {
    list == []
    || ((|OnWire(list[0])| <= 16 * 1024 * 1024 - 8177 || |AllOnWire(list)| <= 16 * 1024 * 1024 + 14)
        && AllTight(list[1..]))
  }

  lemma FirstArrives(sent: Sent, rest: Bytes)
    requires SentOk(sent) && sent.key.Some? && Legal(sent.frame)
    ensures var wire := OnWire(sent) + rest;
            && ParseAll(wire, true) == ([sent.frame] + ParseAll(rest, true).0, ParseAll(rest, true).1)
            && (Tight(wire, true) <==>
                  (|OnWire(sent)| <= SAFE_FRAME || |wire| <= BUFFER_LIMIT) && Tight(rest, true))
  {
    WireFrameParses(sent, rest);
    FirstOfStream(OnWire(sent) + rest, sent.frame, rest);
  }

  lemma FirstOfStream(wire: Bytes, frame: Frame, rest: Bytes)
    requires ParseFrame(wire, true) == Ok(Some((frame, rest)))
    ensures ParseAll(wire, true) == ([frame] + ParseAll(rest, true).0, ParseAll(rest, true).1)
    ensures Tight(wire, true) <==> (|wire| - |rest| <= SAFE_FRAME || |wire| <= BUFFER_LIMIT) && Tight(rest, true)
  {
  }

  lemma ClientTail(list: seq<Sent>)
    requires ClientFrames(list) && list != []
    ensures ClientFrames(list[1..]) && SentOk(list[0]) && list[0].key.Some? && Legal(list[0].frame)
    ensures AllOnWire(list) == OnWire(list[0]) + AllOnWire(list[1..])
    ensures FramesIn(list) == [list[0].frame] + FramesIn(list[1..])
  {
    assert forall i :: 0 <= i < |list| - 1 ==> list[1..][i] == list[i + 1];
  }

  lemma TightStep(list: seq<Sent>)
    requires ClientFrames(list) && list != []
    ensures ClientFrames(list[1..])
    ensures AllTight(list) <==>
            (|OnWire(list[0])| <= SAFE_FRAME || |AllOnWire(list)| <= BUFFER_LIMIT) && AllTight(list[1..])
  {
    ClientTail(list);
  }

  lemma {:induction false} AllParse(list: seq<Sent>)
    requires ClientFrames(list)
    ensures ParseAll(AllOnWire(list), true) == (FramesIn(list), Closed)
    ensures Tight(AllOnWire(list), true) <==> AllTight(list)
    decreases |list|
  {
    if list == [] {
      assert FramesIn(list) == [];
    } else {
      ClientTail(list);
      AllParse(list[1..]);
      FirstArrives(list[0], AllOnWire(list[1..]));
      TightStep(list);
    }
  }

  /** On every cut of a client's bytes the codec finds exactly its frames, if and only if none is too long for it. */
  lemma FramesArrive(list: seq<Sent>)
    requires ClientFrames(list)
    ensures AllTight(list) <==>
            forall pieces :: PiecesOk(pieces) && Arrived(pieces) == AllOnWire(list) ==>
              Drain(Codec([], false, pieces), true) == (FramesIn(list), Closed)
  {
    AllParse(list);
    TightExact(AllOnWire(list), true);
  }

  // ---- What a session answers ----

  /** A pong for every ping, with its payload, in order. */
  function AnswersTo(frames: seq<Frame>): seq<Frame> {
    if frames == [] then []
    else (if frames[0].opcode == 0x9 then [Frame(true, 0xA, frames[0].payload)] else []) + AnswersTo(frames[1..])
  }

  lemma {:induction false} SessionAnswers(fragmented: Fragmented, frames: seq<Frame>)
    requires RunSession(fragmented, frames).end.Live?
    ensures RunSession(fragmented, frames).written == AnswersTo(frames)
    decreases |frames|
  {
    if frames != [] {
      var frame := frames[0];
      if PingOrPong(frame) {
        SessionAnswers(fragmented, frames[1..]);
      } else {
        SessionAnswers(Queue(fragmented, frame).value.0, frames[1..]);
        assert [] + AnswersTo(frames[1..]) == AnswersTo(frames[1..]);
      }
    }
  }

  /**
   * A close ends the session whatever comes behind it: it is echoed and its code and reason reported
   * if its payload can be read, and otherwise the session is broken.
   */
  lemma {:induction false} CloseEnds(fragmented: Fragmented, before: seq<Frame>, close: Frame, after: seq<Frame>)
    requires close.opcode == 0x8 && RunSession(fragmented, before).end.Live?
    ensures var session := RunSession(fragmented, before);
            RunSession(fragmented, before + [close] + after)
            == if WebSocketClose.ParseClose(close.payload).Ok? then
                 var (code, reason) := WebSocketClose.ParseClose(close.payload).value;
                 Session(session.delivered, session.written + [Frame(true, 0x8, close.payload)], ClosedBy(code, reason))
               else Session(session.delivered, session.written, Broken(InvalidClose))
    decreases |before|
  {
    var all := before + [close] + after;
    if before == [] {
      assert all[0] == close;
    } else {
      assert all[0] == before[0] && all[1..] == before[1..] + [close] + after;
      if PingOrPong(before[0]) {
        CloseEnds(fragmented, before[1..], close, after);
      } else {
        CloseEnds(Queue(fragmented, before[0]).value.0, before[1..], close, after);
      }
    }
  }

  /** A frame of no known kind breaks the session, whatever comes behind it. */
  lemma {:induction false} UnknownKindEnds(fragmented: Fragmented, before: seq<Frame>, frame: Frame, after: seq<Frame>)
    requires frame.opcode !in {0x0, 0x1, 0x2, 0x8, 0x9, 0xA} && RunSession(fragmented, before).end.Live?
    ensures var session := RunSession(fragmented, before);
            RunSession(fragmented, before + [frame] + after)
            == Session(session.delivered, session.written, Broken(InvalidOpcode))
    decreases |before|
  {
    var all := before + [frame] + after;
    if before == [] {
      assert all[0] == frame;
    } else {
      assert all[0] == before[0] && all[1..] == before[1..] + [frame] + after;
      if PingOrPong(before[0]) {
        UnknownKindEnds(fragmented, before[1..], frame, after);
      } else {
        UnknownKindEnds(Queue(fragmented, before[0]).value.0, before[1..], frame, after);
      }
    }
  }

  // ---- Fragmented messages ----

  /** On a cut of the bytes the session delivers the messages, answers the pings and stays open to the end. */
  ghost predicate Hears(pieces: seq<Piece>, list: seq<Sent>, messages: seq<Message>) {
    var (frames, end) := Drain(Codec([], false, pieces), true);
    end == Closed && RunSession(None, frames) == Session(messages, AnswersTo(FramesIn(list)), Live(None))
  }

  /**
   * End to end, for messages in any number of fragments with pings and pongs anywhere between them:
   * every cut of the bytes into reads and pauses delivers the concatenated messages and answers the
   * pings, if and only if no frame is too long for the codec.
   */
  lemma FragmentsDelivered(list: seq<Sent>, cuts: seq<Cut>)
    requires ClientFrames(list) && CutsOk(cuts) && WithoutPings(FramesIn(list)) == AllFrames(cuts)
    ensures AllTight(list) <==>
            forall pieces :: PiecesOk(pieces) && Arrived(pieces) == AllOnWire(list) ==>
              Hears(pieces, list, Wholes(cuts))
  {
    var frames := FramesIn(list);
    CutsDeliver(frames, cuts);
    AllParse(list);
    if AllTight(list) {
      FramesArrive(list);
    } else {
      UntightDiffers(AllOnWire(list), true);
      assert !Hears(UntightCut(AllOnWire(list), true), list, Wholes(cuts));
    }
  }

  lemma CutsDeliver(frames: seq<Frame>, cuts: seq<Cut>)
    requires CutsOk(cuts) && WithoutPings(frames) == AllFrames(cuts)
    ensures RunSession(None, frames) == Session(Wholes(cuts), AnswersTo(frames), Live(None))
  {
    DescribedIsAccepted(cuts, None);
    assert AllFrames(cuts) + OpenPart(None) == AllFrames(cuts);
    PingsTransparent(None, frames);
    SessionAnswers(None, frames);
  }
}
