/** Reassembling fragmented messages: section 5.4 of RFC 6455. */
module WebSocketMessages {
  import opened Wrappers
  import opened WebSocketFrames
  import opened WebSocketStream
  import WebSocketClose

  datatype MessageError = NoInitialFrame | MessageTooLarge | PreviousUnfinished | InvalidOpcode | InvalidClose

  datatype Message = Message(binary: bool, payload: Bytes)

  /** The message under construction: its first opcode and the bytes so far. */
  type Fragmented = Option<(bv8, Bytes)>

  /** One data frame: the new construction state, and the message it completes if it is final. */
  function Queue(fragmented: Fragmented, frame: Frame): Result<(Fragmented, Option<Message>), MessageError> {
    var opcode := frame.opcode;
    var joined :-
      if opcode == 0x0 then
        if fragmented.None? then Err(NoInitialFrame)
        else if |fragmented.value.1| + |frame.payload| > MAX_WEBSOCKET_BODY then Err(MessageTooLarge)
        else Ok((fragmented.value.0, fragmented.value.1 + frame.payload))
      else if opcode == 0x1 || opcode == 0x2 then
        if fragmented.Some? then Err(PreviousUnfinished) else Ok((opcode, frame.payload))
      else Err(InvalidOpcode);
    if frame.finalFrame then Ok((None, Some(Message(joined.0 == 0x2, joined.1)))) else Ok((Some(joined), None))
  }

  /**
   * A construction state and the list of messages delivered from it. The program has two reassemblers,
   * written separately: the gateway's delivers to the worker, the development proxy's to the gateway.
   */
  class Reassembler {
    var fragmented: Fragmented
    var delivered: seq<Message>

    constructor ()
      ensures fragmented == None && delivered == []
    {
      fragmented, delivered := None, [];
    }

    /** An error leaves the construction state taken; the session ends with it. */
    method QueueMessage(finalFrame: bool, opcode: bv8, payload: Bytes) returns (r: Result<(), MessageError>)
      modifies this
      ensures match Queue(old(fragmented), Frame(finalFrame, opcode, payload)) {
                case Ok((next, message)) =>
                  r == Ok(()) && fragmented == next
                  && delivered == old(delivered) + (if message.Some? then [message.value] else [])
                case Err(e) => r == Err(e) && delivered == old(delivered)
              }
    {
      var messageOpcode, message := opcode, payload;
      if opcode == 0x0 {
        if fragmented.None? {
          return Err(NoInitialFrame);
        }
        messageOpcode, message := fragmented.value.0, fragmented.value.1;
        fragmented := None;
        if |message| + |payload| > MAX_WEBSOCKET_BODY {
          return Err(MessageTooLarge);
        }
        message := message + payload;
      } else if opcode == 0x1 || opcode == 0x2 {
        if fragmented.Some? {
          return Err(PreviousUnfinished);
        }
      } else {
        return Err(InvalidOpcode);
      }
      if finalFrame {
        delivered := delivered + [Message(messageOpcode == 0x2, message)];
      } else {
        fragmented := Some((messageOpcode, message));
      }
      return Ok(());
    }

    method QueueUpstreamMessage(finalFrame: bool, opcode: bv8, payload: Bytes) returns (r: Result<(), MessageError>)
      modifies this
      ensures match Queue(old(fragmented), Frame(finalFrame, opcode, payload)) {
                case Ok((next, message)) =>
                  r == Ok(()) && fragmented == next
                  && delivered == old(delivered) + (if message.Some? then [message.value] else [])
                case Err(e) => r == Err(e) && delivered == old(delivered)
              }
    {
      var taken: (bv8, Bytes);
      if opcode == 0x0 {
        var open := fragmented;
        fragmented := None;
        if open.None? {
          return Err(NoInitialFrame);
        }
        if |open.value.1| + |payload| > MAX_WEBSOCKET_BODY {
          return Err(MessageTooLarge);
        }
        taken := (open.value.0, open.value.1 + payload);
      } else if opcode == 0x1 || opcode == 0x2 {
        if fragmented.Some? {
          return Err(PreviousUnfinished);
        }
        taken := (opcode, payload);
      } else {
        return Err(InvalidOpcode);
      }
      if finalFrame {
        delivered := delivered + [Message(taken.0 == 0x2, taken.1)];
      } else {
        fragmented := Some(taken);
      }
      return Ok(());
    }
  }

  // ---- A session ----

  datatype SessionEnd = Live(fragmented: Fragmented) | ClosedBy(code: nat, reason: string) | Broken(error: MessageError)

  /** What a session hands over, what it writes back, and how it stands after the frames. */
  datatype Session = Session(delivered: seq<Message>, written: seq<Frame>, end: SessionEnd)

  function RunSession(fragmented: Fragmented, frames: seq<Frame>): Session
    decreases |frames|
  {
    if frames == [] then Session([], [], Live(fragmented))
    else
      var frame := frames[0];
      if frame.opcode == 0x8 then
        match WebSocketClose.ParseClose(frame.payload)
        case Err(_) => Session([], [], Broken(InvalidClose))
        case Ok((code, reason)) => Session([], [Frame(true, 0x8, frame.payload)], ClosedBy(code, reason))
      else if frame.opcode == 0x9 then
        var rest := RunSession(fragmented, frames[1..]);
        rest.(written := [Frame(true, 0xA, frame.payload)] + rest.written)
      else if frame.opcode == 0xA then RunSession(fragmented, frames[1..])
      else
        match Queue(fragmented, frame)
        case Err(e) => Session([], [], Broken(e))
        case Ok((next, message)) =>
          var rest := RunSession(next, frames[1..]);
          if message.Some? then rest.(delivered := [message.value] + rest.delivered) else rest
  }

  /**
   * What the proxy makes of the frames of the development server: it answers pings, hands a close on
   * without echoing it, and reassembles the rest.
   */
  function RunProxy(fragmented: Fragmented, frames: seq<Frame>): Session
    decreases |frames|
  {
    if frames == [] then Session([], [], Live(fragmented))
    else
      var frame, later := frames[0], frames[1..];
      if frame.opcode == 0x8 then
        match WebSocketClose.ParseClose(frame.payload)
        case Err(_) => Session([], [], Broken(InvalidClose))
        case Ok((code, reason)) => Session([], [], ClosedBy(code, reason))
      else if frame.opcode == 0x9 then
        var rest := RunProxy(fragmented, later);
        rest.(written := [Frame(true, 0xA, frame.payload)] + rest.written)
      else if frame.opcode == 0xA then RunProxy(fragmented, later)
      else
        match Queue(fragmented, frame)
        case Err(e) => Session([], [], Broken(e))
        case Ok((next, message)) =>
          var rest := RunProxy(next, later);
          if message.Some? then rest.(delivered := [message.value] + rest.delivered) else rest
  }

  function Pongs(frames: seq<Frame>): seq<Frame> {
    if frames == [] then []
    else (if frames[0].opcode == 0xA then [frames[0]] else []) + Pongs(frames[1..])
  }

  /**
   * The two ends agree: on every frame sequence they deliver the same messages and end the same way,
   * and send the same pongs; only the gateway also echoes the close.
   */
  lemma {:induction false} ProxyAgrees(fragmented: Fragmented, frames: seq<Frame>)
    ensures var gateway, proxy := RunSession(fragmented, frames), RunProxy(fragmented, frames);
            && proxy.delivered == gateway.delivered && proxy.end == gateway.end
            && proxy.written == Pongs(gateway.written)
            && (!gateway.end.ClosedBy? ==> proxy.written == gateway.written)
    decreases |frames|
  {
    if frames != [] {
      var frame := frames[0];
      if frame.opcode == 0x8 {
        assert [Frame(true, 0x8, frame.payload)][1..] == [];
      } else if frame.opcode == 0x9 {
        var rest := RunSession(fragmented, frames[1..]).written;
        ProxyAgrees(fragmented, frames[1..]);
        assert ([Frame(true, 0xA, frame.payload)] + rest)[1..] == rest;
      } else if frame.opcode == 0xA {
        ProxyAgrees(fragmented, frames[1..]);
      } else {
        match Queue(fragmented, frame)
        case Ok((next, _)) => ProxyAgrees(next, frames[1..]);
        case Err(_) =>
      }
    }
  }

  // ---- The grammar of section 5.4 ----

  /** A message as its sender cut it: its type and the payloads of its one or more frames. */
  datatype Cut = Cut(binary: bool, parts: seq<Bytes>)

  function Join(parts: seq<Bytes>): Bytes {
    if parts == [] then [] else Join(parts[..|parts| - 1]) + parts[|parts| - 1]
  }

  function Whole(cut: Cut): Message {
    Message(cut.binary, Join(cut.parts))
  }

  function Opcode(binary: bool): bv8 {
    if binary then 0x2 else 0x1
  }

  /** The frames of a message of which `parts` have been sent and none was marked final. */
  function OpenFrames(cut: Cut): seq<Frame> {
    seq(|cut.parts|, i requires 0 <= i < |cut.parts| =>
      Frame(false, if i == 0 then Opcode(cut.binary) else 0x0, cut.parts[i]))
  }

  /** The frames of a finished message: the same with the last one marked final. */
  function WholeFrames(cut: Cut): seq<Frame>
    requires cut.parts != []
  {
    var frames := OpenFrames(cut);
    frames[|frames| - 1 := frames[|frames| - 1].(finalFrame := true)]
  }

  function AllFrames(cuts: seq<Cut>): seq<Frame>
    requires forall i :: 0 <= i < |cuts| ==> cuts[i].parts != []
  {
    if cuts == [] then [] else WholeFrames(cuts[0]) + AllFrames(cuts[1..])
  }

  predicate CutOk(cut: Cut) {
    cut.parts != [] && (|cut.parts| > 1 ==> |Join(cut.parts)| <= MAX_WEBSOCKET_BODY)
  }

  predicate CutsOk(cuts: seq<Cut>) {
    forall i :: 0 <= i < |cuts| ==> CutOk(cuts[i])
  }

  /** The open message, if there is one, as the construction state holds it. */
  function AsState(cut: Option<Cut>): Fragmented {
    match cut
    case None => None
    case Some(c) => Some((Opcode(c.binary), Join(c.parts)))
  }

  function OpenPart(cut: Option<Cut>): seq<Frame> {
    if cut.Some? then OpenFrames(cut.value) else []
  }

  function Wholes(cuts: seq<Cut>): seq<Message> {
    seq(|cuts|, i requires 0 <= i < |cuts| => Whole(cuts[i]))
  }

  /** The frames are the finished messages `cuts` one after another and then the unfinished `open`. */
  ghost predicate Describes(frames: seq<Frame>, cuts: seq<Cut>, open: Option<Cut>) {
    CutsOk(cuts) && (open.Some? ==> CutOk(open.value)) && frames == AllFrames(cuts) + OpenPart(open)
  }

  /** Reads the structure off an accepted frame list, continuing the unfinished message `open`. */
  ghost function Structure(frames: seq<Frame>, open: Option<Cut>): (seq<Cut>, Option<Cut>)
    requires forall i :: 0 <= i < |frames| ==> frames[i].opcode <= 0x2
    decreases |frames|
  {
    if frames == [] then ([], open)
    else
      var frame := frames[0];
      var grown := Grown(open, frame);
      if frame.finalFrame then
        var (cuts, last) := Structure(frames[1..], None);
        ([grown] + cuts, last)
      else Structure(frames[1..], Some(grown))
  }

  lemma JoinSnoc(parts: seq<Bytes>, last: Bytes)
    ensures Join(parts + [last]) == Join(parts) + last
  {
    assert (parts + [last])[..|parts|] == parts;
  }

  /** The message under construction with one more frame. */
  function Grown(open: Option<Cut>, frame: Frame): Cut {
    if open.Some? then Cut(open.value.binary, open.value.parts + [frame.payload])
    else Cut(frame.opcode == 0x2, [frame.payload])
  }

  lemma GrownJoin(open: Option<Cut>, frame: Frame)
    ensures Join(Grown(open, frame).parts) == (if open.Some? then Join(open.value.parts) else []) + frame.payload
  {
    if open.Some? {
      JoinSnoc(open.value.parts, frame.payload);
    } else {
      JoinSnoc([], frame.payload);
      assert [] + [frame.payload] == [frame.payload];
    }
  }

  /** Exactly which frames are accepted, and the construction state they lead to. */
  lemma QueueGrows(open: Option<Cut>, frame: Frame)
    requires open.Some? ==> open.value.parts != []
    requires frame.opcode <= 0x2
    ensures Queue(AsState(open), frame).Ok?
            <==> (frame.opcode == 0x0 <==> open.Some?) && CutOk(Grown(open, frame))
    ensures Queue(AsState(open), frame).Ok? ==>
              var grown := Grown(open, frame);
              Queue(AsState(open), frame).value
              == if frame.finalFrame then (None, Some(Whole(grown))) else (AsState(Some(grown)), None)
  {
    GrownJoin(open, frame);
    assert frame.opcode == 0x0 || frame.opcode == 0x1 || frame.opcode == 0x2;
    if open.None? {
      assert [] + frame.payload == frame.payload;
    }
  }

  lemma GrownFrames(open: Option<Cut>, frame: Frame)
    requires open.Some? ==> open.value.parts != []
    requires frame.opcode <= 0x2 && (frame.opcode == 0x0 <==> open.Some?)
    ensures var grown := Grown(open, frame);
            && OpenFrames(grown) == OpenPart(open) + [frame.(finalFrame := false)]
            && WholeFrames(grown) == OpenPart(open) + [frame.(finalFrame := true)]
  {
    assert frame.opcode == 0x0 || frame.opcode == 0x1 || frame.opcode == 0x2;
    var grown := Grown(open, frame);
    if open.None? {
      assert frame.opcode == Opcode(grown.binary);
      assert OpenFrames(grown)[0] == frame.(finalFrame := false);
      assert OpenFrames(grown) == [frame.(finalFrame := false)];
      assert OpenPart(open) + [frame.(finalFrame := false)] == [frame.(finalFrame := false)];
    }
  }

  /** How a session goes on after a data frame. */
  lemma DataStep(open: Option<Cut>, frames: seq<Frame>)
    requires frames != [] && frames[0].opcode <= 0x2 && (open.Some? ==> open.value.parts != [])
    ensures var grown := Grown(open, frames[0]);
            var s := RunSession(AsState(open), frames);
            if !((frames[0].opcode == 0x0 <==> open.Some?) && CutOk(grown)) then s.end.Broken?
            else if frames[0].finalFrame then
              var later := RunSession(None, frames[1..]);
              s == later.(delivered := [Whole(grown)] + later.delivered)
            else s == RunSession(AsState(Some(grown)), frames[1..])
  {
    QueueGrows(open, frames[0]);
  }

  /** The structure read off the frames is theirs, and the session delivers exactly its messages. */
  ghost predicate Explained(frames: seq<Frame>, open: Option<Cut>)
    requires forall i :: 0 <= i < |frames| ==> frames[i].opcode <= 0x2
  {
    var (cuts, last) := Structure(frames, open);
    && Describes(OpenPart(open) + frames, cuts, last)
    && RunSession(AsState(open), frames) == Session(Wholes(cuts), [], Live(AsState(last)))
  }

  lemma ExplainFinal(frames: seq<Frame>, open: Option<Cut>)
    requires forall i :: 0 <= i < |frames| ==> frames[i].opcode <= 0x2
    requires frames != [] && frames[0].finalFrame && (open.Some? ==> CutOk(open.value))
    requires (frames[0].opcode == 0x0 <==> open.Some?) && CutOk(Grown(open, frames[0]))
    requires Explained(frames[1..], None)
    ensures Explained(frames, open)
  {
    var grown, tail := Grown(open, frames[0]), frames[1..];
    var (cuts, last) := Structure(tail, None);
    DataStep(open, frames);
    FramesMove(frames, open);
    assert OpenPart(None) + tail == tail;
    DescribesMore(grown, tail, cuts, last);
  }

  lemma ExplainOpen(frames: seq<Frame>, open: Option<Cut>)
    requires forall i :: 0 <= i < |frames| ==> frames[i].opcode <= 0x2
    requires frames != [] && !frames[0].finalFrame && (open.Some? ==> CutOk(open.value))
    requires (frames[0].opcode == 0x0 <==> open.Some?) && CutOk(Grown(open, frames[0]))
    requires Explained(frames[1..], Some(Grown(open, frames[0])))
    ensures Explained(frames, open)
  {
    DataStep(open, frames);
    FramesMove(frames, open);
  }

  lemma {:induction false} AcceptedIsExplained(frames: seq<Frame>, open: Option<Cut>)
    requires forall i :: 0 <= i < |frames| ==> frames[i].opcode <= 0x2
    requires open.Some? ==> CutOk(open.value)
    requires RunSession(AsState(open), frames).end.Live?
    ensures Explained(frames, open)
    decreases |frames|
  {
    if frames == [] {
      assert OpenPart(open) + [] == OpenPart(open);
    } else {
      DataStep(open, frames);
      if frames[0].finalFrame {
        AcceptedIsExplained(frames[1..], None);
        ExplainFinal(frames, open);
      } else {
        AcceptedIsExplained(frames[1..], Some(Grown(open, frames[0])));
        ExplainOpen(frames, open);
      }
    }
  }

  /** The first frame belongs to the message it completes or extends. */
  lemma FramesMove(frames: seq<Frame>, open: Option<Cut>)
    requires frames != [] && (open.Some? ==> open.value.parts != [])
    requires frames[0].opcode <= 0x2 && (frames[0].opcode == 0x0 <==> open.Some?)
    ensures var grown := Grown(open, frames[0]);
            OpenPart(open) + frames
            == (if frames[0].finalFrame then WholeFrames(grown) else OpenPart(Some(grown))) + frames[1..]
  {
    GrownFrames(open, frames[0]);
    assert frames == [frames[0]] + frames[1..];
    ConcatAssociative(OpenPart(open), [frames[0]], frames[1..]);
  }

  lemma DescribesMore(cut: Cut, frames: seq<Frame>, cuts: seq<Cut>, open: Option<Cut>)
    requires CutOk(cut) && Describes(frames, cuts, open)
    ensures Describes(WholeFrames(cut) + frames, [cut] + cuts, open)
    ensures Wholes([cut] + cuts) == [Whole(cut)] + Wholes(cuts)
  {
    var all := [cut] + cuts;
    assert all[1..] == cuts;
    assert CutsOk(all);
    ConcatAssociative(WholeFrames(cut), AllFrames(cuts), OpenPart(open));
  }

  // ---- The other direction ----

  lemma {:induction false} JoinMonotone(parts: seq<Bytes>, k: nat)
    requires k <= |parts|
    ensures |Join(parts[..k])| <= |Join(parts)|
  {
    if k < |parts| {
      JoinMonotone(parts[..|parts| - 1], k);
      assert parts[..|parts| - 1][..k] == parts[..k];
    } else {
      assert parts[..k] == parts;
    }
  }

  /** The first `k` payloads of a cut. */
  function UpTo(cut: Cut, k: nat): Cut
    requires k <= |cut.parts|
  {
    Cut(cut.binary, cut.parts[..k])
  }

  function OpenBefore(cut: Cut, k: nat): Option<Cut>
    requires 1 <= k <= |cut.parts|
  {
    if k == 1 then None else Some(UpTo(cut, k - 1))
  }

  function FrameAt(cut: Cut, k: nat, finalFrame: bool): Frame
    requires 1 <= k <= |cut.parts|
  {
    Frame(finalFrame, if k == 1 then Opcode(cut.binary) else 0x0, cut.parts[k - 1])
  }

  /** The `k`-th frame of a cut grows what came before it to the first `k`. */
  lemma CutGrows(cut: Cut, k: nat, finalFrame: bool)
    requires CutOk(cut) && 1 <= k <= |cut.parts|
    ensures Grown(OpenBefore(cut, k), FrameAt(cut, k, finalFrame)) == UpTo(cut, k) && CutOk(UpTo(cut, k))
  {
    assert cut.parts[..k] == cut.parts[..k - 1] + [cut.parts[k - 1]];
    JoinMonotone(cut.parts, k);
  }

  lemma FrameMoves(cut: Cut, k: nat, finalFrame: bool, rest: seq<Frame>)
    requires CutOk(cut) && 1 <= k <= |cut.parts|
    ensures (if finalFrame then WholeFrames(UpTo(cut, k)) else OpenFrames(UpTo(cut, k))) + rest
         == OpenPart(OpenBefore(cut, k)) + ([FrameAt(cut, k, finalFrame)] + rest)
  {
    var frame, open := FrameAt(cut, k, finalFrame), OpenBefore(cut, k);
    CutGrows(cut, k, finalFrame);
    GrownFrames(open, frame);
    assert frame.(finalFrame := finalFrame) == frame;
    ConcatAssociative(OpenPart(open), [frame], rest);
  }

  /** What a session under construction does with the `k`-th frame. */
  lemma FrameAccepted(cut: Cut, k: nat, finalFrame: bool, rest: seq<Frame>)
    requires CutOk(cut) && 1 <= k <= |cut.parts|
    ensures var s := RunSession(AsState(OpenBefore(cut, k)), [FrameAt(cut, k, finalFrame)] + rest);
            s == if finalFrame then
                   var later := RunSession(None, rest); later.(delivered := [Whole(UpTo(cut, k))] + later.delivered)
                 else RunSession(AsState(Some(UpTo(cut, k))), rest)
  {
    var frames := [FrameAt(cut, k, finalFrame)] + rest;
    assert frames[1..] == rest;
    CutGrows(cut, k, finalFrame);
    DataStep(OpenBefore(cut, k), frames);
  }

  /** The first `k` frames of a cut leave the session with exactly that much of it under construction. */
  lemma {:induction false} OpenAccepted(cut: Cut, k: nat, rest: seq<Frame>)
    requires CutOk(cut) && 1 <= k <= |cut.parts|
    ensures RunSession(None, OpenFrames(UpTo(cut, k)) + rest) == RunSession(AsState(Some(UpTo(cut, k))), rest)
    decreases k
  {
    var frames := [FrameAt(cut, k, false)] + rest;
    FrameMoves(cut, k, false, rest);
    FrameAccepted(cut, k, false, rest);
    if k == 1 {
      assert [] + frames == frames;
    } else {
      OpenAccepted(cut, k - 1, frames);
    }
  }

  lemma WholeAccepted(cut: Cut, rest: seq<Frame>)
    requires CutOk(cut)
    ensures RunSession(None, WholeFrames(cut) + rest)
            == var later := RunSession(None, rest); later.(delivered := [Whole(cut)] + later.delivered)
  {
    var k := |cut.parts|;
    var frames := [FrameAt(cut, k, true)] + rest;
    assert UpTo(cut, k) == cut;
    FrameMoves(cut, k, true, rest);
    FrameAccepted(cut, k, true, rest);
    if k == 1 {
      assert [] + frames == frames;
    } else {
      OpenAccepted(cut, k - 1, frames);
    }
  }

  lemma OpenOnlyAccepted(open: Option<Cut>)
    requires open.Some? ==> CutOk(open.value)
    ensures RunSession(None, OpenPart(open)) == Session([], [], Live(AsState(open)))
  {
    if open.Some? {
      var k := |open.value.parts|;
      assert UpTo(open.value, k) == open.value;
      OpenAccepted(open.value, k, []);
      assert OpenFrames(open.value) + [] == OpenFrames(open.value);
    }
  }

  lemma {:induction false} DescribedIsAccepted(cuts: seq<Cut>, open: Option<Cut>)
    requires CutsOk(cuts) && (open.Some? ==> CutOk(open.value))
    ensures RunSession(None, AllFrames(cuts) + OpenPart(open)) == Session(Wholes(cuts), [], Live(AsState(open)))
    decreases |cuts|
  {
    if cuts == [] {
      assert AllFrames(cuts) + OpenPart(open) == OpenPart(open);
      OpenOnlyAccepted(open);
    } else {
      DescribedIsAccepted(cuts[1..], open);
      ConcatAssociative(WholeFrames(cuts[0]), AllFrames(cuts[1..]), OpenPart(open));
      WholeAccepted(cuts[0], AllFrames(cuts[1..]) + OpenPart(open));
      assert Wholes(cuts) == [Whole(cuts[0])] + Wholes(cuts[1..]);
    }
  }

  /**
   * Exactly the well-formed sequences are accepted: data frames keep a session alive if and only if
   * they are finished messages followed by at most one unfinished one, none reassembled over the
   * limit; and the session then delivers the concatenated messages with the type of their first frame.
   */
  lemma ReassemblyExact(frames: seq<Frame>)
    requires forall i :: 0 <= i < |frames| ==> frames[i].opcode <= 0x2
    ensures RunSession(None, frames).end.Live? <==> exists cuts, open :: Describes(frames, cuts, open)
    ensures forall cuts, open :: Describes(frames, cuts, open) ==>
              RunSession(None, frames) == Session(Wholes(cuts), [], Live(AsState(open)))
  {
    if RunSession(None, frames).end.Live? {
      AcceptedIsExplained(frames, None);
      assert OpenPart(None) + frames == frames;
      var (cuts, last) := Structure(frames, None);
      assert Describes(frames, cuts, last);
    }
    forall cuts, open | Describes(frames, cuts, open)
      ensures RunSession(None, frames) == Session(Wholes(cuts), [], Live(AsState(open)))
    {
      DescribedIsAccepted(cuts, open);
    }
  }

  // ---- Control frames and limits ----

  predicate PingOrPong(frame: Frame) {
    frame.opcode == 0x9 || frame.opcode == 0xA
  }

  function WithoutPings(frames: seq<Frame>): seq<Frame> {
    if frames == [] then []
    else if PingOrPong(frames[0]) then WithoutPings(frames[1..])
    else [frames[0]] + WithoutPings(frames[1..])
  }

  /** Pings and pongs anywhere between the frames change nothing of what is delivered or how it ends. */
  lemma {:induction false} PingsTransparent(fragmented: Fragmented, frames: seq<Frame>)
    ensures var with, without := RunSession(fragmented, frames), RunSession(fragmented, WithoutPings(frames));
            with.delivered == without.delivered && with.end == without.end
    decreases |frames|
  {
    if frames != [] {
      var frame := frames[0];
      if PingOrPong(frame) {
        PingsTransparent(fragmented, frames[1..]);
      } else {
        assert ([frame] + WithoutPings(frames[1..]))[1..] == WithoutPings(frames[1..]);
        match Queue(fragmented, frame)
        case Ok((next, _)) => PingsTransparent(next, frames[1..]);
        case Err(_) =>
      }
    }
  }

  /** With frames no longer than the limit, neither the construction nor any delivery exceeds it. */
  lemma {:induction false} NeverOverLimit(fragmented: Fragmented, frames: seq<Frame>)
    requires fragmented.Some? ==> |fragmented.value.1| <= MAX_WEBSOCKET_BODY
    requires forall i :: 0 <= i < |frames| ==> |frames[i].payload| <= MAX_WEBSOCKET_BODY
    ensures var s := RunSession(fragmented, frames);
            && (forall i :: 0 <= i < |s.delivered| ==> |s.delivered[i].payload| <= MAX_WEBSOCKET_BODY)
            && (s.end.Live? && s.end.fragmented.Some? ==> |s.end.fragmented.value.1| <= MAX_WEBSOCKET_BODY)
    decreases |frames|
  {
    if frames != [] {
      if PingOrPong(frames[0]) {
        NeverOverLimit(fragmented, frames[1..]);
      } else {
        match Queue(fragmented, frames[0])
        case Ok((next, _)) => NeverOverLimit(next, frames[1..]);
        case Err(_) =>
      }
    }
  }

  // ---- From sender to receiver ----

  /** What `write_frame` puts on the wire for one message after another, each with its own mask. */
  function Wire(messages: seq<Message>, keys: seq<Bytes>): Bytes
    requires |keys| == |messages| && SendsOk(messages, keys)
    decreases |messages|
  {
    if messages == [] then []
    else
      WriteFrame(Opcode(messages[0].binary), messages[0].payload, Some(keys[0])).value
      + Wire(messages[1..], keys[1..])
  }

  predicate SendsOk(messages: seq<Message>, keys: seq<Bytes>)
    requires |keys| == |messages|
  {
    forall i :: 0 <= i < |messages| ==> |keys[i]| == 4 && |messages[i].payload| <= MAX_WEBSOCKET_BODY
  }

  function FramesOf(messages: seq<Message>): seq<Frame> {
    seq(|messages|, i requires 0 <= i < |messages| => Frame(true, Opcode(messages[i].binary), messages[i].payload))
  }

  lemma FirstParses(opcode: bv8, payload: Bytes, key: Bytes, rest: Bytes)
    requires |key| == 4 && (opcode == 0x1 || opcode == 0x2) && |payload| <= MAX_WEBSOCKET_BODY
    ensures WriteFrame(opcode, payload, Some(key)).Ok?
    ensures |WriteFrame(opcode, payload, Some(key)).value| == FrameLength(|payload|)
    ensures var wire := WriteFrame(opcode, payload, Some(key)).value + rest;
            && ParseAll(wire, true)
               == ([Frame(true, opcode, payload)] + ParseAll(rest, true).0, ParseAll(rest, true).1)
            && (Tight(wire, true) <==>
                  (FrameLength(|payload|) <= SAFE_FRAME || |wire| <= BUFFER_LIMIT) && Tight(rest, true))
  {
    FrameRoundTrip(opcode, payload, Some(key), rest);
  }

  /** A masked frame: two bytes, the extended length, the mask and the payload. */
  function FrameLength(payload: nat): nat {
    2 + (if payload <= 125 then 0 else if payload <= 0xFFFF then 2 else 8) + 4 + payload
  }

  function WireLength(messages: seq<Message>): nat {
    if messages == [] then 0 else FrameLength(|messages[0].payload|) + WireLength(messages[1..])
  }

  /** What a sender can check: each frame is short enough, or too little follows it to matter. */
  predicate SentTight(messages: seq<Message>) {
    messages == []
    || ((FrameLength(|messages[0].payload|) <= SAFE_FRAME || WireLength(messages) <= BUFFER_LIMIT)
        && SentTight(messages[1..]))
  }

  lemma FramesOfStep(messages: seq<Message>)
    requires messages != []
    ensures FramesOf(messages)
         == [Frame(true, Opcode(messages[0].binary), messages[0].payload)] + FramesOf(messages[1..])
  {
  }

  lemma {:induction false} WireParses(messages: seq<Message>, keys: seq<Bytes>)
    requires |keys| == |messages| && SendsOk(messages, keys)
    ensures |Wire(messages, keys)| == WireLength(messages)
    ensures Tight(Wire(messages, keys), true) <==> SentTight(messages)
    ensures ParseAll(Wire(messages, keys), true) == (FramesOf(messages), Closed)
    decreases |messages|
  {
    if messages == [] {
      assert FramesOf(messages) == [];
    } else {
      var opcode, payload := Opcode(messages[0].binary), messages[0].payload;
      var rest := Wire(messages[1..], keys[1..]);
      assert SendsOk(messages[1..], keys[1..]) by {
        assert forall i :: 0 <= i < |messages| - 1 ==>
            messages[1..][i] == messages[i + 1] && keys[1..][i] == keys[i + 1];
      }
      WireParses(messages[1..], keys[1..]);
      FirstParses(opcode, payload, keys[0], rest);
      FramesOfStep(messages);
    }
  }

  lemma {:induction false} FinalFramesDeliver(messages: seq<Message>)
    ensures RunSession(None, FramesOf(messages)) == Session(messages, [], Live(None))
    decreases |messages|
  {
    if messages != [] {
      FinalFramesDeliver(messages[1..]);
      assert FramesOf(messages)[1..] == FramesOf(messages[1..]);
      assert messages == [messages[0]] + messages[1..];
    }
  }

  /** On a cut of the wire the receiving session delivers exactly the messages and ends with the stream. */
  ghost predicate Delivers(pieces: seq<Piece>, messages: seq<Message>) {
    var (frames, end) := Drain(Codec([], false, pieces), true);
    end == Closed && RunSession(None, frames) == Session(messages, [], Live(None))
  }

  /**
   * End to end: the messages that are written and masked are delivered on every cut into reads and
   * pauses if and only if each frame is short enough or has too little behind it, which the sender
   * can check on the lengths alone.
   */
  lemma SentIsDelivered(messages: seq<Message>, keys: seq<Bytes>)
    requires |keys| == |messages| && SendsOk(messages, keys)
    ensures SentTight(messages) <==>
            forall pieces :: PiecesOk(pieces) && Arrived(pieces) == Wire(messages, keys) ==> Delivers(pieces, messages)
  {
    var wire := Wire(messages, keys);
    WireParses(messages, keys);
    FinalFramesDeliver(messages);
    if SentTight(messages) {
      forall pieces | PiecesOk(pieces) && Arrived(pieces) == wire
        ensures Delivers(pieces, messages)
      {
        assert [] + Arrived(pieces) == wire;
        SplitIndependent(Codec([], false, pieces), true);
      }
    } else {
      UntightDiffers(wire, true);
      assert !Delivers(UntightCut(wire, true), messages);
    }
  }
}
