/** The bounded channel between the body pump and the response writer, under every interleaving of the two. */
module RelayChannel {
  import opened Wrappers
  import opened Utf8
  import opened ChunkedCoding
  import opened ChunkedRelay

  datatype Item = Chunk(data: Octets) | Failure

  /** The writer waits for chunks, has left its loop, or has looked at the flags and dropped the receiver. */
  datatype Writer = Polling | Leaving | Returned(sawCancelled: bool)

  /** The pump's sends so far and its outcome once it has returned, which drops the sender. */
  datatype Relay = Relay(
    sent: seq<Octets>, outcome: Option<Outcome>, queue: seq<Item>,
    connectionCancelled: bool, responseCancelled: bool, writer: Writer, events: seq<Event>)

  const RESPONSE_STREAM_QUEUE: nat := 8

  const START := Relay([], None, [], false, false, Polling, [])

  datatype Step =
    | Send(chunk: Octets)
    | Finish(outcome: Outcome)
    | Cancel                      // the gateway cancels the connection
    | Receive
    | Poll(peerClosed: bool)      // nothing came for one poll interval
    | Disconnect
    | Leave

  predicate Cancelled(s: Relay) {
    s.connectionCancelled || s.responseCancelled
  }

  predicate HasRoom(s: Relay) {
    s.writer.Returned? || |s.queue| < RESPONSE_STREAM_QUEUE
  }

  /**
   * The pump sends what its buffer holds and blocks while the queue is full. It stops early only
   * because it saw the response's flag raised or a send fail, and sends an error, if somebody is
   * there to receive it, before it returns.
   */
  predicate Enabled(s: Relay, step: Step) {
    match step
    case Send(chunk) => s.outcome.None? && 0 < |chunk| <= PUMP_BUFFER && HasRoom(s)
    case Finish(outcome) =>
      && s.outcome.None?
      && (outcome == Stopped ==> s.responseCancelled || s.writer.Returned?)
      && (outcome.Failed? ==> HasRoom(s))
    case Cancel => true
    case Receive => s.writer.Polling? && s.queue != []
    case Poll(_) => s.writer.Polling? && s.queue == []
    case Disconnect => s.writer.Polling? && s.queue == [] && s.outcome.Some?
    case Leave => s.writer.Leaving?
  }

  function Push(s: Relay, item: Item): Relay {
    if s.writer.Returned? then s else s.(queue := s.queue + [item])
  }

  /** Returning drops the receiver, and with it raises the response's flag. */
  function Return(s: Relay): Relay {
    s.(writer := Returned(Cancelled(s)), responseCancelled := true)
  }

  function Apply(s: Relay, step: Step): Relay
    requires Enabled(s, step)
  {
    match step
    case Send(chunk) =>
      if s.writer.Returned? then s else Push(s, Chunk(chunk)).(sent := s.sent + [chunk])
    case Finish(outcome) => (if outcome.Failed? then Push(s, Failure) else s).(outcome := Some(outcome))
    case Cancel => s.(connectionCancelled := true)
    case Receive =>
      var rest := s.(queue := s.queue[1..]);
      match s.queue[0] {
        case Chunk(data) => rest.(events := s.events + [Produced(data)])
        case Failure => Return(rest.(events := s.events + [ProducerFailed]))
      }
    case Poll(peerClosed) =>
      var next := s.(events := s.events + [Idle(Cancelled(s), peerClosed)]);
      if Cancelled(s) then next.(writer := Leaving) else if peerClosed then Return(next) else next
    case Disconnect => s.(events := s.events + [Closed], writer := Leaving)
    case Leave => Return(s)
  }

  ghost predicate Runs(s: Relay, steps: seq<Step>)
    decreases |steps|
  {
    steps != [] ==> Enabled(s, steps[0]) && Runs(Apply(s, steps[0]), steps[1..])
  }

  ghost function After(s: Relay, steps: seq<Step>): Relay
    requires Runs(s, steps)
    decreases |steps|
  {
    if steps == [] then s else After(Apply(s, steps[0]), steps[1..])
  }

  // ---- What every state keeps ----

  /** The chunks among the items of the queue. */
  function Data(queue: seq<Item>): seq<Octets> {
    if queue == [] then [] else (if queue[0].Chunk? then [queue[0].data] else []) + Data(queue[1..])
  }

  lemma {:induction false} DataSnoc(queue: seq<Item>, item: Item)
    ensures Data(queue + [item]) == Data(queue) + (if item.Chunk? then [item.data] else [])
  {
    if queue == [] {
      assert queue + [item] == [item] && [item][1..] == [];
    } else {
      assert (queue + [item])[0] == queue[0] && (queue + [item])[1..] == queue[1..] + [item];
      DataSnoc(queue[1..], item);
    }
  }

  /** Events that keep the writer waiting. */
  predicate Waiting(events: seq<Event>) {
    forall i :: 0 <= i < |events| ==>
      (events[i].Produced? && events[i].chunk != []) || events[i] == Idle(false, false)
  }

  lemma {:induction false} WrittenSnoc(events: seq<Event>, event: Event)
    requires Waiting(events)
    ensures Written(events + [event]) == Written(events) + Written([event])
    ensures StopOf(events + [event]) == StopOf([event]) && StopOf(events) == None
  {
    if events == [] {
      assert events + [event] == [event];
    } else {
      assert (events + [event])[0] == events[0] && (events + [event])[1..] == events[1..] + [event];
      assert forall i :: 0 <= i < |events| - 1 ==> events[1..][i] == events[i + 1];
      WrittenSnoc(events[1..], event);
    }
  }

  /** An error stands last in the queue, and only the pump's failure puts one there. */
  predicate QueueOk(s: Relay) {
    && (forall i :: 0 <= i < |s.queue| ==> (s.queue[i].Chunk? ==> 0 < |s.queue[i].data| <= PUMP_BUFFER))
    && (forall i :: 0 <= i < |s.queue| && s.queue[i].Failure? ==>
          i == |s.queue| - 1 && s.outcome.Some? && s.outcome.value.Failed?)
    && (s.outcome.Some? && s.outcome.value.Failed? && !s.writer.Returned? ==>
          s.queue != [] && s.queue[|s.queue| - 1].Failure?)
  }

  /** Some poll found the flags raised. */
  predicate SawFlag(events: seq<Event>) {
    events != []
    && (SawFlag(events[..|events| - 1])
        || (events[|events| - 1].Idle? && events[|events| - 1].cancelled))
  }

  lemma SawSnoc(events: seq<Event>, event: Event)
    ensures SawFlag(events + [event]) <==> SawFlag(events) || (event.Idle? && event.cancelled)
  {
    assert (events + [event])[..|events|] == events;
  }

  lemma {:induction false} SawOne(events: seq<Event>, i: nat)
    requires i < |events| && events[i].Idle? && events[i].cancelled
    ensures SawFlag(events)
    decreases |events|
  {
    if i < |events| - 1 {
      SawOne(events[..|events| - 1], i);
    }
  }

  predicate FlagSeen(s: Relay) {
    SawFlag(s.events) ==> s.connectionCancelled
  }

  /** What the writer has met, by where it is. */
  predicate WriterOk(s: Relay) {
    match s.writer
    case Polling => Waiting(s.events)
    case Leaving =>
      var stop := StopOf(s.events);
      (stop == Some(Closed) && s.outcome.Some? && s.outcome.value == Complete && s.queue == [])
      || (s.connectionCancelled && stop.Some? && stop.value.Idle?)
    case Returned(saw) =>
      var stop := StopOf(s.events);
      && stop.Some?
      && (stop == Some(Closed) ==> s.outcome == Some(Complete) && s.queue == [])
      && (stop.value.Idle? && stop.value.cancelled ==> saw)
      && (SawFlag(s.events) ==> saw)
  }

  /** The response's flag is raised by the writer returning and by nothing else. */
  predicate Inv(s: Relay) {
    && s.sent == Written(s.events) + Data(s.queue)
    && QueueOk(s) && Fits(s.events) && FlagSeen(s) && WriterOk(s)
    && (s.responseCancelled ==> s.writer.Returned?)
    && (s.outcome == Some(Stopped) ==> s.writer.Returned?)
  }

  lemma SendInv(s: Relay, chunk: Octets)
    requires Inv(s) && Enabled(s, Send(chunk))
    ensures Inv(Apply(s, Send(chunk)))
  {
    DataSnoc(s.queue, Chunk(chunk));
    SameEnd(Written(s.events), Data(s.queue), chunk);
  }

  lemma SameEnd(written: seq<Octets>, queued: seq<Octets>, chunk: Octets)
    ensures written + queued + [chunk] == written + (queued + [chunk])
  {
  }

  lemma FinishInv(s: Relay, outcome: Outcome)
    requires Inv(s) && Enabled(s, Finish(outcome))
    ensures Inv(Apply(s, Finish(outcome)))
  {
    DataSnoc(s.queue, Failure);
    assert Data(s.queue) + [] == Data(s.queue);
  }

  lemma TakeChunk(written: seq<Octets>, chunk: Octets, rest: seq<Octets>)
    ensures written + ([chunk] + rest) == written + [chunk] + rest
  {
  }

  lemma TailIs(queue: seq<Item>)
    requires queue != []
    ensures forall i :: 0 <= i < |queue| - 1 ==> queue[1..][i] == queue[i + 1]
    ensures queue[1..] != [] ==> queue[1..][|queue| - 2] == queue[|queue| - 1]
  {
  }

  /** Taking the first chunk from the queue leaves an error, if there is one, last. */
  lemma QueueTail(s: Relay)
    requires QueueOk(s) && s.queue != [] && s.queue[0].Chunk?
    ensures QueueOk(s.(queue := s.queue[1..]))
  {
    TailIs(s.queue);
  }

  lemma WrittenOne(data: Octets)
    requires data != []
    ensures Written([Produced(data)]) == [data]
  {
    assert [Produced(data)][1..] == [];
    assert Written([]) == [];
  }

  lemma WaitingMore(events: seq<Event>, data: Octets)
    requires Waiting(events) && Fits(events) && 0 < |data| <= PUMP_BUFFER
    ensures Waiting(events + [Produced(data)]) && Fits(events + [Produced(data)])
  {
    var all := events + [Produced(data)];
    forall i | 0 <= i < |all|
      ensures all[i] == if i < |events| then events[i] else Produced(data)
    {
    }
  }

  lemma ReceiveChunk(s: Relay)
    requires Inv(s) && Enabled(s, Receive) && s.queue[0].Chunk?
    ensures Inv(Apply(s, Receive))
  {
    var data := s.queue[0].data;
    QueueTail(s);
    WaitingMore(s.events, data);
    WrittenSnoc(s.events, Produced(data));
    WrittenOne(data);
    SawSnoc(s.events, Produced(data));
    TakeChunk(Written(s.events), data, Data(s.queue[1..]));
  }

  lemma ReceiveFailure(s: Relay)
    requires Inv(s) && Enabled(s, Receive) && s.queue[0].Failure?
    ensures Inv(Apply(s, Receive))
  {
    WrittenSnoc(s.events, ProducerFailed);
    SawSnoc(s.events, ProducerFailed);
    assert s.queue[1..] == [];
    assert Written(s.events) + [] == Written(s.events);
  }

  /** A poll that finds nothing writes nothing, and stops the writer unless it is quiet. */
  lemma PollWritten(events: seq<Event>, event: Event)
    requires Waiting(events) && event.Idle?
    ensures Written(events + [event]) == Written(events)
    ensures StopOf(events + [event]) == if event == Idle(false, false) then None else Some(event)
    ensures event == Idle(false, false) ==> Waiting(events + [event])
    ensures Fits(events) ==> Fits(events + [event])
  {
    WrittenSnoc(events, event);
    assert Written([event]) == [];
    assert Written(events) + [] == Written(events);
    assert StopOf([event]) == if event == Idle(false, false) then StopOf([event][1..]) else Some(event);
  }

  lemma QuietPoll(s: Relay)
    requires Inv(s) && Enabled(s, Poll(false)) && !Cancelled(s)
    ensures Inv(Apply(s, Poll(false)))
  {
    PollWritten(s.events, Idle(false, false));
    SawSnoc(s.events, Idle(false, false));
  }

  lemma LastPoll(s: Relay, peerClosed: bool)
    requires Inv(s) && Enabled(s, Poll(peerClosed)) && (Cancelled(s) || peerClosed)
    ensures Inv(Apply(s, Poll(peerClosed)))
  {
    PollWritten(s.events, Idle(Cancelled(s), peerClosed));
    SawSnoc(s.events, Idle(Cancelled(s), peerClosed));
  }

  lemma PollInv(s: Relay, peerClosed: bool)
    requires Inv(s) && Enabled(s, Poll(peerClosed))
    ensures Inv(Apply(s, Poll(peerClosed)))
  {
    if Cancelled(s) || peerClosed {
      LastPoll(s, peerClosed);
    } else {
      QuietPoll(s);
    }
  }

  lemma DisconnectInv(s: Relay)
    requires Inv(s) && Enabled(s, Disconnect)
    ensures Inv(Apply(s, Disconnect))
  {
    WrittenSnoc(s.events, Closed);
    SawSnoc(s.events, Closed);
    assert Written(s.events) + [] == Written(s.events);
    assert s.outcome.value == Complete;
  }

  lemma StepInv(s: Relay, step: Step)
    requires Inv(s) && Enabled(s, step)
    ensures Inv(Apply(s, step))
  {
    match step
    case Send(chunk) => SendInv(s, chunk);
    case Finish(outcome) => FinishInv(s, outcome);
    case Cancel =>
    case Receive =>
      if s.queue[0].Chunk? {
        ReceiveChunk(s);
      } else {
        ReceiveFailure(s);
      }
    case Poll(peerClosed) => PollInv(s, peerClosed);
    case Disconnect => DisconnectInv(s);
    case Leave =>
  }

  lemma {:induction false} RunInv(s: Relay, steps: seq<Step>)
    requires Inv(s) && Runs(s, steps)
    ensures Inv(After(s, steps))
    decreases |steps|
  {
    if steps != [] {
      StepInv(s, steps[0]);
      RunInv(Apply(s, steps[0]), steps[1..]);
    }
  }

  // ---- The relay ----

  /** What the writer saw, or would see now, of the flags when it leaves its loop. */
  function AtEnd(s: Relay): bool {
    if s.writer.Returned? then s.writer.sawCancelled else Cancelled(s)
  }

  /**
   * In every reachable state the writer has met the pump's chunks in order, it meets the channel's
   * end only after all of them and a complete body, and a raised flag stays raised.
   */
  lemma ChannelCarries(steps: seq<Step>, outcome: Outcome)
    requires Runs(START, steps)
    requires var s := After(START, steps); s.outcome.Some? ==> outcome == s.outcome.value
    ensures var s := After(START, steps);
            Carried(s.sent, outcome, s.events, AtEnd(s))
            && (EndingOf(s.events, AtEnd(s)) == Terminated ==> s.outcome == Some(Complete))
  {
    assert Data([]) == [] && Written([]) == [];
    RunInv(START, steps);
    StateCarries(After(START, steps), outcome);
    TerminatedIsComplete(After(START, steps));
  }

  lemma StateCarries(s: Relay, outcome: Outcome)
    requires Inv(s) && (s.outcome.Some? ==> outcome == s.outcome.value)
    ensures Carried(s.sent, outcome, s.events, AtEnd(s))
  {
    if i :| 0 <= i < |s.events| && s.events[i].Idle? && s.events[i].cancelled {
      SawOne(s.events, i);
    }
    if s.writer.Polling? {
      NeverStopped(s.events);
    }
  }

  lemma TerminatedIsComplete(s: Relay)
    requires Inv(s)
    ensures EndingOf(s.events, AtEnd(s)) == Terminated ==> s.outcome == Some(Complete)
  {
    StopKind(s.events);
    if s.writer.Polling? {
      NeverStopped(s.events);
    }
  }

  lemma {:induction false} StopKind(events: seq<Event>)
    ensures StopOf(events).Some? ==> !StopOf(events).value.Produced?
  {
    if events != [] {
      StopKind(events[1..]);
    }
  }

  lemma {:induction false} NeverStopped(events: seq<Event>)
    requires Waiting(events)
    ensures StopOf(events) == None
  {
    WrittenSnoc(events, Closed);
  }

  /**
   * The whole relay, with nothing assumed about the channel: the pump's sends and outcome are those
   * of one of its runs over the server's stream, and the two threads interleave in any way. What the
   * client reads is a prefix of what the server sent; a body that looks complete to the client was
   * completed by the server, and has the same bytes.
   */
  lemma RelayDelivers(stream: Octets, steps: seq<Step>, outcome: Outcome, unread: Octets, rest: Octets,
                      limit: Option<nat>)
    requires Runs(START, steps)
    requires var s := After(START, steps);
             Pumped(stream, s.sent, outcome, unread) && (s.outcome.Some? ==> outcome == s.outcome.value)
    ensures var s := After(START, steps);
            var encoded := EncodeChunks(Written(s.events));
            && Concat(Written(s.events)) <= Payload(stream)
            && if EndingOf(s.events, AtEnd(s)) == Terminated then
                 && s.outcome == Some(Complete) && ReadBody(stream, [], None) == Ok((Payload(stream), unread))
                 && ReadBody(encoded + LAST_CHUNK + rest, [], limit)
                    == if Over(|Payload(stream)|, limit) then Err(BodyTooLarge) else Ok((Payload(stream), rest))
               else ReadBody(encoded, [], limit).Err?
  {
    var s := After(START, steps);
    ChannelCarries(steps, outcome);
    RunInv(START, steps) by { assert Data([]) == [] && Written([]) == []; }
    RelayFaithful(stream, s.sent, outcome, unread, s.events, AtEnd(s), rest, limit);
  }

  // ---- Where the writer stops ----

  /**
   * The writer goes on over chunks and quiet polls, and stops at the first other event: at an error
   * and at a peer that is gone at once, and at a raised flag or the channel's end by looking at the
   * flags, which decide whether the end marker is written.
   */
  lemma WriterStops(before: seq<Event>, event: Event, after: seq<Event>, cancelledAtEnd: bool)
    requires Waiting(before) && !event.Produced? && event != Idle(false, false)
    ensures Written(before + [event] + after) == Written(before)
    ensures EndingOf(before, cancelledAtEnd) == ChunkedRelay.Waiting
    ensures EndingOf(before + [event] + after, cancelledAtEnd)
         == if event.ProducerFailed? then ProducerError
            else if event == Idle(false, true) then PeerGone
            else if cancelledAtEnd then Abandoned
            else Terminated
  {
    NeverStopped(before);
    StopsAt(before, event, after);
  }

  lemma {:induction false} StopsAt(before: seq<Event>, event: Event, after: seq<Event>)
    requires Waiting(before) && !event.Produced? && event != Idle(false, false)
    ensures Written(before + [event] + after) == Written(before)
    ensures StopOf(before + [event] + after) == Some(event)
    decreases |before|
  {
    var all := before + [event] + after;
    if before == [] {
      assert all[0] == event;
    } else {
      assert all[0] == before[0] && all[1..] == before[1..] + [event] + after;
      assert forall i :: 0 <= i < |before| - 1 ==> before[1..][i] == before[i + 1];
      StopsAt(before[1..], event, after);
    }
  }
}
