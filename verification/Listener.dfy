/**
 The listener: one receive buffer, a running flag, a read that is re-armed after
 each completion, and signals that are emitted for each qualifying message.

 A slot may call stop(). Which emissions have such a slot is the function
 `stops` on the position of an emission in the listener's whole history.
 */
module Listeners {
  import opened Wrappers
  import opened Bytes
  import opened Wire
  import opened Framing
  import opened Attributes
  import opened Messages
  import opened Events
  import opened EventLaws
  import opened Decoders
  import opened RequestTasks
  import opened Refinement

  /** One emission: which signal, and what it carries. */
  datatype Emission =
    | LinkSignal(link: LinkEvent)
    | AddressSignal(address: AddressEvent)
    | RouteSignal(route: RouteEvent)
    | NeighborSignal(neighbor: NeighborEvent)
    | ErrorSignal(code: int, request: Header, header: Header)

  /** How an asynchronous read completes. */
  datatype Completion = Received(bytes: seq<Byte>) | Aborted | Errored

  datatype ListenerStep = Start(opens: bool) | StopCall | ReadDone(completion: Completion)

  /** `outstanding` counts reads armed and not yet completed. */
  datatype ListenerState = ListenerState(
    running: bool, outstanding: nat, buffer: seq<Byte>, emitted: seq<Emission>, spinning: bool)

  /** The table of handlers: the payload each message type needs. */
  function HandlerSize(msgType: U16): Option<nat> {
    if msgType == NLMSG_ERROR then Some(ERROR_SIZE) else FixedSize(msgType)
  }

  /** has_payload, with both of its tests. */
  predicate HasPayload(m: seq<Byte>, minLen: nat) {
    HEADER_SIZE + minLen <= U32At(m, 0) && minLen <= U32At(m, 0) - HEADER_SIZE
  }

  /** The message has a handler and is long enough for it. */
  predicate Qualifies(m: seq<Byte>) {
    match HandlerSize(MsgType(m))
    case None => false
    case Some(size) => HEADER_SIZE + size <= U32At(m, 0)
  }

  /** The emission that a qualifying message causes. */
  function EmissionOf(m: seq<Byte>): Emission
    requires Qualifies(m)
  {
    match EventOf(m)
    case Link(e) => LinkSignal(e)
    case Addr(e) => AddressSignal(e)
    case Route(e) => RouteSignal(e)
    case Neighbor(e) => NeighborSignal(e)
    case NoEvent => ErrorSignal(I32At(m, HEADER_SIZE), HeaderAt(From(m, HEADER_SIZE + 4)), HeaderAt(m))
  }

  /** The emissions of a stream: one for each qualifying message, in order. */
  function Emissions(msgs: seq<seq<Byte>>): seq<Emission> {
    if msgs == [] then []
    else if Qualifies(msgs[0]) then [EmissionOf(msgs[0])] + Emissions(msgs[1..])
    else Emissions(msgs[1..])
  }

  /** Some slot that calls stop() ran during emissions number from up to to. */
  predicate StoppedBetween(stops: nat -> bool, from: nat, to: nat) {
    exists k: nat | from <= k < to :: stops(k)
  }

  /** What one step does to the listener. */
  function Next(stops: nat -> bool, s: ListenerState, step: ListenerStep): ListenerState {
    match step
    case Start(opens) =>
      if s.running || !opens then s else s.(running := true, outstanding := s.outstanding + 1)
    case StopCall =>
      s.(running := false)
    case ReadDone(completion) =>
      var done := if s.outstanding == 0 then s else s.(outstanding := s.outstanding - 1);
      match completion
      case Aborted => done
      case Errored => if s.running then done.(outstanding := done.outstanding + 1) else done
      case Received(d) =>
        var filled := Filled(s.buffer, d);
        if !s.running then done.(buffer := filled) else
        var w := WalkFrom(Cursor(filled, Min(|d|, |s.buffer|) % TWO_TO_THE_32));
        var emitted := s.emitted + Emissions(Views(w.frames));
        var running := !StoppedBetween(stops, |s.emitted|, |emitted|);
        done.(buffer := filled, emitted := emitted, running := running, spinning := s.spinning || w.hangs,
              outstanding := done.outstanding + if running && !w.hangs then 1 else 0)
  }

  class Listener {
    const stops: nat -> bool
    const buffer: array<Byte>
    var running: bool
    var outstanding: nat
    var emitted: seq<Emission>
    var spinning: bool

    constructor (stops: nat -> bool)
      ensures this.stops == stops && fresh(buffer) && buffer.Length == LISTENER_BUFFER_SIZE
      ensures State() == ListenerState(false, 0, Zeros(LISTENER_BUFFER_SIZE), [], false)
    {
      this.stops := stops;
      buffer := new Byte[LISTENER_BUFFER_SIZE];
      running, outstanding, emitted, spinning := false, 0, [], false;
      new;
      forall i | 0 <= i < LISTENER_BUFFER_SIZE {
        buffer[i] := 0;
      }
      assert buffer[..] == Zeros(LISTENER_BUFFER_SIZE);
    }

    function State(): ListenerState
      reads this, buffer
    {
      ListenerState(running, outstanding, buffer[..], emitted, spinning)
    }

    method Start(opens: bool)
      modifies this`running, this`outstanding
      ensures State() == Next(stops, old(State()), ListenerStep.Start(opens))
    {
      if running {
        return;
      }
      if !opens {
        return;
      }
      running := true;
      RequestRead();
    }

    /** stop() cancels the armed read; its handler still runs, later. */
    method Stop()
      modifies this`running
      ensures State() == Next(stops, old(State()), StopCall)
    {
      if !running {
        return;
      }
      running := false;
    }

    method RequestRead()
      modifies this`outstanding
      ensures outstanding == old(outstanding) + if running then 1 else 0
    {
      if !running {
        return;
      }
      outstanding := outstanding + 1;
    }

    /** A read completes: its bytes are in the buffer and its handler runs. */
    method HandleRead(completion: Completion)
      requires outstanding > 0
      modifies this, buffer
      ensures State() == Next(stops, old(State()), ReadDone(completion))
    {
      hide WalkFrom, Emissions;
      outstanding := outstanding - 1;
      var bytes := 0;
      if completion.Received? {
        var d := completion.bytes;
        bytes := Min(|d|, buffer.Length);
        forall i | 0 <= i < bytes {
          buffer[i] := d[i];
        }
        assert buffer[..] == Filled(old(buffer[..]), d);
      } else {
        assert buffer[..] == old(buffer[..]);
      }
      if !running {
        return;
      }
      if completion.Aborted? {
        return;
      }
      if completion.Errored? {
        RequestRead();
        return;
      }
      ProcessMessages(bytes);
    }

    method ProcessMessages(bytes: nat)
      modifies this`running, this`outstanding, this`emitted, this`spinning
      ensures var w := WalkFrom(Cursor(buffer[..], bytes % TWO_TO_THE_32));
              && emitted == old(emitted) + Emissions(Views(w.frames))
              && running == (old(running) && !StoppedBetween(stops, |old(emitted)|, |emitted|))
              && spinning == (old(spinning) || w.hangs)
              && outstanding == old(outstanding) + if running && !w.hangs then 1 else 0
    {
      hide U32At, NlmsgAlign, NlmsgNext, WalkFrom, Emissions, Qualifies, EmissionOf, StoppedBetween;
      NeverStopped(stops, |emitted|);
      var remaining: U32 := bytes % TWO_TO_THE_32;
      var header := buffer[..];
      ghost var start := Cursor(header, remaining);
      while HEADER_SIZE <= remaining && NlmsgOk(header, remaining)
        invariant emitted + Emissions(Views(WalkFrom(Cursor(header, remaining)).frames))
               == old(emitted) + Emissions(Views(WalkFrom(start).frames))
        invariant WalkFrom(Cursor(header, remaining)).hangs == WalkFrom(start).hangs
        invariant |old(emitted)| <= |emitted|
        invariant running == (old(running) && !StoppedBetween(stops, |old(emitted)|, |emitted|))
        invariant outstanding == old(outstanding) && spinning == old(spinning)
        decreases |header|
      {
        ghost var c := Cursor(header, remaining);
        FirstEmission(c);
        ghost var before := |emitted|;
        HandleMessage(header);
        StoppedSplits(stops, |old(emitted)|, before, |emitted|);
        if NlmsgAlign(U32At(header, 0)) == 0 {
          spinning := true;
          return;
        }
        NextIsShorter(c);
        var next := NlmsgNext(Cursor(header, remaining));
        header, remaining := next.view, next.remaining;
      }
      NoMoreEmissions(Cursor(header, remaining));
      RequestRead();
    }

    /** A signal runs its slots, one of which may call stop(). */
    method Emit(e: Emission)
      modifies this`running, this`emitted
      ensures emitted == old(emitted) + [e]
      ensures running == (old(running) && !stops(|old(emitted)|))
    {
      emitted := emitted + [e];
      if stops(|emitted| - 1) {
        Stop();
      }
    }

    method HandleMessage(m: seq<Byte>)
      modifies this`running, this`emitted
      ensures emitted == old(emitted) + if Qualifies(m) then [EmissionOf(m)] else []
      ensures running == (old(running) && !StoppedBetween(stops, |old(emitted)|, |emitted|))
    {
      hide U32At, U16At, LinkFrom, AddressFrom, RouteFrom, NeighborFrom, Attrs;
      var msgType := MsgType(m);
      var handler := HandlerSize(msgType);
      if handler == None {
        return;
      }
      if handler.value > 0 && !HasPayload(m, handler.value) {
        return;
      }
      HandlerGetsItsEvent(m);
      if msgType == NLMSG_ERROR {
        Emit(ErrorSignal(I32At(m, HEADER_SIZE), HeaderAt(From(m, HEADER_SIZE + 4)), HeaderAt(m)));
      } else if msgType == RTM_NEWLINK || msgType == RTM_DELLINK {
        var event := LinkFromNlmsghdr(m);
        if event.change == Unknown {
          return;
        }
        Emit(LinkSignal(event));
      } else if msgType == RTM_NEWADDR || msgType == RTM_DELADDR {
        var event := AddressFromNlmsghdr(m);
        if event.change == Unknown {
          return;
        }
        Emit(AddressSignal(event));
      } else if msgType == RTM_NEWROUTE || msgType == RTM_DELROUTE {
        var event := RouteFromNlmsghdr(m);
        if event.change == Unknown {
          return;
        }
        Emit(RouteSignal(event));
      } else {
        var event := NeighborFromNlmsghdr(m);
        if event.change == Unknown {
          return;
        }
        Emit(NeighborSignal(event));
      }
    }
  }

  lemma NeverStopped(stops: nat -> bool, n: nat)
    ensures !StoppedBetween(stops, n, n)
  {
  }

  lemma StoppedSplits(stops: nat -> bool, a: nat, b: nat, c: nat)
    requires a <= b <= c
    ensures StoppedBetween(stops, a, c) <==> StoppedBetween(stops, a, b) || StoppedBetween(stops, b, c)
  {
  }

  /** What qualifies, in numbers: links from 32 bytes, addresses from 24, routes and
      neighbours from 28, error messages from 36. */
  lemma {:induction false} QualifiesInNumbers(m: seq<Byte>)
    ensures Qualifies(m) <==>
              || (MsgType(m) in {16, 17} && 32 <= U32At(m, 0))
              || (MsgType(m) in {20, 21} && 24 <= U32At(m, 0))
              || (MsgType(m) in {24, 25, 28, 29} && 28 <= U32At(m, 0))
              || (MsgType(m) == 2 && 36 <= U32At(m, 0))
  {
    hide U32At, U16At;
  }

  function ChangeIn(e: Event): Change {
    match e
    case Link(x) => x.change
    case Addr(x) => x.change
    case Route(x) => x.change
    case Neighbor(x) => x.change
    case NoEvent => Unknown
  }

  /** has_payload makes the decoders' own length test redundant: a message that
      passes it never decodes to an unknown event, and goes to its own signal. */
  lemma HandlerGetsItsEvent(m: seq<Byte>)
    requires HandlerSize(MsgType(m)).Some? && HasPayload(m, HandlerSize(MsgType(m)).value)
    ensures Qualifies(m)
    ensures MsgType(m) == NLMSG_ERROR <==> EventOf(m) == NoEvent
    ensures MsgType(m) != NLMSG_ERROR ==> ChangeIn(EventOf(m)) != Unknown
    ensures MsgType(m) in {RTM_NEWLINK, RTM_DELLINK} <==> EventOf(m).Link?
    ensures MsgType(m) in {RTM_NEWADDR, RTM_DELADDR} <==> EventOf(m).Addr?
    ensures MsgType(m) in {RTM_NEWROUTE, RTM_DELROUTE} <==> EventOf(m).Route?
    ensures MsgType(m) in {RTM_NEWNEIGH, RTM_DELNEIGH} <==> EventOf(m).Neighbor?
  {
    hide U32At, U16At, Attrs;
  }

  lemma FirstEmission(c: Cursor)
    requires NlmsgOk(c.view, c.remaining)
    ensures var first := if Qualifies(c.view) then [EmissionOf(c.view)] else [];
            var w := WalkFrom(c);
            if NlmsgAlign(U32At(c.view, 0)) == 0 then w.hangs && Emissions(Views(w.frames)) == first
            else
              && w.hangs == WalkFrom(NlmsgNext(c)).hangs
              && Emissions(Views(w.frames)) == first + Emissions(Views(WalkFrom(NlmsgNext(c)).frames))
  {
    hide U32At, NlmsgAlign, Qualifies, EmissionOf;
    var w := WalkFrom(c);
    if NlmsgAlign(U32At(c.view, 0)) == 0 {
      assert Views(w.frames) == [c.view] && [c.view][1..] == [];
    } else {
      assert Views(w.frames)[1..] == Views(WalkFrom(NlmsgNext(c)).frames);
    }
  }

  lemma NoMoreEmissions(c: Cursor)
    requires !NlmsgOk(c.view, c.remaining)
    ensures Emissions(Views(WalkFrom(c).frames)) == [] && !WalkFrom(c).hangs
  {
    hide U32At;
    assert Views(WalkFrom(c).frames) == [];
  }

  /** The steps that may happen: a read completes only when one is armed, a
      cancelled one only after stop(); a stopped listener is started again only
      once its last read has completed. */
  predicate Enabled(s: ListenerState, step: ListenerStep) {
    match step
    case Start(_) => !s.spinning && (s.running || s.outstanding == 0)
    case StopCall => true
    case ReadDone(completion) => !s.spinning && s.outstanding > 0 && (completion.Aborted? ==> !s.running)
  }

  function RunListener(stops: nat -> bool, s: ListenerState, steps: seq<ListenerStep>): ListenerState
    decreases |steps|
  {
    if steps == [] then s else RunListener(stops, Next(stops, s, steps[0]), steps[1..])
  }

  predicate AllEnabled(stops: nat -> bool, s: ListenerState, steps: seq<ListenerStep>)
    decreases |steps|
  {
    steps != [] ==> Enabled(s, steps[0]) && AllEnabled(stops, Next(stops, s, steps[0]), steps[1..])
  }

  /** Exactly one read is armed while running (unless the handler is stuck),
      and never more than one. */
  predicate ReadDiscipline(s: ListenerState) {
    && s.outstanding <= 1
    && (s.running && !s.spinning ==> s.outstanding == 1)
    && (s.spinning ==> s.outstanding == 0)
  }

  lemma StepKeepsReadDiscipline(stops: nat -> bool, s: ListenerState, step: ListenerStep)
    requires ReadDiscipline(s) && Enabled(s, step)
    ensures ReadDiscipline(Next(stops, s, step))
  {
    hide WalkFrom, Emissions, StoppedBetween, Filled;
  }

  /** In every reachable state. */
  lemma {:induction false} ReadDisciplineOverRuns(stops: nat -> bool, s: ListenerState, steps: seq<ListenerStep>)
    requires ReadDiscipline(s) && AllEnabled(stops, s, steps)
    ensures ReadDiscipline(RunListener(stops, s, steps))
    decreases |steps|
  {
    if steps != [] {
      hide ReadDiscipline, Enabled, Next;
      StepKeepsReadDiscipline(stops, s, steps[0]);
      ReadDisciplineOverRuns(stops, Next(stops, s, steps[0]), steps[1..]);
    }
  }

  /** A step that starts the listener. */
  predicate Opens(step: ListenerStep) {
    step == Start(true)
  }

  /** Once stopped, until a start whose socket opens: no read is armed, nothing is
      emitted, and the read that was armed is gone as soon as it completes. */
  lemma {:induction false} QuietAfterStop(stops: nat -> bool, s: ListenerState, steps: seq<ListenerStep>)
    requires !s.running && forall step | step in steps :: !Opens(step)
    ensures var t := RunListener(stops, s, steps);
            && !t.running && t.outstanding <= s.outstanding && t.emitted == s.emitted
            && (s.outstanding <= 1 && (exists step | step in steps :: step.ReadDone?) ==> t.outstanding == 0)
    decreases |steps|
  {
    if steps != [] {
      assert steps == [steps[0]] + steps[1..];
      assert !Opens(steps[0]);
      QuietAfterStop(stops, Next(stops, s, steps[0]), steps[1..]);
    }
  }

  /** A stop by a slot in the middle of a datagram, over the whole rest of the run:
      the datagram is still delivered to its end, then nothing more is read or
      emitted until the next start. */
  lemma {:induction false} StopInSlot(stops: nat -> bool, s: ListenerState, d: seq<Byte>, k: nat,
                                      later: seq<ListenerStep>)
    requires s.running && s.outstanding == 1
    requires |s.emitted| <= k < |Next(stops, s, ReadDone(Received(d))).emitted| && stops(k)
    requires forall step | step in later :: !Opens(step)
    ensures var filled := Filled(s.buffer, d);
            var t := RunListener(stops, s, [ReadDone(Received(d))] + later);
            && !t.running && t.outstanding == 0
            && t.emitted == s.emitted
               + Emissions(Views(WalkFrom(Cursor(filled, Min(|d|, |s.buffer|) % TWO_TO_THE_32)).frames))
  {
    hide WalkFrom, Emissions, Filled;
    var step, t := ReadDone(Received(d)), Next(stops, s, ReadDone(Received(d)));
    assert StoppedBetween(stops, |s.emitted|, |t.emitted|);
    assert ([step] + later)[1..] == later;
    QuietAfterStop(stops, t, later);
  }

  /** The frames of the reads whose handler began while running, as views. */
  function HeardViews(stops: nat -> bool, s: ListenerState, steps: seq<ListenerStep>): seq<seq<Byte>>
    decreases |steps|
  {
    if steps == [] then [] else
    var later := HeardViews(stops, Next(stops, s, steps[0]), steps[1..]);
    if steps[0].ReadDone? && steps[0].completion.Received? && s.running then
      var d := steps[0].completion.bytes;
      Views(WalkFrom(Cursor(Filled(s.buffer, d), Min(|d|, |s.buffer|) % TWO_TO_THE_32)).frames) + later
    else later
  }

  /** What keeps a listener running over one step. */
  lemma StepKeepsRunning(stops: nat -> bool, s: ListenerState, step: ListenerStep)
    requires s.running && !step.StopCall?
    ensures var t := Next(stops, s, step);
            && |s.emitted| <= |t.emitted|
            && t.running == !StoppedBetween(stops, |s.emitted|, |t.emitted|)
  {
    hide WalkFrom, Emissions, Filled;
  }

  lemma EmissionsGrow(stops: nat -> bool, s: ListenerState, steps: seq<ListenerStep>)
    ensures |s.emitted| <= |RunListener(stops, s, steps).emitted|
  {
    DeliveryConservation(stops, s, steps);
  }

  /** Only a stop stops a running listener: over a run without a start it is running
      at the end exactly when no step is a stop() and no slot that calls stop() was
      among the emissions made. Errors and datagrams of any bytes never do. */
  lemma {:induction false} RunningUnlessStopped(stops: nat -> bool, s: ListenerState, steps: seq<ListenerStep>)
    requires s.running && forall step | step in steps :: !step.Start?
    ensures var t := RunListener(stops, s, steps);
            t.running <==> StopCall !in steps && !StoppedBetween(stops, |s.emitted|, |t.emitted|)
    decreases |steps|
  {
    hide Next, StoppedBetween;
    NeverStopped(stops, |s.emitted|);
    if steps != [] {
      var t, later := Next(stops, s, steps[0]), steps[1..];
      assert steps == [steps[0]] + later;
      EmissionsGrow(stops, t, later);
      if steps[0] == StopCall {
        StopStops(stops, s);
        QuietAfterStop(stops, t, later);
      } else {
        assert steps[0] in steps;
        StepKeepsRunning(stops, s, steps[0]);
        StoppedSplits(stops, |s.emitted|, |t.emitted|, |RunListener(stops, t, later).emitted|);
        if t.running {
          RunningUnlessStopped(stops, t, later);
        } else {
          QuietAfterStop(stops, t, later);
        }
      }
    }
  }

  lemma StopStops(stops: nat -> bool, s: ListenerState)
    ensures Next(stops, s, StopCall) == s.(running := false)
  {
  }

  lemma StepEmits(stops: nat -> bool, s: ListenerState, step: ListenerStep)
    ensures Next(stops, s, step).emitted == s.emitted + Emissions(HeardViews(stops, s, [step]))
  {
    hide WalkFrom, Emissions, StoppedBetween, Filled;
    NoMessagesNoEmissions();
    assert [step][1..] == [];
    assert HeardViews(stops, Next(stops, s, step), []) == [];
    if step.ReadDone? && step.completion.Received? && s.running {
      var d := step.completion.bytes;
      var views := Views(WalkFrom(Cursor(Filled(s.buffer, d), Min(|d|, |s.buffer|) % TWO_TO_THE_32)).frames);
      assert views + [] == views;
    }
  }

  lemma HeardSplits(stops: nat -> bool, s: ListenerState, steps: seq<ListenerStep>)
    requires steps != []
    ensures HeardViews(stops, s, steps)
            == HeardViews(stops, s, [steps[0]]) + HeardViews(stops, Next(stops, s, steps[0]), steps[1..])
  {
    hide WalkFrom, Next, Filled;
    assert [steps[0]][1..] == [];
    assert HeardViews(stops, Next(stops, s, steps[0]), []) == [];
  }

  /** Conservation over whole runs, for arbitrary bytes, slots and steps: what all
      signals emitted together is, in order, one emission for each qualifying frame
      of the reads handled while running, and nothing else. */
  lemma {:induction false} DeliveryConservation(stops: nat -> bool, s: ListenerState, steps: seq<ListenerStep>)
    ensures RunListener(stops, s, steps).emitted == s.emitted + Emissions(HeardViews(stops, s, steps))
    decreases |steps|
  {
    hide Next, Emissions;
    NoMessagesNoEmissions();
    if steps == [] {
      assert s.emitted + [] == s.emitted;
    } else {
      var t := Next(stops, s, steps[0]);
      StepEmits(stops, s, steps[0]);
      DeliveryConservation(stops, t, steps[1..]);
      HeardSplits(stops, s, steps);
      var now, later := HeardViews(stops, s, [steps[0]]), HeardViews(stops, t, steps[1..]);
      EmissionsAppend(now, later);
      assert s.emitted + Emissions(now) + Emissions(later) == s.emitted + (Emissions(now) + Emissions(later));
    }
  }

  /** The messages of the reads whose handler began while running. Each packet is
      cut at the buffer's capacity. */
  function Heard(stops: nat -> bool, s: ListenerState, steps: seq<ListenerStep>, packets: seq<Packet>): seq<seq<Byte>>
    decreases |steps|
  {
    if steps == [] then []
    else if steps[0].ReadDone? && steps[0].completion.Received? && packets != [] then
      (if s.running then Fitting(packets[0], |s.buffer|) else [])
      + Heard(stops, Next(stops, s, steps[0]), steps[1..], packets[1..])
    else Heard(stops, Next(stops, s, steps[0]), steps[1..], packets)
  }

  /** The successful reads of a run carry these packets, in order. */
  predicate Carries(steps: seq<ListenerStep>, packets: seq<Packet>) {
    if steps == [] then packets == []
    else if steps[0].ReadDone? && steps[0].completion.Received? then
      packets != [] && steps[0].completion.bytes == Pack(packets[0]) && Carries(steps[1..], packets[1..])
    else Carries(steps[1..], packets)
  }

  /** Whole messages whose events lie inside them. Of other messages, error
      messages of any length among them, nothing more is asked. */
  predicate Audible(p: Packet) {
    forall m | m in p :: Framed(m) && EventInside(m)
  }

  lemma EmissionIsLocal(m: seq<Byte>, t: seq<Byte>)
    requires Framed(m) && EventInside(m)
    ensures Qualifies(m + t) == Qualifies(m)
    ensures Qualifies(m) ==> EmissionOf(m + t) == EmissionOf(m)
  {
    hide U32At, U16At, EventOf, FixedSize, HeaderAt, EventInside;
    EventIsLocal(m, t);
    ReadsInside(m, t, 0);
    if Qualifies(m) {
      QualifiedSize(m);
      if EventOf(m) == NoEvent {
        ReadsInside(m, t, HEADER_SIZE);
        HeaderInside(m, t);
        FromAppend(m, t, HEADER_SIZE + 4);
        HeaderInside(From(m, HEADER_SIZE + 4), t);
      }
    }
  }

  lemma QualifiedSize(m: seq<Byte>)
    requires Qualifies(m)
    ensures EventOf(m) == NoEvent ==> HEADER_SIZE + ERROR_SIZE <= U32At(m, 0)
  {
    hide U32At, U16At, Attrs;
  }

  lemma {:induction false} EmissionsAreLocal(views: seq<seq<Byte>>, msgs: seq<seq<Byte>>)
    requires ViewsOf(views, msgs) && Audible(msgs)
    ensures Emissions(views) == Emissions(msgs)
    decreases |msgs|
  {
    hide Qualifies, EmissionOf, Framed, EventInside;
    if msgs != [] {
      var t := views[0][|msgs[0]|..];
      assert views[0] == msgs[0] + t;
      EmissionIsLocal(msgs[0], t);
      EmissionsAreLocal(views[1..], msgs[1..]);
    }
  }

  lemma {:induction false} EmissionsAppend(a: seq<seq<Byte>>, b: seq<seq<Byte>>)
    ensures Emissions(a + b) == Emissions(a) + Emissions(b)
    decreases |a|
  {
    hide Qualifies, EmissionOf;
    if a == [] {
      assert a + b == b;
    } else {
      assert (a + b)[1..] == a[1..] + b;
      EmissionsAppend(a[1..], b);
    }
  }

  lemma {:induction false} ReadDelivers(buffer: seq<Byte>, p: Packet)
    requires GoodBuffer(buffer) && Audible(p)
    ensures var d := Pack(p);
            var w := WalkFrom(Cursor(Filled(buffer, d), Min(|d|, |buffer|) % TWO_TO_THE_32));
            !w.hangs && Emissions(Views(w.frames)) == Emissions(Fitting(p, |buffer|))
  {
    hide WalkFrom, Pack, Fitting, Emissions, EventInside, Framed;
    var n := Min(|Pack(p)|, |buffer|);
    TruncatedWalk(p, n, buffer[n..]);
    if |Pack(p)| <= |buffer| {
      EverythingFits(p, |Pack(p)|);
      EverythingFits(p, |buffer|);
    }
    FittingIsMaximal(p, |buffer|);
    assert forall m | m in Fitting(p, |buffer|) :: m in p;
    EmissionsAreLocal(Views(WalkFrom(Cursor(Filled(buffer, Pack(p)), n)).frames), Fitting(p, |buffer|));
  }

  /** When the reads carry packed messages, the frames heard are those messages, as
      far as the buffer takes them, and the handler never gets stuck. */
  lemma {:induction false} PacketsAreHeard(stops: nat -> bool, s: ListenerState, steps: seq<ListenerStep>,
                                           packets: seq<Packet>)
    requires GoodBuffer(s.buffer) && Carries(steps, packets) && forall p | p in packets :: Audible(p)
    ensures Emissions(HeardViews(stops, s, steps)) == Emissions(Heard(stops, s, steps, packets))
    ensures RunListener(stops, s, steps).spinning == s.spinning
    decreases |steps|
  {
    hide Next, Emissions, Fitting, Audible, Pack, WalkFrom, Filled;
    if steps != [] {
      var t := Next(stops, s, steps[0]);
      StepKeepsBuffer(stops, s, steps[0]);
      HeardSplits(stops, s, steps);
      EmissionsAppend(HeardViews(stops, s, [steps[0]]), HeardViews(stops, t, steps[1..]));
      assert [steps[0]][1..] == [] && HeardViews(stops, t, []) == [];
      NoMessagesNoEmissions();
      if steps[0].ReadDone? && steps[0].completion.Received? {
        var p := packets[0];
        ReadDelivers(s.buffer, p);
        PacketsAreHeard(stops, t, steps[1..], packets[1..]);
        var now := if s.running then Fitting(p, |s.buffer|) else [];
        EmissionsAppend(now, Heard(stops, t, steps[1..], packets[1..]));
        var views := HeardViews(stops, s, [steps[0]]);
        assert Emissions(views) == Emissions(now) by {
          if s.running {
            var d := Pack(p);
            var w := WalkFrom(Cursor(Filled(s.buffer, d), Min(|d|, |s.buffer|) % TWO_TO_THE_32));
            assert views == Views(w.frames) + [] == Views(w.frames);
          }
        }
      } else {
        PacketsAreHeard(stops, t, steps[1..], packets);
      }
    }
  }

  /** Uninterrupted, a listener hears everything: over a run without start or stop, by
      call or by slot, the messages heard are those of all packets read, as far as
      the buffer takes them, whatever errors come between. */
  lemma {:induction false} EverythingIsHeard(stops: nat -> bool, s: ListenerState, steps: seq<ListenerStep>,
                                             packets: seq<Packet>)
    requires s.running && Carries(steps, packets)
    requires forall step | step in steps :: !step.Start? && !step.StopCall?
    requires !StoppedBetween(stops, |s.emitted|, |RunListener(stops, s, steps).emitted|)
    ensures Heard(stops, s, steps, packets) == Delivered(packets, |s.buffer|)
    decreases |steps|
  {
    hide Next, StoppedBetween, Fitting, Pack;
    if steps != [] {
      assert steps[0] in steps;
      var t, later := Next(stops, s, steps[0]), steps[1..];
      StepKeepsBuffer(stops, s, steps[0]);
      StepKeepsRunning(stops, s, steps[0]);
      EmissionsGrow(stops, t, later);
      StoppedSplits(stops, |s.emitted|, |t.emitted|, |RunListener(stops, t, later).emitted|);
      if steps[0].ReadDone? && steps[0].completion.Received? {
        EverythingIsHeard(stops, t, later, packets[1..]);
      } else {
        EverythingIsHeard(stops, t, later, packets);
      }
    }
  }

  /** A listener between a start and a stop, told without its steps: after any mix
      of read errors and packed datagrams it is running with exactly one read
      armed, and what it emitted is one emission for each qualifying message that
      fits the buffer, in order. */
  lemma {:induction false} UninterruptedRun(stops: nat -> bool, s: ListenerState, steps: seq<ListenerStep>,
                                            packets: seq<Packet>)
    requires s.running && !s.spinning && s.outstanding == 1 && GoodBuffer(s.buffer)
    requires AllEnabled(stops, s, steps) && Carries(steps, packets) && forall p | p in packets :: Audible(p)
    requires forall step | step in steps :: !step.Start? && !step.StopCall?
    requires !StoppedBetween(stops, |s.emitted|, |s.emitted| + |Emissions(Delivered(packets, |s.buffer|))|)
    ensures var t := RunListener(stops, s, steps);
            && t.running && t.outstanding == 1 && !t.spinning
            && t.emitted == s.emitted + Emissions(Delivered(packets, |s.buffer|))
    decreases |steps|
  {
    hide Next, StoppedBetween, Fitting, Pack, Audible, Emissions, Enabled;
    if steps != [] {
      assert steps[0] in steps;
      var t, later := Next(stops, s, steps[0]), steps[1..];
      StepKeepsBuffer(stops, s, steps[0]);
      StepKeepsRunning(stops, s, steps[0]);
      StepKeepsReadDiscipline(stops, s, steps[0]);
      StepEmits(stops, s, steps[0]);
      HeardOfStep(stops, s, steps[0]);
      if steps[0].ReadDone? && steps[0].completion.Received? {
        var p, rest := packets[0], Delivered(packets[1..], |s.buffer|);
        ReadDelivers(s.buffer, p);
        EmissionsAppend(Fitting(p, |s.buffer|), rest);
        StoppedSplits(stops, |s.emitted|, |t.emitted|, |t.emitted| + |Emissions(rest)|);
        UninterruptedRun(stops, t, later, packets[1..]);
        assert t.emitted + Emissions(rest)
            == s.emitted + (Emissions(Fitting(p, |s.buffer|)) + Emissions(rest));
      } else {
        NoMessagesNoEmissions();
        NeverStopped(stops, |s.emitted|);
        assert t.emitted == s.emitted;
        UninterruptedRun(stops, t, later, packets);
      }
    } else {
      NoMessagesNoEmissions();
    }
  }

  /** The same from an idle listener on: a start whose socket opens, then errors and
      datagrams in any order. */
  lemma {:induction false} StartedListenerHearsEverything(stops: nat -> bool, s: ListenerState,
                                                          later: seq<ListenerStep>, packets: seq<Packet>)
    requires !s.running && !s.spinning && s.outstanding == 0 && GoodBuffer(s.buffer)
    requires AllEnabled(stops, s, [Start(true)] + later) && Carries(later, packets)
    requires forall p | p in packets :: Audible(p)
    requires forall step | step in later :: !step.Start? && !step.StopCall?
    requires !StoppedBetween(stops, |s.emitted|, |s.emitted| + |Emissions(Delivered(packets, |s.buffer|))|)
    ensures var t := RunListener(stops, s, [Start(true)] + later);
            && t.running && t.outstanding == 1 && !t.spinning
            && t.emitted == s.emitted + Emissions(Delivered(packets, |s.buffer|))
  {
    hide StoppedBetween, Audible, Emissions, Enabled;
    assert ([Start(true)] + later)[1..] == later;
    var t := Next(stops, s, Start(true));
    assert t == s.(running := true, outstanding := 1);
    UninterruptedRun(stops, t, later, packets);
  }

  /** What one step hears of a running listener. */
  lemma HeardOfStep(stops: nat -> bool, s: ListenerState, step: ListenerStep)
    requires s.running
    ensures step.ReadDone? && step.completion.Received? ==>
              var d := step.completion.bytes;
              HeardViews(stops, s, [step])
              == Views(WalkFrom(Cursor(Filled(s.buffer, d), Min(|d|, |s.buffer|) % TWO_TO_THE_32)).frames)
    ensures !(step.ReadDone? && step.completion.Received?) ==> HeardViews(stops, s, [step]) == []
  {
    hide WalkFrom, Filled, Next;
    assert [step][1..] == [];
    assert HeardViews(stops, Next(stops, s, step), []) == [];
  }

  lemma StepKeepsBuffer(stops: nat -> bool, s: ListenerState, step: ListenerStep)
    ensures var t := Next(stops, s, step);
            && |t.buffer| == |s.buffer|
            && (step.ReadDone? && step.completion.Received? ==>
                  var d := step.completion.bytes;
                  var w := WalkFrom(Cursor(Filled(s.buffer, d), Min(|d|, |s.buffer|) % TWO_TO_THE_32));
                  !w.hangs ==> t.spinning == s.spinning)
            && (!(step.ReadDone? && step.completion.Received?) ==> t.spinning == s.spinning)
  {
    hide WalkFrom, Emissions, StoppedBetween, Filled;
  }

  lemma NoMessagesNoEmissions()
    ensures Emissions([]) == []
  {
  }

  datatype Signal = OnLink | OnAddress | OnRoute | OnNeighbor | OnError

  function SignalOf(e: Emission): Signal {
    match e
    case LinkSignal(_) => OnLink
    case AddressSignal(_) => OnAddress
    case RouteSignal(_) => OnRoute
    case NeighborSignal(_) => OnNeighbor
    case ErrorSignal(_, _, _) => OnError
  }

  /** The signal that a message type belongs to. */
  function SignalFor(msgType: U16): Option<Signal> {
    if msgType in {RTM_NEWLINK, RTM_DELLINK} then Some(OnLink)
    else if msgType in {RTM_NEWADDR, RTM_DELADDR} then Some(OnAddress)
    else if msgType in {RTM_NEWROUTE, RTM_DELROUTE} then Some(OnRoute)
    else if msgType in {RTM_NEWNEIGH, RTM_DELNEIGH} then Some(OnNeighbor)
    else if msgType == NLMSG_ERROR then Some(OnError)
    else None
  }

  /** What one signal emits. */
  function On(signal: Signal, emitted: seq<Emission>): seq<Emission> {
    if emitted == [] then []
    else if SignalOf(emitted[0]) == signal then [emitted[0]] + On(signal, emitted[1..])
    else On(signal, emitted[1..])
  }

  /** The messages of a stream that belong to a signal. */
  function MessagesFor(signal: Signal, msgs: seq<seq<Byte>>): seq<seq<Byte>> {
    if msgs == [] then []
    else if SignalFor(MsgType(msgs[0])) == Some(signal) then [msgs[0]] + MessagesFor(signal, msgs[1..])
    else MessagesFor(signal, msgs[1..])
  }

  lemma SignalMatches(m: seq<Byte>)
    requires Qualifies(m)
    ensures SignalFor(MsgType(m)) == Some(SignalOf(EmissionOf(m)))
  {
    hide U32At, U16At, Attrs, LinkFrom, AddressFrom, RouteFrom, NeighborFrom;
  }

  /** Each signal emits exactly for the messages of its own types: splitting the
      emissions by signal is splitting the messages by type. */
  lemma {:induction false} EachSignalHearsItsMessages(signal: Signal, msgs: seq<seq<Byte>>)
    ensures On(signal, Emissions(msgs)) == Emissions(MessagesFor(signal, msgs))
    decreases |msgs|
  {
    hide Qualifies, EmissionOf, SignalFor, SignalOf, MsgType;
    if msgs != [] {
      var m, rest := msgs[0], msgs[1..];
      EachSignalHearsItsMessages(signal, rest);
      if Qualifies(m) {
        SignalMatches(m);
        assert ([EmissionOf(m)] + Emissions(rest))[1..] == Emissions(rest);
      }
      assert ([m] + MessagesFor(signal, rest))[1..] == MessagesFor(signal, rest);
    }
  }

  lemma {:induction false} OnAppend(signal: Signal, a: seq<Emission>, b: seq<Emission>)
    ensures On(signal, a + b) == On(signal, a) + On(signal, b)
    decreases |a|
  {
    hide SignalOf;
    if a == [] {
      assert a + b == b;
    } else {
      assert (a + b)[1..] == a[1..] + b;
      OnAppend(signal, a[1..], b);
    }
  }

  /** Conservation signal by signal, for arbitrary bytes: over a whole run each
      signal emits, in order, exactly what the frames of its types among those
      heard cause. */
  lemma {:induction false} SignalConservation(stops: nat -> bool, s: ListenerState, steps: seq<ListenerStep>,
                                              signal: Signal)
    ensures On(signal, RunListener(stops, s, steps).emitted)
            == On(signal, s.emitted) + Emissions(MessagesFor(signal, HeardViews(stops, s, steps)))
  {
    hide RunListener, HeardViews, Emissions, On;
    DeliveryConservation(stops, s, steps);
    var heard := HeardViews(stops, s, steps);
    OnAppend(signal, s.emitted, Emissions(heard));
    EachSignalHearsItsMessages(signal, heard);
  }

  /** And for reads that carry packed messages, told from the messages alone: no
      stale byte of the buffer reaches a subscriber. */
  lemma {:induction false} SignalsOfPackets(stops: nat -> bool, s: ListenerState, steps: seq<ListenerStep>,
                                            packets: seq<Packet>, signal: Signal)
    requires GoodBuffer(s.buffer) && Carries(steps, packets) && forall p | p in packets :: Audible(p)
    ensures On(signal, RunListener(stops, s, steps).emitted)
            == On(signal, s.emitted) + Emissions(MessagesFor(signal, Heard(stops, s, steps, packets)))
  {
    hide RunListener, HeardViews, Heard, Carries, Audible, Emissions, On;
    DeliveryConservation(stops, s, steps);
    PacketsAreHeard(stops, s, steps, packets);
    var heard := Heard(stops, s, steps, packets);
    OnAppend(signal, s.emitted, Emissions(heard));
    EachSignalHearsItsMessages(signal, heard);
  }

  /** What a message announces, told from its parts. */
  function Announced(msg: Message): Option<Emission> {
    match EventFrom(msg.msgType, msg.fixed, msg.attrs)
    case Link(e) => Some(LinkSignal(e))
    case Addr(e) => Some(AddressSignal(e))
    case Route(e) => Some(RouteSignal(e))
    case Neighbor(e) => Some(NeighborSignal(e))
    case NoEvent =>
      if msg.msgType == NLMSG_ERROR && msg.Valid() && ERROR_SIZE <= |msg.fixed|
      then Some(ErrorSignal(I32At(msg.fixed, 0), HeaderAt(From(msg.fixed, 4)), msg.Header())) else None
  }

  function Announcements(messages: seq<Message>): seq<Emission> {
    if messages == [] then []
    else if Announced(messages[0]).Some? then [Announced(messages[0]).value] + Announcements(messages[1..])
    else Announcements(messages[1..])
  }

  /** Sound for a listener: an error message carries its whole fixed part. */
  predicate SoundForListener(msg: Message) {
    Sound(msg) && (msg.msgType == NLMSG_ERROR ==> ERROR_SIZE <= |msg.fixed|)
  }

  predicate AllAnnounced(messages: seq<Message>)
    ensures AllAnnounced(messages) ==> forall x | x in messages :: x.Valid()
  {
    forall x | x in messages :: SoundForListener(x)
  }

  lemma {:induction false} SoundMessageIsAnnounced(msg: Message)
    requires SoundForListener(msg)
    ensures var m := msg.Encode();
            && Qualifies(m) == Announced(msg).Some?
            && (Qualifies(m) ==> EmissionOf(m) == Announced(msg).value)
  {
    hide U32At, U16At, LinkFrom, AddressFrom, RouteFrom, NeighborFrom, Contained, EventOf, HeaderAt;
    var m := msg.Encode();
    ValidMessageReads(msg);
    SoundMessageReads(msg);
    ParseEncoded(msg, []);
    assert m + [] == m;
    if msg.msgType == NLMSG_ERROR {
      ErrorParts(msg);
    }
  }

  lemma ErrorParts(msg: Message)
    requires msg.Valid() && ERROR_SIZE <= |msg.fixed|
    ensures I32At(msg.Encode(), HEADER_SIZE) == I32At(msg.fixed, 0)
    ensures HeaderAt(From(msg.Encode(), HEADER_SIZE + 4)) == HeaderAt(From(msg.fixed, 4))
  {
    hide U32At, EncodeHeader, EncodeAttrs, HeaderAt;
    var h, body := EncodeHeader(msg.Header()), EncodeAttrs(msg.attrs);
    assert msg.Encode() == h + (msg.fixed + body);
    ReadsAfter(h, msg.fixed + body, 0);
    ReadsInside(msg.fixed, body, 0);
    assert From(msg.Encode(), HEADER_SIZE + 4) == From(msg.fixed, 4) + body;
    HeaderInside(From(msg.fixed, 4), body);
  }

  /** From the kernel's messages to the subscribers: the emissions of encoded
      messages are, in order, what the messages announce. */
  lemma {:induction false} EncodedMessagesAreAnnounced(messages: seq<Message>)
    requires AllAnnounced(messages)
    ensures Emissions(EncodeAll(messages)) == Announcements(messages)
    decreases |messages|
  {
    hide Announced, Qualifies, EmissionOf, Sound;
    if messages != [] {
      assert EncodeAll(messages)[1..] == EncodeAll(messages[1..]);
      SoundMessageIsAnnounced(messages[0]);
      EncodedMessagesAreAnnounced(messages[1..]);
    }
  }
}
