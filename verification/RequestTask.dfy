/**
 The request task: send a request, then read datagrams into one receive buffer
 and process the messages in them until one gives a result.

 The source derives one class per operation from a template. Here the class
 carries the operation as a tag and `ProcessMessage` branches on it.
 */
module RequestTasks {
  import opened Wrappers
  import opened Bytes
  import opened Wire
  import opened Framing
  import opened Events
  import opened Tasks
  import opened Decoders
  import opened NeighborRequests
  import opened Requests

  /** How one asynchronous receive completes. */
  datatype Receive = Datagram(bytes: seq<Byte>) | ReceiveFailed(code: int)

  /** Waiting for more input, finished, or stuck on one frame for ever. */
  datatype Status = Pending | Returned(outcome: Outcome) | Spinning

  datatype Session = Session(learned: seq<Event>, status: Status)

  /** The buffer after a datagram: cut at the capacity, stale behind its end. */
  function Filled(buffer: seq<Byte>, d: seq<Byte>): (r: seq<Byte>)
    ensures |r| == |buffer|
  {
    var n := Min(|d|, |buffer|);
    d[..n] + buffer[n..]
  }

  /** What the inner loop makes of n bytes received into the buffer. */
  function OnReceived(cfg: Config, learned: seq<Event>, buffer: seq<Byte>, n: U32): Session {
    FromCursor(cfg, learned, Cursor(buffer, n))
  }

  function FromCursor(cfg: Config, learned: seq<Event>, c: Cursor): Session {
    var w := WalkFrom(c);
    var p := Run(cfg, learned, Views(w.frames));
    Session(p.learned, if p.outcome.Some? then Returned(p.outcome.value) else if w.hangs then Spinning else Pending)
  }

  /** What read_loop makes of a whole series of receives. */
  function ReadRun(cfg: Config, learned: seq<Event>, buffer: seq<Byte>, receives: seq<Receive>): Session
    decreases |receives|
  {
    if receives == [] then Session(learned, Pending) else
    match receives[0]
    case ReceiveFailed(code) => Session(learned, Returned(Failed(code)))
    case Datagram(d) =>
      var filled := Filled(buffer, d);
      var s := OnReceived(cfg, learned, filled, Min(|d|, |buffer|) % TWO_TO_THE_32);
      if s.status.Pending? then ReadRun(cfg, s.learned, filled, receives[1..]) else s
  }

  /** How one asynchronous send completes: `count` bytes offered to the wire are
      taken, or the send fails. */
  datatype Send = Sent(count: nat) | SendFailed(code: int)

  datatype SendStatus = AllSent | SendPending | SendError(code: int)

  class RequestTask {
    const kind: TaskKind
    const ifindex: U16
    const sequence: U32
    const address: seq<Byte>
    var learned: seq<Event>
    const buffer: array<Byte>
    var wire: seq<Byte>

    /** The address of an operation that names no neighbour is not used. */
    constructor (kind: TaskKind, ifindex: U16, sequence: U32, address: seq<Byte>)
      ensures this.kind == kind && this.ifindex == ifindex && this.sequence == sequence && this.address == address
      ensures learned == [] && wire == []
      ensures fresh(buffer) && buffer.Length == MAX_RESPONSE_BYTES
    {
      this.kind, this.ifindex, this.sequence, this.address := kind, ifindex, sequence, address;
      learned, wire := [], [];
      buffer := new Byte[MAX_RESPONSE_BYTES];
    }

    function Cfg(): Config {
      Config(kind, sequence)
    }

    method HandleDone() returns (r: Outcome)
      requires !kind.IsAck()
      modifies this`learned
      ensures kind == NeighborGet ==> learned == old(learned) && r == Failed(ENOENT)
      ensures kind != NeighborGet ==> learned == [] && r == Rows(old(learned))
    {
      if kind == NeighborGet {
        return Failed(ENOENT);
      }
      r := Rows(learned);
      learned := [];
    }

    method HandleError(m: seq<Byte>) returns (r: Outcome)
      modifies this`learned
      ensures ErrorCode(m) != 0 ==> r == Failed(ErrorCode(m)) && learned == old(learned)
      ensures ErrorCode(m) == 0 ==>
                if kind.IsDump() then r == Rows(old(learned)) && learned == []
                else learned == old(learned) && r == if kind.IsAck() then Acked else Failed(ENOENT)
    {
      hide ErrorCode;
      var code := ErrorCode(m);
      if code != 0 {
        return Failed(code);
      }
      if kind == NeighborGet {
        return Failed(ENOENT);
      }
      if kind == NeighborProbe || kind == NeighborFlush {
        return Acked;
      }
      r := Rows(learned);
      learned := [];
    }

    method DispatchRoute(m: seq<Byte>)
      modifies this`learned
      ensures learned == old(learned) + (match RowOf(RouteDump, m) case Some(row) => [row] case None => [])
    {
      hide MsgType, RouteOf;
      NewTellsType(m);
      var event := RouteFromNlmsghdr(m);
      if event.change != New {
        return;
      }
      if event.table != RT_TABLE_MAIN {
        return;
      }
      if event.oifIndex <= 0 {
        return;
      }
      if event.oifIndex > MAX_IFINDEX {
        return;
      }
      learned := learned + [Route(event)];
    }

    method DispatchAddress(m: seq<Byte>)
      modifies this`learned
      ensures learned == old(learned) + (match RowOf(AddressDump, m) case Some(row) => [row] case None => [])
    {
      hide MsgType, AddressEventOf;
      NewTellsType(m);
      var event := AddressFromNlmsghdr(m);
      if event.change != New {
        return;
      }
      if event.index <= 0 {
        return;
      }
      if event.index > MAX_IFINDEX {
        return;
      }
      learned := learned + [Addr(event)];
    }

    method DispatchLink(m: seq<Byte>)
      modifies this`learned
      ensures learned == old(learned) + (match RowOf(LinkDump, m) case Some(row) => [row] case None => [])
    {
      hide MsgType, LinkOf;
      NewTellsType(m);
      var event := LinkFromNlmsghdr(m);
      if event.change != New {
        return;
      }
      if event.index <= 0 {
        return;
      }
      if event.index > MAX_IFINDEX {
        return;
      }
      learned := learned + [Link(event)];
    }

    method DispatchNeighbor(m: seq<Byte>)
      modifies this`learned
      ensures learned == old(learned) + (match RowOf(NeighborDump, m) case Some(row) => [row] case None => [])
    {
      hide MsgType, NeighborOf;
      NewTellsType(m);
      var event := NeighborFromNlmsghdr(m);
      if event.change != New {
        return;
      }
      if event.index <= 0 {
        return;
      }
      if event.index > MAX_IFINDEX {
        return;
      }
      learned := learned + [Neighbor(event)];
    }

    /** handle_neighbor of a get. */
    method HandleNeighbor(m: seq<Byte>) returns (r: Option<Outcome>)
      ensures r.Some? ==> r == Some(Found(NeighborOf(m))) && NeighborOf(m).lladdr != ""
      ensures MsgType(m) == RTM_NEWNEIGH ==> (r.Some? <==> NeighborIn(m).Some?)
    {
      hide MsgType, NeighborOf;
      var event := NeighborFromNlmsghdr(m);
      if event.change == Unknown {
        return None;
      }
      if event.lladdr != "" {
        return Some(Found(event));
      }
      return None;
    }

    method ProcessMessage(m: seq<Byte>) returns (r: Option<Outcome>)
      modifies this`learned
      ensures Progress(learned, r) == Step(Cfg(), old(learned), m)
    {
      hide U32At, U16At, ErrorCode, EventOf, RouteOf, AddressEventOf, LinkOf, NeighborOf;
      r := None;
      if SeqNo(m) != sequence {
        return;
      }
      var msgType := MsgType(m);
      if msgType == NLMSG_DONE && !kind.IsAck() {
        var done := HandleDone();
        return Some(done);
      }
      if msgType == NLMSG_ERROR {
        var error := HandleError(m);
        return Some(error);
      }
      match kind {
        case RouteDump =>
          if msgType == RTM_NEWROUTE { DispatchRoute(m); }
        case AddressDump =>
          if msgType == RTM_NEWADDR { DispatchAddress(m); }
        case LinkDump =>
          if msgType == RTM_NEWLINK { DispatchLink(m); }
        case NeighborDump =>
          if msgType == RTM_NEWNEIGH { DispatchNeighbor(m); }
        case NeighborGet =>
          if msgType == RTM_NEWNEIGH { r := HandleNeighbor(m); }
        case _ =>
      }
    }

    /** A datagram arrives in the receive buffer. */
    method ReceiveInto(d: seq<Byte>) returns (bytes: nat)
      modifies buffer
      ensures bytes == Min(|d|, buffer.Length)
      ensures buffer[..] == Filled(old(buffer[..]), d)
    {
      bytes := Min(|d|, buffer.Length);
      forall i | 0 <= i < bytes {
        buffer[i] := d[i];
      }
    }

    method ReadLoop(receives: seq<Receive>) returns (status: Status)
      modifies this`learned, buffer
      ensures Session(learned, status) == ReadRun(Cfg(), old(learned), old(buffer[..]), receives)
    {
      hide Filled, Step, OnReceived;
      for i := 0 to |receives|
        invariant ReadRun(Cfg(), old(learned), old(buffer[..]), receives)
               == ReadRun(Cfg(), learned, buffer[..], receives[i..])
      {
        match receives[i] {
          case ReceiveFailed(code) =>
            return Returned(Failed(code));
          case Datagram(d) =>
            var bytes := ReceiveInto(d);
            status := ProcessReceived(bytes);
            if status != Pending {
              return;
            }
            assert receives[i..][1..] == receives[i + 1..];
        }
      }
      status := Pending;
    }

    /** The inner loop of read_loop over the bytes just received. */
    method ProcessReceived(bytes: nat) returns (status: Status)
      modifies this`learned
      ensures Session(learned, status)
           == OnReceived(Cfg(), old(learned), buffer[..], bytes % TWO_TO_THE_32)
    {
      hide U32At, Step, NlmsgAlign;
      var remaining: U32 := bytes % TWO_TO_THE_32;
      var header := buffer[..];
      while HEADER_SIZE <= remaining && NlmsgOk(header, remaining)
        invariant FromCursor(Cfg(), learned, Cursor(header, remaining))
               == OnReceived(Cfg(), old(learned), buffer[..], bytes % TWO_TO_THE_32)
        decreases |header|
      {
        ghost var c := Cursor(header, remaining);
        ghost var before := learned;
        FrameFirst(Cfg(), learned, c);
        var result := ProcessMessage(header);
        if result.Some? {
          return Returned(result.value);
        }
        if NlmsgAlign(U32At(header, 0)) == 0 {
          return Spinning;
        }
        NextIsShorter(c);
        var next := NlmsgNext(Cursor(header, remaining));
        header, remaining := next.view, next.remaining;
      }
      status := Pending;
    }

    /** send_request: `sends` are the completions of the successive sends. */
    method SendRequest(payload: seq<Byte>, sends: seq<Send>) returns (status: SendStatus, offset: nat)
      modifies this`wire
      ensures offset == Min(|payload|, Taken(sends))
      ensures wire == old(wire) + payload[..offset]
      ensures status == AllSent <==> offset == |payload|
      ensures status != AllSent ==> status == FirstFailure(sends)
      ensures forall k: nat | FailsAt(sends, k, |payload|) ::
                status == SendError(sends[k].code) && offset == Accepted(sends[..k])
      ensures NeverFails(sends) ==>
                status == if Accepted(sends) < |payload| then SendPending else AllSent
    {
      forall k: nat | FailsAt(sends, k, |payload|)
        ensures Taken(sends) == Accepted(sends[..k]) && FirstFailure(sends) == SendError(sends[k].code)
      {
        FailureIsReported(sends, k);
      }
      if NeverFails(sends) {
        NoFailureIsReported(sends);
      }
      offset := 0;
      var i := 0;
      while offset < |payload|
        invariant 0 <= i <= |sends| && offset <= |payload|
        invariant wire == old(wire) + payload[..offset]
        invariant offset < |payload| ==> Taken(sends) == offset + Taken(sends[i..])
        invariant offset == |payload| ==> offset <= Taken(sends)
        invariant FirstFailure(sends) == FirstFailure(sends[i..])
        decreases |sends| - i
      {
        if i == |sends| {
          return SendPending, offset;
        }
        assert sends[i..][1..] == sends[i + 1..];
        match sends[i] {
          case SendFailed(code) =>
            return SendError(code), offset;
          case Sent(count) =>
            var sent := Min(count, |payload| - offset);
            wire := wire + payload[offset..offset + sent];
            assert payload[..offset] + payload[offset..offset + sent] == payload[..offset + sent];
            offset := offset + sent;
        }
        i := i + 1;
      }
      status := AllSent;
    }

    /** async_run: the operation's own request is sent, and nothing is read unless
        all of it went out. */
    method AsyncRun(sends: seq<Send>, receives: seq<Receive>) returns (status: Status)
      requires |address| == ADDRESS_BYTES
      modifies this, buffer
      ensures RequestFor(kind, ifindex, sequence, address).Valid()
      ensures var payload := RequestFor(kind, ifindex, sequence, address).Encode();
              && var offset := Min(|payload|, Taken(sends));
              && wire == old(wire) + payload[..offset]
              && (offset < |payload| ==>
                    && learned == old(learned) && buffer[..] == old(buffer[..])
                    && status == match FirstFailure(sends)
                                 case SendError(code) => Returned(Failed(code))
                                 case _ => Pending)
              && (offset == |payload| ==>
                    Session(learned, status) == ReadRun(Cfg(), old(learned), old(buffer[..]), receives))
              && (forall k: nat | FailsAt(sends, k, |payload|) ::
                    status == Returned(Failed(sends[k].code))
                    && wire == old(wire) + payload[..Accepted(sends[..k])])
    {
      hide RequestFor, ReadRun, Taken, FirstFailure;
      var payload := PrepareRequest(kind, ifindex, sequence, address);
      var sendStatus, offset := SendRequest(payload, sends);
      match sendStatus {
        case SendError(code) =>
          status := Returned(Failed(code));
        case SendPending =>
          status := Pending;
        case AllSent =>
          status := ReadLoop(receives);
      }
    }
  }

  /** The bytes that successful sends take in total. */
  function Accepted(sends: seq<Send>): nat {
    if sends == [] then 0 else Accepted(sends[1..]) + (if sends[0].Sent? then sends[0].count else 0)
  }

  predicate NeverFails(sends: seq<Send>) {
    forall s | s in sends :: s.Sent?
  }

  /** Send k is the first to fail, and the sends before it take less than size. */
  predicate FailsAt(sends: seq<Send>, k: nat, size: nat) {
    k < |sends| && sends[k].SendFailed? && NeverFails(sends[..k]) && Accepted(sends[..k]) < size
  }

  lemma {:induction false} FailureIsReported(sends: seq<Send>, k: nat)
    requires k < |sends| && sends[k].SendFailed? && NeverFails(sends[..k])
    ensures Taken(sends) == Accepted(sends[..k]) && FirstFailure(sends) == SendError(sends[k].code)
    decreases |sends|
  {
    if k > 0 {
      assert sends[..k][0] in sends[..k] && sends[..k][1..] == sends[1..][..k - 1];
      FailureIsReported(sends[1..], k - 1);
    }
  }

  lemma {:induction false} NoFailureIsReported(sends: seq<Send>)
    requires NeverFails(sends)
    ensures Taken(sends) == Accepted(sends) && FirstFailure(sends) == SendPending
    decreases |sends|
  {
    if sends != [] {
      NoFailureIsReported(sends[1..]);
    }
  }

  /** Any completions that fall short of the request, then a failure with any code
      and anything after it: the code is what the request reports, and the bytes
      taken before are what it sent. */
  lemma {:induction false} FailureAfterPartialSends(counts: seq<nat>, code: int, after: seq<Send>, size: nat)
    requires Total(counts) < size
    ensures FailsAt(AllOf(counts) + [SendFailed(code)] + after, |counts|, size)
    ensures Accepted((AllOf(counts) + [SendFailed(code)] + after)[..|counts|]) == Total(counts)
  {
    var sends := AllOf(counts) + [SendFailed(code)] + after;
    assert sends[..|counts|] == AllOf(counts);
    TotalIsAccepted(counts);
  }

  function Total(counts: seq<nat>): nat {
    if counts == [] then 0 else counts[0] + Total(counts[1..])
  }

  function AllOf(counts: seq<nat>): (sends: seq<Send>)
    ensures |sends| == |counts|
  {
    seq(|counts|, i requires 0 <= i < |counts| => Sent(counts[i]))
  }

  lemma {:induction false} TotalIsAccepted(counts: seq<nat>)
    ensures Accepted(AllOf(counts)) == Total(counts)
    decreases |counts|
  {
    if counts != [] {
      assert AllOf(counts)[1..] == AllOf(counts[1..]);
      TotalIsAccepted(counts[1..]);
    }
  }

  /** Sends that each take at least one byte always suffice: as many of them as
      the payload has bytes complete it, and none can fail. */
  lemma {:induction false} PositiveSendsComplete(sends: seq<Send>)
    requires forall s | s in sends :: s.Sent? && s.count >= 1
    ensures |sends| <= Taken(sends) && FirstFailure(sends) == SendPending
    decreases |sends|
  {
    if sends != [] {
      PositiveSendsComplete(sends[1..]);
    }
  }

  /** Only a NEW message decodes to a new event. */
  lemma NewTellsType(m: seq<Byte>)
    ensures RouteOf(m).change == New ==> MsgType(m) == RTM_NEWROUTE
    ensures AddressEventOf(m).change == New ==> MsgType(m) == RTM_NEWADDR
    ensures LinkOf(m).change == New ==> MsgType(m) == RTM_NEWLINK
    ensures NeighborOf(m).change == New ==> MsgType(m) == RTM_NEWNEIGH
  {
    hide U32At, U16At, Slice, LastAddress, LastU32, LastString, LastHwAddr, FirstName, Text.Decimal, Attributes.Attrs;
  }

  /** The bytes that the sends before the first failure take in total. */
  function Taken(sends: seq<Send>): nat {
    if sends == [] || sends[0].SendFailed? then 0 else sends[0].count + Taken(sends[1..])
  }

  function FirstFailure(sends: seq<Send>): SendStatus {
    if sends == [] then SendPending
    else if sends[0].SendFailed? then SendError(sends[0].code)
    else FirstFailure(sends[1..])
  }

  /** The walk from a state that passes the guard processes its first frame. */
  lemma FrameFirst(cfg: Config, learned: seq<Event>, c: Cursor)
    requires NlmsgOk(c.view, c.remaining)
    ensures var p := Step(cfg, learned, c.view);
            FromCursor(cfg, learned, c)
            == if p.outcome.Some? then Session(p.learned, Returned(p.outcome.value))
               else if NlmsgAlign(U32At(c.view, 0)) == 0 then Session(p.learned, Spinning)
               else FromCursor(cfg, p.learned, NlmsgNext(c))
  {
    hide U32At, Step, NlmsgAlign;
    var w := WalkFrom(c);
    if NlmsgAlign(U32At(c.view, 0)) == 0 {
      var p := Step(cfg, learned, c.view);
      assert w == Walk([c], c, true) && Views(w.frames) == [c.view] && [c.view][1..] == [];
      assert Run(cfg, p.learned, []) == Progress(p.learned, None);
    } else {
      var rest := WalkFrom(NlmsgNext(c));
      assert Views(w.frames)[1..] == Views(rest.frames);
    }
  }

  lemma NextIsShorter(c: Cursor)
    requires NlmsgOk(c.view, c.remaining) && NlmsgAlign(U32At(c.view, 0)) != 0
    ensures |NlmsgNext(c).view| < |c.view|
  {
  }
}
