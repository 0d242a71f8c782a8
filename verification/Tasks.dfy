/**
 What a request task makes of one message, of a stream of messages, and what a
 declarative scan of the whole stream says it should make.
 */
module Tasks {
  import opened Wrappers
  import opened Bytes
  import opened Wire
  import opened Attributes
  import opened Messages
  import opened Text
  import opened Events
  import opened EventLaws

  datatype TaskKind =
    | RouteDump | AddressDump | LinkDump | NeighborDump
    | NeighborGet | NeighborProbe | NeighborFlush
  {
    predicate IsDump() {
      RouteDump? || AddressDump? || LinkDump? || NeighborDump?
    }

    predicate IsNeighbor() {
      NeighborDump? || NeighborGet? || IsAck()
    }

    predicate IsAck() {
      NeighborProbe? || NeighborFlush?
    }
  }

  /** The message type whose event an operation decodes. */
  function EventType(kind: TaskKind): Option<U16> {
    match kind
    case RouteDump => Some(RTM_NEWROUTE)
    case AddressDump => Some(RTM_NEWADDR)
    case LinkDump => Some(RTM_NEWLINK)
    case NeighborDump => Some(RTM_NEWNEIGH)
    case NeighborGet => Some(RTM_NEWNEIGH)
    case _ => None
  }

  /** What distinguishes one task from another: its class and its sequence. */
  datatype Config = Config(kind: TaskKind, sequence: U32)

  datatype Outcome = Rows(rows: seq<Event>) | Found(neighbor: NeighborEvent) | Acked | Failed(code: int)

  /** learned_ and the optional result after some messages. */
  datatype Progress = Progress(learned: seq<Event>, outcome: Option<Outcome>)

  function SeqNo(m: seq<Byte>): U32 {
    U32At(m, 8)
  }

  /** The error number an NLMSG_ERROR carries, with the sign errno uses. The
      message length is not consulted. */
  function ErrorCode(m: seq<Byte>): int {
    -I32At(m, HEADER_SIZE)
  }

  const MAX_IFINDEX := 0xFFFF

  /** The row that a NEW message adds to a dump, if it passes the filter. */
  function RowOf(kind: TaskKind, m: seq<Byte>): Option<Event> {
    match kind
    case RouteDump =>
      var e := RouteOf(m);
      if MsgType(m) == RTM_NEWROUTE && e.change == New && e.table == RT_TABLE_MAIN && 0 < e.oifIndex <= MAX_IFINDEX
      then Some(Route(e)) else None
    case AddressDump =>
      var e := AddressEventOf(m);
      if MsgType(m) == RTM_NEWADDR && e.change == New && 0 < e.index <= MAX_IFINDEX
      then Some(Addr(e)) else None
    case LinkDump =>
      var e := LinkOf(m);
      if MsgType(m) == RTM_NEWLINK && e.change == New && 0 < e.index <= MAX_IFINDEX
      then Some(Link(e)) else None
    case NeighborDump =>
      var e := NeighborOf(m);
      if MsgType(m) == RTM_NEWNEIGH && e.change == New && 0 < e.index <= MAX_IFINDEX
      then Some(Neighbor(e)) else None
    case _ => None
  }

  /** The neighbour that a get accepts: any entry with a hardware address. */
  function NeighborIn(m: seq<Byte>): Option<NeighborEvent> {
    var e := NeighborOf(m);
    if MsgType(m) == RTM_NEWNEIGH && e.change != Unknown && e.lladdr != "" then Some(e) else None
  }

  /** The request takes the message for its own. */
  predicate Mine(cfg: Config, m: seq<Byte>) {
    SeqNo(m) == cfg.sequence
  }

  /** A whole message of which a request reads only bytes of its own. Of a message
      with another sequence number it reads no more than the header; of its own,
      the error number of an error and the event of its type. */
  predicate Legible(cfg: Config, m: seq<Byte>) {
    && Framed(m)
    && (Mine(cfg, m) ==>
          && (MsgType(m) == NLMSG_ERROR ==> HEADER_SIZE + 4 <= |m|)
          && (Some(MsgType(m)) == EventType(cfg.kind) ==> EventInside(m)))
  }

  /** A neighbour entry with a hardware address: its last NDA_LLADDR has a
      payload. */
  predicate HasHwAddr(m: seq<Byte>) {
    && MsgType(m) == RTM_NEWNEIGH
    && HasFixed(m, NEIGHBOR_SIZE)
    && var a := LastOf(Attrs(m, NEIGHBOR_SIZE), NDA_LLADDR);
       a.Some? && a.value.payload != []
  }

  /** The message ends the request. */
  predicate Closes(cfg: Config, m: seq<Byte>) {
    && Mine(cfg, m)
    && (|| MsgType(m) == NLMSG_ERROR
        || (MsgType(m) == NLMSG_DONE && !cfg.kind.IsAck())
        || (cfg.kind == NeighborGet && NeighborIn(m).Some?))
  }

  /** The rows of a stream: its own messages' rows that pass, in order. */
  function RowsIn(cfg: Config, msgs: seq<seq<Byte>>): seq<Event> {
    if msgs == [] then [] else
    var rest := RowsIn(cfg, msgs[1..]);
    if Mine(cfg, msgs[0]) && RowOf(cfg.kind, msgs[0]).Some?
    then [RowOf(cfg.kind, msgs[0]).value] + rest else rest
  }

  /** What the closing message m makes of the rows before it. */
  function Verdict(cfg: Config, rows: seq<Event>, m: seq<Byte>): Outcome
    requires Closes(cfg, m)
  {
    if MsgType(m) == NLMSG_ERROR && ErrorCode(m) != 0 then Failed(ErrorCode(m))
    else if cfg.kind.IsAck() then Acked
    else if cfg.kind == NeighborGet then
      if NeighborIn(m).Some? then Found(NeighborIn(m).value) else Failed(ENOENT)
    else Rows(rows)
  }

  /** process_message on one message, given what was learned before it. */
  function Step(cfg: Config, learned: seq<Event>, m: seq<Byte>): Progress {
    if SeqNo(m) != cfg.sequence then Progress(learned, None)
    else if MsgType(m) == NLMSG_ERROR then
      if ErrorCode(m) != 0 then Progress(learned, Some(Failed(ErrorCode(m))))
      else if cfg.kind.IsAck() then Progress(learned, Some(Acked))
      else if cfg.kind == NeighborGet then Progress(learned, Some(Failed(ENOENT)))
      else Progress([], Some(Rows(learned)))
    else if cfg.kind.IsAck() then Progress(learned, None)
    else if MsgType(m) == NLMSG_DONE then
      if cfg.kind == NeighborGet then Progress(learned, Some(Failed(ENOENT)))
      else Progress([], Some(Rows(learned)))
    else if cfg.kind == NeighborGet then
      if NeighborIn(m).Some? then Progress(learned, Some(Found(NeighborIn(m).value)))
      else Progress(learned, None)
    else if RowOf(cfg.kind, m).Some? then Progress(learned + [RowOf(cfg.kind, m).value], None)
    else Progress(learned, None)
  }

  /** Messages are processed one by one until one gives a result. */
  function Run(cfg: Config, learned: seq<Event>, msgs: seq<seq<Byte>>): Progress
    decreases |msgs|
  {
    if msgs == [] then Progress(learned, None) else
    var p := Step(cfg, learned, msgs[0]);
    if p.outcome.Some? then p else Run(cfg, p.learned, msgs[1..])
  }

  /** The position of the first message that ends the request. */
  function Closing(cfg: Config, msgs: seq<seq<Byte>>): (k: nat)
    ensures k <= |msgs|
    ensures k < |msgs| ==> Closes(cfg, msgs[k])
    ensures forall i | 0 <= i < k :: !Closes(cfg, msgs[i])
  {
    if msgs == [] || Closes(cfg, msgs[0]) then 0 else 1 + Closing(cfg, msgs[1..])
  }

  /** The declarative result: look at the first closing message, and at the rows
      before it; without a closing message the request is still pending. */
  function Scan(cfg: Config, msgs: seq<seq<Byte>>): Option<Outcome> {
    var k := Closing(cfg, msgs);
    if k == |msgs| then None else Some(Verdict(cfg, RowsIn(cfg, msgs[..k]), msgs[k]))
  }

  lemma StepAgrees(cfg: Config, learned: seq<Event>, m: seq<Byte>)
    ensures var p := Step(cfg, learned, m);
            if Closes(cfg, m) then p.outcome == Some(Verdict(cfg, learned, m))
            else p == Progress(learned + RowsIn(cfg, [m]), None)
  {
    hide MsgType, SeqNo, ErrorCode, RouteOf, LinkOf, AddressEventOf, NeighborOf;
    RowsOfOne(cfg, m);
    RowHasItsType(cfg.kind, m);
  }

  lemma RowsOfOne(cfg: Config, m: seq<Byte>)
    ensures RowsIn(cfg, [m])
            == if Mine(cfg, m) && RowOf(cfg.kind, m).Some? then [RowOf(cfg.kind, m).value] else []
  {
    hide RowOf, Mine;
    assert [m][1..] == [];
  }

  lemma RowHasItsType(kind: TaskKind, m: seq<Byte>)
    ensures RowOf(kind, m).Some? ==> MsgType(m) != NLMSG_ERROR && MsgType(m) != NLMSG_DONE
    ensures RowOf(kind, m).Some? ==> kind.IsDump()
    ensures NeighborIn(m).Some? ==> MsgType(m) != NLMSG_ERROR && MsgType(m) != NLMSG_DONE
  {
    hide MsgType, RouteOf, LinkOf, AddressEventOf, NeighborOf;
  }

  lemma {:induction false} RowsInAppend(cfg: Config, a: seq<seq<Byte>>, b: seq<seq<Byte>>)
    ensures RowsIn(cfg, a + b) == RowsIn(cfg, a) + RowsIn(cfg, b)
    decreases |a|
  {
    hide RowOf, Mine;
    if a == [] {
      assert a + b == b;
    } else {
      assert (a + b)[1..] == a[1..] + b;
      RowsInAppend(cfg, a[1..], b);
    }
  }

  /** RowsIn is all and only the own rows that pass. */
  lemma {:induction false} RowsAreAllAndOnly(cfg: Config, msgs: seq<seq<Byte>>, row: Event)
    ensures row in RowsIn(cfg, msgs) <==>
            exists i | 0 <= i < |msgs| :: Mine(cfg, msgs[i]) && RowOf(cfg.kind, msgs[i]) == Some(row)
    decreases |msgs|
  {
    hide RowOf, Mine;
    if msgs != [] {
      RowsAreAllAndOnly(cfg, msgs[1..], row);
      assert forall i | 0 <= i < |msgs| - 1 :: msgs[1..][i] == msgs[i + 1];
      if i :| 0 <= i < |msgs| && Mine(cfg, msgs[i]) && RowOf(cfg.kind, msgs[i]) == Some(row) {
        if i > 0 {
          assert msgs[1..][i - 1] == msgs[i];
        }
      }
    }
  }

  /** The incremental run is the declarative scan. */
  lemma {:induction false} RunIsScan(cfg: Config, learned: seq<Event>, msgs: seq<seq<Byte>>)
    ensures var k := Closing(cfg, msgs);
            var rows := learned + RowsIn(cfg, msgs[..k]);
            if k == |msgs| then Run(cfg, learned, msgs) == Progress(rows, None)
            else Run(cfg, learned, msgs).outcome == Some(Verdict(cfg, rows, msgs[k]))
    decreases |msgs|
  {
    hide Step, Closes, Verdict, RowOf, Mine;
    if msgs != [] {
      StepAgrees(cfg, learned, msgs[0]);
      if Closes(cfg, msgs[0]) {
        assert learned + RowsIn(cfg, msgs[..0]) == learned;
      } else {
        var more := learned + RowsIn(cfg, [msgs[0]]);
        RunIsScan(cfg, more, msgs[1..]);
        var k := Closing(cfg, msgs);
        assert msgs[..k] == [msgs[0]] + msgs[1..][..k - 1];
        RowsInAppend(cfg, [msgs[0]], msgs[1..][..k - 1]);
        assert more + RowsIn(cfg, msgs[1..][..k - 1]) == learned + RowsIn(cfg, msgs[..k]);
      }
    }
  }

  /** A fresh task gives exactly what the scan gives. */
  lemma {:induction false} FreshRunIsScan(cfg: Config, msgs: seq<seq<Byte>>)
    ensures Run(cfg, [], msgs).outcome == Scan(cfg, msgs)
  {
    hide Run, Verdict, RowsIn, Closes;
    RunIsScan(cfg, [], msgs);
    var rows := RowsIn(cfg, msgs[..Closing(cfg, msgs)]);
    assert [] + rows == rows;
  }

  /** Messages that end a dump. */
  predicate EndsDump(cfg: Config, m: seq<Byte>) {
    Mine(cfg, m) && MsgType(m) in {NLMSG_DONE, NLMSG_ERROR}
  }

  /** A dump, spelled out: the first own DONE or ERROR decides. DONE and error
      zero give the earlier rows, any other error gives its code and no rows. */
  lemma {:induction false} DumpResult(cfg: Config, msgs: seq<seq<Byte>>, k: nat)
    requires cfg.kind.IsDump() && k <= |msgs|
    requires k < |msgs| ==> EndsDump(cfg, msgs[k])
    requires forall i | 0 <= i < k :: !EndsDump(cfg, msgs[i])
    ensures Run(cfg, [], msgs).outcome
            == if k == |msgs| then None
               else Some(if MsgType(msgs[k]) == NLMSG_ERROR && ErrorCode(msgs[k]) != 0
                         then Failed(ErrorCode(msgs[k])) else Rows(RowsIn(cfg, msgs[..k])))
  {
    hide Run, RowsIn, MsgType, ErrorCode, Mine;
    RunIsScan(cfg, [], msgs);
    assert forall i | 0 <= i < |msgs| :: Closes(cfg, msgs[i]) == EndsDump(cfg, msgs[i]);
    assert Closing(cfg, msgs) == k;
    assert [] + RowsIn(cfg, msgs[..k]) == RowsIn(cfg, msgs[..k]);
    if k < |msgs| {
      RowHasItsType(cfg.kind, msgs[k]);
    }
  }

  /** The test of a get on the decoded text is a test on the attributes: the
      last NDA_LLADDR is there and not empty. */
  lemma {:induction false} NeighborInIff(m: seq<Byte>)
    ensures NeighborIn(m).Some? <==> HasHwAddr(m)
    ensures HasHwAddr(m) ==>
              && NeighborIn(m) == Some(NeighborOf(m)) && NeighborOf(m).change == New
              && NeighborOf(m).lladdr == HwAddr(LastOf(Attrs(m, NEIGHBOR_SIZE), NDA_LLADDR).value.payload)
  {
    hide U32At, U16At, Slice, LastAddress, LastOf, HwAddr, Attrs;
    var a := LastOf(Attrs(m, NEIGHBOR_SIZE), NDA_LLADDR);
    if a.Some? {
      HwAddrIsEmptyIff(a.value.payload);
    }
  }

  lemma HwAddrIsEmptyIff(payload: seq<Byte>)
    ensures HwAddr(payload) == "" <==> payload == []
  {
    if payload != [] {
      HwAddrFormat(payload);
    }
  }

  /** Messages that end a get. */
  predicate EndsGet(cfg: Config, m: seq<Byte>) {
    Mine(cfg, m) && (MsgType(m) in {NLMSG_DONE, NLMSG_ERROR} || HasHwAddr(m))
  }

  /** A neighbour get, spelled out: the first own message that is DONE, ERROR or
      an entry whose last NDA_LLADDR is not empty decides. The entry is returned
      with that address; otherwise it is ENOENT or the kernel's code. */
  lemma {:induction false} GetResult(cfg: Config, msgs: seq<seq<Byte>>, k: nat)
    requires cfg.kind == NeighborGet && k <= |msgs|
    requires k < |msgs| ==> EndsGet(cfg, msgs[k])
    requires forall i | 0 <= i < k :: !EndsGet(cfg, msgs[i])
    ensures Run(cfg, [], msgs).outcome
            == if k == |msgs| then None
               else if HasHwAddr(msgs[k]) then Some(Found(NeighborOf(msgs[k])))
               else if MsgType(msgs[k]) == NLMSG_ERROR && ErrorCode(msgs[k]) != 0
               then Some(Failed(ErrorCode(msgs[k]))) else Some(Failed(ENOENT))
    ensures k < |msgs| && HasHwAddr(msgs[k]) ==>
              NeighborOf(msgs[k]).lladdr
              == HwAddr(LastOf(Attrs(msgs[k], NEIGHBOR_SIZE), NDA_LLADDR).value.payload) != ""
  {
    hide Run, RowsIn, MsgType, ErrorCode, Mine, NeighborOf, HwAddr, LastOf, HasFixed, NeighborIn, Attrs;
    RunIsScan(cfg, [], msgs);
    forall i | 0 <= i < |msgs|
      ensures Closes(cfg, msgs[i]) == EndsGet(cfg, msgs[i])
    {
      NeighborInIff(msgs[i]);
    }
    assert Closing(cfg, msgs) == k;
    if k < |msgs| {
      NeighborInIff(msgs[k]);
      RowHasItsType(cfg.kind, msgs[k]);
      if HasHwAddr(msgs[k]) {
        HwAddrIsEmptyIff(LastOf(Attrs(msgs[k], NEIGHBOR_SIZE), NDA_LLADDR).value.payload);
      }
    }
  }

  /** A probe or flush, spelled out: the first own ERROR decides, and only its
      number; DONE and everything else leaves it pending. */
  lemma {:induction false} AckResult(cfg: Config, msgs: seq<seq<Byte>>, k: nat)
    requires cfg.kind.IsAck() && k <= |msgs|
    requires k < |msgs| ==> Mine(cfg, msgs[k]) && MsgType(msgs[k]) == NLMSG_ERROR
    requires forall i | 0 <= i < k :: !(Mine(cfg, msgs[i]) && MsgType(msgs[i]) == NLMSG_ERROR)
    ensures Run(cfg, [], msgs).outcome
            == if k == |msgs| then None
               else Some(if ErrorCode(msgs[k]) != 0 then Failed(ErrorCode(msgs[k])) else Acked)
  {
    hide Run, RowsIn, MsgType, ErrorCode, Mine;
    RunIsScan(cfg, [], msgs);
    assert forall i | 0 <= i < |msgs| ::
        Closes(cfg, msgs[i]) == (Mine(cfg, msgs[i]) && MsgType(msgs[i]) == NLMSG_ERROR);
    assert Closing(cfg, msgs) == k;
  }

  /** Processing a stream in two parts is processing it whole. */
  lemma {:induction false} RunAppend(cfg: Config, learned: seq<Event>, a: seq<seq<Byte>>, b: seq<seq<Byte>>)
    ensures Run(cfg, learned, a + b)
            == var p := Run(cfg, learned, a); if p.outcome.Some? then p else Run(cfg, p.learned, b)
    decreases |a|
  {
    hide Step;
    if a == [] {
      assert a + b == b;
    } else {
      assert (a + b)[1..] == a[1..] + b;
      var p := Step(cfg, learned, a[0]);
      if p.outcome.None? {
        RunAppend(cfg, p.learned, a[1..], b);
      }
    }
  }

  /** A task's own sub-stream. */
  function OwnMessages(sequence: U32, msgs: seq<seq<Byte>>): seq<seq<Byte>> {
    if msgs == [] then []
    else if SeqNo(msgs[0]) == sequence then [msgs[0]] + OwnMessages(sequence, msgs[1..])
    else OwnMessages(sequence, msgs[1..])
  }

  /** Foreign messages anywhere in a stream do not matter. */
  lemma {:induction false} ForeignMessagesAreIgnored(cfg: Config, learned: seq<Event>, msgs: seq<seq<Byte>>)
    ensures Run(cfg, learned, msgs) == Run(cfg, learned, OwnMessages(cfg.sequence, msgs))
    decreases |msgs|
  {
    if msgs != [] {
      var m, own := msgs[0], OwnMessages(cfg.sequence, msgs[1..]);
      if SeqNo(m) != cfg.sequence {
        StepOnForeign(cfg, learned, m);
      }
      var p := Step(cfg, learned, m);
      hide Step, SeqNo;
      ForeignMessagesAreIgnored(cfg, p.learned, msgs[1..]);
      assert ([m] + own)[1..] == own;
    }
  }

  lemma StepOnForeign(cfg: Config, learned: seq<Event>, m: seq<Byte>)
    requires SeqNo(m) != cfg.sequence
    ensures Step(cfg, learned, m) == Progress(learned, None)
  {
    hide SeqNo;
  }

  /** A step on a legible message does not see the memory after it. */
  lemma StepIsLocal(cfg: Config, learned: seq<Event>, m: seq<Byte>, t: seq<Byte>)
    requires Legible(cfg, m)
    ensures Step(cfg, learned, m + t) == Step(cfg, learned, m)
  {
    hide EventOf, U32At, U16At, FixedSize, EventInside;
    ReadsInside(m, t, 8);
    if Mine(cfg, m) {
      ReadsInside(m, t, 4);
      ReadsInside(m, t, HEADER_SIZE);
      if Some(MsgType(m)) == EventType(cfg.kind) {
        EventIsLocal(m, t);
      }
    } else {
      StepOnForeign(cfg, learned, m);
      StepOnForeign(cfg, learned, m + t);
    }
  }

  /** The code of an error message is independent of stale memory exactly when
      the message is long enough to hold it, which the code does not check. */
  lemma {:induction false} ErrorCodeIsLocalIff(m: seq<Byte>)
    requires Framed(m)
    ensures (forall s: seq<Byte>, t: seq<Byte> :: ErrorCode(m + s) == ErrorCode(m + t)) <==> HEADER_SIZE + 4 <= |m|
  {
    if HEADER_SIZE + 4 <= |m| {
      forall s: seq<Byte>, t: seq<Byte>
        ensures ErrorCode(m + s) == ErrorCode(m + t)
      {
        ReadsInside(m, s, HEADER_SIZE);
        ReadsInside(m, t, HEADER_SIZE);
      }
    } else {
      var s, t := Zeros(4), seq<Byte>(4, _ => 1);
      assert At(m + s, 19) == 0 && At(m + t, 19) == 1;
      assert ErrorCode(m + s) != ErrorCode(m + t);
    }
  }

  /** Reading each message in place, with the rest of the buffer behind it, is
      reading the messages themselves. */
  lemma {:induction false} RunIsLocal(cfg: Config, learned: seq<Event>, views: seq<seq<Byte>>, msgs: seq<seq<Byte>>)
    requires ViewsOf(views, msgs)
    requires forall m | m in msgs :: Legible(cfg, m)
    ensures Run(cfg, learned, views) == Run(cfg, learned, msgs)
    decreases |msgs|
  {
    hide Step, Legible;
    if msgs != [] {
      var t := views[0][|msgs[0]|..];
      assert views[0] == msgs[0] + t;
      StepIsLocal(cfg, learned, msgs[0], t);
      RunIsLocal(cfg, Step(cfg, learned, msgs[0]).learned, views[1..], msgs[1..]);
    }
  }
}
