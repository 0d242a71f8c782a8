/**
 The main results about request tasks: reading packed datagrams of any sizes
 through a reused buffer is scanning the stream of messages they carry.
 */
module Refinement {
  import opened Wrappers
  import opened Bytes
  import opened Wire
  import opened Framing
  import opened Attributes
  import opened Messages
  import opened Text
  import opened Events
  import opened EventLaws
  import opened Tasks
  import opened RequestTasks

  /** Messages as the kernel packs them into one datagram. */
  type Packet = seq<seq<Byte>>

  /** Whole messages that the request reads within their own bytes. Of foreign
      messages nothing is asked but that they are whole. */
  predicate WellFormed(cfg: Config, p: Packet) {
    forall m | m in p :: Legible(cfg, m)
  }

  /** A buffer whose capacity keeps the alignment, as both buffers' do. */
  predicate GoodBuffer(buffer: seq<Byte>) {
    |buffer| % 4 == 0 && |buffer| < TWO_TO_THE_32
  }

  function Flatten(packets: seq<Packet>): seq<seq<Byte>> {
    if packets == [] then [] else packets[0] + Flatten(packets[1..])
  }

  /** The messages that survive the cut at the buffer's capacity. */
  function Delivered(packets: seq<Packet>, capacity: nat): seq<seq<Byte>> {
    if packets == [] then [] else Fitting(packets[0], capacity) + Delivered(packets[1..], capacity)
  }

  function Datagrams(packets: seq<Packet>): seq<Receive> {
    if packets == [] then [] else [Datagram(Pack(packets[0]))] + Datagrams(packets[1..])
  }

  /** The end of the input: nothing more arrives, or a receive fails. */
  function Ending(failure: Option<int>): seq<Receive> {
    match failure
    case None => []
    case Some(code) => [ReceiveFailed(code)]
  }

  function SessionOf(p: Progress, failure: Option<int>): Session {
    Session(p.learned,
            match p.outcome
            case Some(o) => Returned(o)
            case None => match failure case None => Pending case Some(code) => Returned(Failed(code)))
  }

  lemma {:induction false} OneDatagram(cfg: Config, learned: seq<Event>, buffer: seq<Byte>, p: Packet)
    requires GoodBuffer(buffer) && WellFormed(cfg, p)
    ensures var n := Min(|Pack(p)|, |buffer|);
            OnReceived(cfg, learned, Filled(buffer, Pack(p)), n)
            == SessionOf(Run(cfg, learned, Fitting(p, |buffer|)), None)
  {
    hide Run, WalkFrom, Pack, Fitting, Legible;
    LegibleIsFramed(cfg, p);
    var n := Min(|Pack(p)|, |buffer|);
    TruncatedWalk(p, n, buffer[n..]);
    if |Pack(p)| <= |buffer| {
      EverythingFits(p, |Pack(p)|);
      EverythingFits(p, |buffer|);
    }
    var views := Views(WalkFrom(Cursor(Filled(buffer, Pack(p)), n)).frames);
    FittingIsMaximal(p, |buffer|);
    assert forall m | m in Fitting(p, |buffer|) :: m in p;
    RunIsLocal(cfg, learned, views, Fitting(p, |buffer|));
  }

  lemma LegibleIsFramed(cfg: Config, p: Packet)
    requires WellFormed(cfg, p)
    ensures AllFramed(p)
  {
    hide Framed;
  }

  /** Reading packed datagrams, of any sizes and over any stale buffer contents,
      is processing the stream of messages that fit, one by one. */
  lemma {:induction false} ReadIsRun(cfg: Config, learned: seq<Event>, buffer: seq<Byte>, packets: seq<Packet>,
                                     failure: Option<int>)
    requires GoodBuffer(buffer) && forall p | p in packets :: WellFormed(cfg, p)
    ensures ReadRun(cfg, learned, buffer, Datagrams(packets) + Ending(failure))
            == SessionOf(Run(cfg, learned, Delivered(packets, |buffer|)), failure)
    decreases |packets|
  {
    hide Run, Pack, Fitting, OnReceived, WellFormed, Filled;
    var receives := Datagrams(packets) + Ending(failure);
    RunEmpty(cfg, learned);
    if packets == [] {
      assert receives == Ending(failure);
      if failure.Some? {
        assert receives[0] == ReceiveFailed(failure.value);
      }
    } else {
      var p := packets[0];
      OneDatagram(cfg, learned, buffer, p);
      var filled := Filled(buffer, Pack(p));
      assert receives[0] == Datagram(Pack(p));
      assert receives[1..] == Datagrams(packets[1..]) + Ending(failure);
      var progress := Run(cfg, learned, Fitting(p, |buffer|));
      RunAppend(cfg, learned, Fitting(p, |buffer|), Delivered(packets[1..], |buffer|));
      if progress.outcome.None? {
        ReadIsRun(cfg, progress.learned, filled, packets[1..], failure);
      }
    }
  }

  lemma RunEmpty(cfg: Config, learned: seq<Event>)
    ensures Run(cfg, learned, []) == Progress(learned, None)
  {
  }

  /** A fresh task returns exactly what a scan of the delivered stream says, and
      is pending exactly when the scan finds no closing message. */
  lemma {:induction false} ReadIsScan(cfg: Config, buffer: seq<Byte>, packets: seq<Packet>, failure: Option<int>)
    requires GoodBuffer(buffer) && forall p | p in packets :: WellFormed(cfg, p)
    ensures ReadRun(cfg, [], buffer, Datagrams(packets) + Ending(failure)).status
            == match Scan(cfg, Delivered(packets, |buffer|)) {
                 case Some(outcome) => Returned(outcome)
                 case None => match failure {
                   case None => Pending
                   case Some(code) => Returned(Failed(code))
                 }
               }
  {
    hide Run, ReadRun, Scan, Delivered;
    ReadIsRun(cfg, [], buffer, packets, failure);
    FreshRunIsScan(cfg, Delivered(packets, |buffer|));
  }

  lemma {:induction false} NothingIsCut(packets: seq<Packet>, capacity: nat)
    requires forall p | p in packets :: |Pack(p)| <= capacity
    ensures Delivered(packets, capacity) == Flatten(packets)
    decreases |packets|
  {
    hide Pack, Fitting;
    if packets != [] {
      EverythingFits(packets[0], capacity);
      NothingIsCut(packets[1..], capacity);
    }
  }

  /** How the kernel packs a stream does not matter: two series of datagrams
      that fit the buffer and carry the same messages, split at any boundaries
      and with empty datagrams anywhere, give the same result and the same rows,
      whatever the buffers held before. */
  lemma {:induction false} PackingIsIrrelevant(cfg: Config, learned: seq<Event>,
                                               buffer: seq<Byte>, packets: seq<Packet>,
                                               buffer': seq<Byte>, packets': seq<Packet>)
    requires GoodBuffer(buffer) && forall p | p in packets :: WellFormed(cfg, p) && |Pack(p)| <= |buffer|
    requires GoodBuffer(buffer') && forall p | p in packets' :: WellFormed(cfg, p) && |Pack(p)| <= |buffer'|
    requires Flatten(packets) == Flatten(packets')
    ensures ReadRun(cfg, learned, buffer, Datagrams(packets)) == ReadRun(cfg, learned, buffer', Datagrams(packets'))
  {
    hide Run, ReadRun, Pack, WellFormed, Datagrams;
    assert Datagrams(packets) + Ending(None) == Datagrams(packets);
    assert Datagrams(packets') + Ending(None) == Datagrams(packets');
    ReadIsRun(cfg, learned, buffer, packets, None);
    ReadIsRun(cfg, learned, buffer', packets', None);
    NothingIsCut(packets, |buffer|);
    NothingIsCut(packets', |buffer'|);
  }

  /** Foreign traffic does not matter either: two series of datagrams that carry
      the same own messages in the same order give the same result. */
  lemma {:induction false} ForeignTrafficIsIrrelevant(cfg: Config, learned: seq<Event>,
                                                      buffer: seq<Byte>, packets: seq<Packet>,
                                                      buffer': seq<Byte>, packets': seq<Packet>)
    requires GoodBuffer(buffer) && forall p | p in packets :: WellFormed(cfg, p) && |Pack(p)| <= |buffer|
    requires GoodBuffer(buffer') && forall p | p in packets' :: WellFormed(cfg, p) && |Pack(p)| <= |buffer'|
    requires OwnMessages(cfg.sequence, Flatten(packets)) == OwnMessages(cfg.sequence, Flatten(packets'))
    ensures ReadRun(cfg, learned, buffer, Datagrams(packets)) == ReadRun(cfg, learned, buffer', Datagrams(packets'))
  {
    hide Run, ReadRun, Pack, WellFormed, Datagrams, OwnMessages;
    assert Datagrams(packets) + Ending(None) == Datagrams(packets);
    assert Datagrams(packets') + Ending(None) == Datagrams(packets');
    ReadIsRun(cfg, learned, buffer, packets, None);
    ReadIsRun(cfg, learned, buffer', packets', None);
    NothingIsCut(packets, |buffer|);
    NothingIsCut(packets', |buffer'|);
    ForeignMessagesAreIgnored(cfg, learned, Flatten(packets));
    ForeignMessagesAreIgnored(cfg, learned, Flatten(packets'));
  }

  /** The receive buffer after a series of receives. */
  function BufferAfter(buffer: seq<Byte>, receives: seq<Receive>): seq<Byte>
    decreases |receives|
  {
    if receives == [] then buffer
    else if receives[0].Datagram? then BufferAfter(Filled(buffer, receives[0].bytes), receives[1..])
    else BufferAfter(buffer, receives[1..])
  }

  /** Stopping after any receives and continuing is reading without a break, for
      arbitrary bytes. */
  lemma {:induction false} ReadAppend(cfg: Config, learned: seq<Event>, buffer: seq<Byte>,
                                      a: seq<Receive>, b: seq<Receive>)
    ensures var s := ReadRun(cfg, learned, buffer, a);
            ReadRun(cfg, learned, buffer, a + b)
            == if s.status.Pending? then ReadRun(cfg, s.learned, BufferAfter(buffer, a), b) else s
    decreases |a|
  {
    hide OnReceived, Filled;
    if a == [] {
      assert a + b == b;
    } else {
      assert (a + b)[1..] == a[1..] + b;
      if a[0].Datagram? {
        var d := a[0].bytes;
        var filled := Filled(buffer, d);
        var s := OnReceived(cfg, learned, filled, Min(|d|, |buffer|) % TWO_TO_THE_32);
        if s.status.Pending? {
          ReadAppend(cfg, s.learned, filled, a[1..], b);
        }
      }
    }
  }

  /** A message as the kernel builds it: the fixed part of its type, payloads
      that hold what is read from them, and an error number in an error. */
  predicate Sound(msg: Message) {
    && msg.Valid()
    && (FixedSize(msg.msgType).Some? ==>
          FixedSize(msg.msgType) == Some(|msg.fixed|) && Contained(msg.msgType, At(msg.fixed, 0), msg.attrs))
    && (msg.msgType == NLMSG_ERROR ==> 4 <= |msg.fixed|)
  }

  /** Any messages, of which the request's own are sound. */
  predicate OwnAreSound(cfg: Config, messages: seq<Message>)
    ensures OwnAreSound(cfg, messages) ==> forall x | x in messages :: x.Valid()
  {
    forall x | x in messages :: x.Valid() && (x.seqNo == cfg.sequence ==> Sound(x))
  }

  /** The row a message stands for in a dump, told from its parts. */
  function RowFor(kind: TaskKind, msg: Message): Option<Event> {
    var e := EventFrom(msg.msgType, msg.fixed, msg.attrs);
    if || (kind == RouteDump && msg.msgType == RTM_NEWROUTE
           && e.route.table == RT_TABLE_MAIN && 0 < e.route.oifIndex <= MAX_IFINDEX)
       || (kind == AddressDump && msg.msgType == RTM_NEWADDR && 0 < e.address.index <= MAX_IFINDEX)
       || (kind == LinkDump && msg.msgType == RTM_NEWLINK && 0 < e.link.index <= MAX_IFINDEX)
       || (kind == NeighborDump && msg.msgType == RTM_NEWNEIGH && 0 < e.neighbor.index <= MAX_IFINDEX)
    then Some(e) else None
  }

  function RowsFor(cfg: Config, messages: seq<Message>): seq<Event> {
    if messages == [] then [] else
    var rest := RowsFor(cfg, messages[1..]);
    if messages[0].seqNo == cfg.sequence && RowFor(cfg.kind, messages[0]).Some?
    then [RowFor(cfg.kind, messages[0]).value] + rest else rest
  }

  /** A valid message is whole, with the type and number it was given. */
  lemma ValidMessageReads(msg: Message)
    requires msg.Valid()
    ensures var m := msg.Encode();
            Framed(m) && SeqNo(m) == msg.seqNo && MsgType(m) == msg.msgType
  {
    hide U32At, U16At, EncodeHeader, EncodeAttrs, HeaderAt, Attrs, Bare;
    ParseEncoded(msg, []);
    assert msg.Encode() + [] == msg.Encode();
    FieldsOfHeader(msg.Encode());
  }

  lemma FieldsOfHeader(m: seq<Byte>)
    ensures HeaderAt(m).seqNo == SeqNo(m) && HeaderAt(m).msgType == MsgType(m) && HeaderAt(m).len == U32At(m, 0)
  {
    hide U32At, U16At;
  }

  /** A sound message is read within its own bytes, as what its parts say. */
  lemma {:induction false} SoundMessageReads(msg: Message)
    requires Sound(msg)
    ensures var m := msg.Encode();
            && EventInside(m)
            && EventOf(m) == EventFrom(msg.msgType, msg.fixed, msg.attrs)
            && (msg.msgType == NLMSG_ERROR ==> HEADER_SIZE + 4 <= |m| && ErrorCode(m) == -I32At(msg.fixed, 0))
  {
    hide U32At, U16At, EventFrom, Contained, FieldsInside, FixedSize, Bare, Attrs, EncodeHeader, EncodeAttrs;
    var m := msg.Encode();
    ValidMessageReads(msg);
    ParseEncoded(msg, []);
    assert m + [] == m;
    if FixedSize(msg.msgType).Some? {
      EncodedEvent(msg, []);
      ContainedBare(msg.msgType, At(msg.fixed, 0), Attrs(m, |msg.fixed|));
      ContainedIsInside(msg.msgType, At(msg.fixed, 0), Attrs(m, |msg.fixed|));
      FixedSizePositive(msg.msgType);
      assert m[HEADER_SIZE] == msg.fixed[0];
    } else {
      NoEventWithoutFixed(msg.msgType, msg.fixed, msg.attrs);
    }
    if msg.msgType == NLMSG_ERROR {
      var h, body := EncodeHeader(msg.Header()), EncodeAttrs(msg.attrs);
      assert m == h + (msg.fixed + body);
      ReadsAfter(h, msg.fixed + body, 0);
      ReadsInside(msg.fixed, body, 0);
    }
  }

  lemma NoEventWithoutFixed(msgType: U16, fixed: seq<Byte>, attrs: seq<Attribute>)
    requires FixedSize(msgType).None?
    ensures EventFrom(msgType, fixed, attrs) == NoEvent
  {
  }

  lemma SoundRow(kind: TaskKind, msg: Message)
    requires Sound(msg)
    ensures RowOf(kind, msg.Encode()) == RowFor(kind, msg)
  {
    hide EventOf, Contained, U32At, U16At, LastAddress, LastU32, LastString, LastHwAddr, FirstName, Decimal;
    ValidMessageReads(msg);
    SoundMessageReads(msg);
  }

  lemma {:induction false} RowsOfEncoded(cfg: Config, messages: seq<Message>)
    requires OwnAreSound(cfg, messages)
    ensures RowsIn(cfg, EncodeAll(messages)) == RowsFor(cfg, messages)
    decreases |messages|
  {
    if messages != [] {
      assert EncodeAll(messages)[1..] == EncodeAll(messages[1..]);
      ValidMessageReads(messages[0]);
      if messages[0].seqNo == cfg.sequence {
        SoundRow(cfg.kind, messages[0]);
      }
      hide RowOf, RowFor, Sound, SeqNo;
      RowsOfEncoded(cfg, messages[1..]);
    }
  }

  /** What is known of the stream of encoded messages, one by one and as read. */
  lemma {:induction false} ReadEncoded(cfg: Config, buffer: seq<Byte>, packets: seq<Packet>, messages: seq<Message>)
    requires GoodBuffer(buffer) && OwnAreSound(cfg, messages)
    requires Flatten(packets) == EncodeAll(messages) && forall p | p in packets :: |Pack(p)| <= |buffer|
    ensures forall i | 0 <= i < |messages| ::
              && SeqNo(messages[i].Encode()) == messages[i].seqNo
              && MsgType(messages[i].Encode()) == messages[i].msgType
    ensures ReadRun(cfg, [], buffer, Datagrams(packets)) == SessionOf(Run(cfg, [], EncodeAll(messages)), None)
  {
    hide Run, ReadRun, Pack, Datagrams, Sound, EventInside, Framed, SeqNo, MsgType;
    var msgs := EncodeAll(messages);
    forall i | 0 <= i < |messages|
      ensures Legible(cfg, msgs[i])
      ensures SeqNo(msgs[i]) == messages[i].seqNo && MsgType(msgs[i]) == messages[i].msgType
    {
      ValidMessageReads(messages[i]);
      if messages[i].seqNo == cfg.sequence {
        SoundMessageReads(messages[i]);
      }
    }
    PacketsOfStream(cfg, packets);
    NothingIsCut(packets, |buffer|);
    ReadIsRun(cfg, [], buffer, packets, None);
    assert Datagrams(packets) + Ending(None) == Datagrams(packets);
  }

  lemma {:induction false} PacketsOfStream(cfg: Config, packets: seq<Packet>)
    requires forall m | m in Flatten(packets) :: Legible(cfg, m)
    ensures forall p | p in packets :: WellFormed(cfg, p)
    decreases |packets|
  {
    hide Legible;
    if packets != [] {
      var rest := Flatten(packets[1..]);
      assert forall m | m in packets[0] :: m in packets[0] + rest;
      assert forall m | m in rest :: m in packets[0] + rest;
      PacketsOfStream(cfg, packets[1..]);
    }
  }

  /** The message that ends a dump. */
  predicate Ends(cfg: Config, msg: Message) {
    msg.seqNo == cfg.sequence && msg.msgType in {NLMSG_DONE, NLMSG_ERROR}
  }

  /** From the kernel's messages to the caller's list. Encode any messages of which
      the request's own are sound, pack them into any datagrams that fit, let them
      land in any buffer: a dump ends at the first DONE or ERROR of its own, with
      the events that the earlier messages of its own describe and that pass its
      filter, or with the error; without one it is pending. */
  lemma {:induction false} DumpOfEncodedMessages(cfg: Config, buffer: seq<Byte>, packets: seq<Packet>,
                                                 messages: seq<Message>, k: nat)
    requires cfg.kind.IsDump() && GoodBuffer(buffer)
    requires OwnAreSound(cfg, messages)
    requires Flatten(packets) == EncodeAll(messages) && forall p | p in packets :: |Pack(p)| <= |buffer|
    requires k <= |messages| && (k < |messages| ==> Ends(cfg, messages[k]))
    requires forall i | 0 <= i < k :: !Ends(cfg, messages[i])
    ensures ReadRun(cfg, [], buffer, Datagrams(packets)).status
            == if k == |messages| then Pending
               else var code := -I32At(messages[k].fixed, 0);
               Returned(if messages[k].msgType == NLMSG_ERROR && code != 0
                        then Failed(code) else Rows(RowsFor(cfg, messages[..k])))
  {
    hide Run, ReadRun, Pack, Datagrams, RowsIn, RowsFor, EventInside, SeqNo, MsgType, ErrorCode, Contained;
    var msgs := EncodeAll(messages);
    ReadEncoded(cfg, buffer, packets, messages);
    if k < |messages| {
      SoundMessageReads(messages[k]);
    }
    DumpResult(cfg, msgs, k);
    assert msgs[..k] == EncodeAll(messages[..k]);
    RowsOfEncoded(cfg, messages[..k]);
  }

  /** A message that describes a neighbour with a hardware address. */
  predicate Usable(msg: Message) {
    && msg.msgType == RTM_NEWNEIGH
    && var a := LastOf(msg.attrs, NDA_LLADDR);
       a.Some? && a.value.payload != []
  }

  lemma UsableIsUsed(msg: Message)
    requires Sound(msg)
    ensures HasHwAddr(msg.Encode()) == Usable(msg)
    ensures Usable(msg) ==> NeighborOf(msg.Encode()) == NeighborFrom(New, msg.fixed, msg.attrs)
  {
    hide EventOf, U32At, U16At, LastAddress, LastHwAddr, LastOf, Contained, Attrs, Bare;
    ValidMessageReads(msg);
    SoundMessageReads(msg);
    var m := msg.Encode();
    if msg.msgType == RTM_NEWNEIGH {
      ParseEncoded(msg, []);
      assert m + [] == m;
      FieldsOfHeader(m);
      LastOfBare(Attrs(m, NEIGHBOR_SIZE), NDA_LLADDR);
    }
  }

  /** The same for a neighbour get: it ends at the first message of its own that is
      DONE, ERROR or an entry whose last NDA_LLADDR is not empty, with the
      neighbour that the entry describes, with ENOENT or with the error. */
  lemma {:induction false} GetOfEncodedMessages(cfg: Config, buffer: seq<Byte>, packets: seq<Packet>,
                                                messages: seq<Message>, k: nat)
    requires cfg.kind == NeighborGet && GoodBuffer(buffer)
    requires OwnAreSound(cfg, messages)
    requires Flatten(packets) == EncodeAll(messages) && forall p | p in packets :: |Pack(p)| <= |buffer|
    requires k <= |messages|
    requires k < |messages| ==> Ends(cfg, messages[k]) || (messages[k].seqNo == cfg.sequence && Usable(messages[k]))
    requires forall i | 0 <= i < k ::
               !Ends(cfg, messages[i]) && !(messages[i].seqNo == cfg.sequence && Usable(messages[i]))
    ensures ReadRun(cfg, [], buffer, Datagrams(packets)).status
            == if k == |messages| then Pending
               else var msg, code := messages[k], -I32At(messages[k].fixed, 0);
               Returned(if Usable(msg) then Found(NeighborFrom(New, msg.fixed, msg.attrs))
                        else if msg.msgType == NLMSG_ERROR && code != 0 then Failed(code) else Failed(ENOENT))
  {
    hide Run, ReadRun, Pack, Datagrams, EventInside, SeqNo, MsgType, ErrorCode, Sound, Usable, HasHwAddr, NeighborOf,
         NeighborFrom;
    var msgs := EncodeAll(messages);
    ReadEncoded(cfg, buffer, packets, messages);
    forall i | 0 <= i < |messages| && messages[i].seqNo == cfg.sequence
      ensures HasHwAddr(msgs[i]) == Usable(messages[i])
    {
      UsableIsUsed(messages[i]);
    }
    if k < |messages| {
      UsableIsUsed(messages[k]);
      SoundMessageReads(messages[k]);
    }
    GetResult(cfg, msgs, k);
  }

  /** The same for a probe or flush: it ends at the first ERROR of its own. */
  lemma {:induction false} AckOfEncodedMessages(cfg: Config, buffer: seq<Byte>, packets: seq<Packet>,
                                                messages: seq<Message>, k: nat)
    requires cfg.kind.IsAck() && GoodBuffer(buffer)
    requires OwnAreSound(cfg, messages)
    requires Flatten(packets) == EncodeAll(messages) && forall p | p in packets :: |Pack(p)| <= |buffer|
    requires k <= |messages|
    requires k < |messages| ==> messages[k].seqNo == cfg.sequence && messages[k].msgType == NLMSG_ERROR
    requires forall i | 0 <= i < k :: !(messages[i].seqNo == cfg.sequence && messages[i].msgType == NLMSG_ERROR)
    ensures ReadRun(cfg, [], buffer, Datagrams(packets)).status
            == if k == |messages| then Pending
               else var code := -I32At(messages[k].fixed, 0);
               Returned(if code != 0 then Failed(code) else Acked)
  {
    hide Run, ReadRun, Pack, Datagrams, EventInside, SeqNo, MsgType, ErrorCode, Contained;
    ReadEncoded(cfg, buffer, packets, messages);
    if k < |messages| {
      SoundMessageReads(messages[k]);
    }
    AckResult(cfg, EncodeAll(messages), k);
  }
}
