/**
 Inputs on which results depend on memory behind a message: what the code does
 with a message that lies shorter than what is read of it.
 */
module StaleReads {
  import opened Wrappers
  import opened Bytes
  import opened Wire
  import opened Framing
  import opened Attributes
  import opened Messages
  import opened Text
  import opened Events
  import opened EventLaws
  import opened FixedParts
  import opened Tasks
  import opened RequestTasks
  import opened Refinement
  import opened Listeners

  /** One message received alone is processed with the old contents of the buffer
      behind it. */
  lemma OneMessageReceived(cfg: Config, buffer: seq<Byte>, m: seq<Byte>)
    requires Framed(m) && |m| % 4 == 0 && |m| <= |buffer| < TWO_TO_THE_32
    ensures ReadRun(cfg, [], buffer, [Datagram(m)])
            == SessionOf(Step(cfg, [], m + buffer[|m|..]), None)
  {
    hide Step, WalkFrom, Framed;
    var view := m + buffer[|m|..];
    assert Filled(buffer, m) == view;
    OneMessageWalk(m, buffer[|m|..]);
    assert [Datagram(m)][1..] == [];
    var p := Step(cfg, [], view);
    RunEmpty(cfg, p.learned);
    var none: seq<seq<Byte>> := [view][1..];
    assert none == [];
  }

  /** An NLMSG_ERROR that ends with its header. */
  function BareError(sequence: U32): Message {
    Message(NLMSG_ERROR, 0, sequence, 0, [], [])
  }

  /** An own 16-byte error ends a dump with whatever four bytes the buffer still
      holds behind it. */
  lemma {:induction false} BareErrorReadsStaleBytes(cfg: Config, buffer: seq<Byte>)
    requires cfg.kind.IsDump() && HEADER_SIZE + 4 <= |buffer| < TWO_TO_THE_32
    ensures var code := -I32At(buffer, HEADER_SIZE);
            && BareError(cfg.sequence).Valid()
            && ReadRun(cfg, [], buffer, [Datagram(BareError(cfg.sequence).Encode())]).status
               == Returned(if code == 0 then Rows([]) else Failed(code))
  {
    hide ReadRun, U32At, U16At, EncodeHeader;
    var msg := BareError(cfg.sequence);
    var m := msg.Encode();
    ValidMessageReads(msg);
    OneMessageReceived(cfg, buffer, m);
    var view := m + buffer[HEADER_SIZE..];
    ReadsInside(m, buffer[HEADER_SIZE..], 4);
    ReadsInside(m, buffer[HEADER_SIZE..], 8);
    ReadsAfter(m, buffer[HEADER_SIZE..], 0);
    assert buffer == buffer[..HEADER_SIZE] + buffer[HEADER_SIZE..];
    ReadsAfter(buffer[..HEADER_SIZE], buffer[HEADER_SIZE..], 0);
  }

  /** So the same datagram is success with no rows over one receive buffer and any
      error number over another. */
  lemma {:induction false} BareErrorHasTwoResults(cfg: Config, code: int)
    requires cfg.kind.IsDump() && 0 < code <= 0x8000_0000
    ensures exists a: seq<Byte>, b: seq<Byte> ::
              && |a| == |b| == MAX_RESPONSE_BYTES && BareError(cfg.sequence).Valid()
              && var m := BareError(cfg.sequence).Encode();
              && ReadRun(cfg, [], a, [Datagram(m)]).status == Returned(Rows([]))
              && ReadRun(cfg, [], b, [Datagram(m)]).status == Returned(Failed(code))
  {
    hide ReadRun, U32At, PutU32;
    var a := Zeros(MAX_RESPONSE_BYTES);
    var rest := Zeros(MAX_RESPONSE_BYTES - HEADER_SIZE - 4);
    var b := Zeros(HEADER_SIZE) + (PutU32(TWO_TO_THE_32 - code) + rest);
    ReadsAfter(Zeros(HEADER_SIZE), PutU32(TWO_TO_THE_32 - code) + rest, 0);
    U32RoundTrip(TWO_TO_THE_32 - code, rest);
    ZeroWord(a);
    BareErrorReadsStaleBytes(cfg, a);
    BareErrorReadsStaleBytes(cfg, b);
    assert |a| == |b| == MAX_RESPONSE_BYTES;
  }

  lemma ZeroWord(a: seq<Byte>)
    requires a == Zeros(MAX_RESPONSE_BYTES)
    ensures I32At(a, HEADER_SIZE) == 0
  {
  }

  /** The event of a message whose only attribute has t behind it in memory. */
  lemma OneAttributeEvent(msg: Message, a: Attribute, t: seq<Byte>)
    requires msg.attrs == [a] && msg.Valid() && FixedSize(msg.msgType) == Some(|msg.fixed|)
    requires |a.payload| % 4 == 0
    ensures EventOf(msg.Encode() + t) == EventFrom(msg.msgType, msg.fixed, [a.(beyond := t)])
  {
    hide U32At, U16At, EventFrom, FixedSize, Parse, Attrs;
    var view := msg.Encode() + t;
    ParseEncoded(msg, t);
    HeaderOfParse(view, |msg.fixed|);
    OneAttributeArea(msg, a, t);
  }

  lemma HeaderOfParse(view: seq<Byte>, size: nat)
    ensures Parse(view, size).0.msgType == MsgType(view) && Parse(view, size).0.len == U32At(view, 0)
    ensures Parse(view, size).1 == Slice(view, HEADER_SIZE, size)
  {
    hide U32At, U16At, Slice, Attrs;
  }

  lemma OneAttributeArea(msg: Message, a: Attribute, t: seq<Byte>)
    requires msg.attrs == [a] && msg.Valid() && |a.payload| % 4 == 0
    ensures Attrs(msg.Encode() + t, |msg.fixed|) == [a.(beyond := t)]
  {
    hide U32At, EncodeHeader, EncodeAttr, Align4, AttrWalk, Parse;
    var view := msg.Encode() + t;
    ParseEncoded(msg, t);
    HeaderOfParse(view, |msg.fixed|);
    assert [a][1..] == [];
    assert EncodeAttrs(msg.attrs) == EncodeAttr(a) + EncodeAttrs([]) == EncodeAttr(a);
    assert From(view, HEADER_SIZE + |msg.fixed|) == EncodeAttr(a) + t;
    OneAttributeWalk(a, t);
  }

  lemma OneAttributeWalk(a: Attribute, t: seq<Byte>)
    requires a.beyond == [] && RTATTR_SIZE + |a.payload| < 0x1_0000 && |a.payload| % 4 == 0
    ensures AttrWalk(EncodeAttr(a) + t, |EncodeAttr(a)|) == [a.(beyond := t)]
  {
    hide U16At, Align4, EncodeAttr, AttributeAt;
    var view := EncodeAttr(a) + t;
    EncodedAttrReads(a, t);
    AlignedSize(RTATTR_SIZE + |a.payload|);
    AlignedAttribute(a, view, t);
    ShortArea(t, 0);
    assert From(view, |EncodeAttr(a)|) == t;
  }

  lemma AlignedSize(n: nat)
    requires n % 4 == 0
    ensures Align4(n) == n
  {
  }

  lemma AlignedAttribute(a: Attribute, view: seq<Byte>, t: seq<Byte>)
    requires U16At(view, 0) == RTATTR_SIZE + |a.payload| && AttributeAt(view).Bare() == a
    requires From(view, RTATTR_SIZE + |a.payload|) == t
    ensures AttributeAt(view) == a.(beyond := t)
  {
    hide U16At;
  }

  /** A new IPv4 address whose IFA_LOCAL is empty. */
  function EmptyLocal(sequence: U32, index: U32): Message {
    Message(RTM_NEWADDR, 0, sequence, 0, IfAddrMsg(AF_INET, 24, 0, 0, index).Encode(), [Attribute(IFA_LOCAL, [], [])])
  }

  /** The address it reports is the four bytes that follow it in memory. */
  lemma {:induction false} EmptyLocalReadsStaleBytes(sequence: U32, index: U32, t: seq<Byte>)
    requires 4 <= |t|
    ensures EmptyLocal(sequence, index).Valid()
    ensures var e := EventOf(EmptyLocal(sequence, index).Encode() + t);
            e.Addr? && e.address.address == Inet(t[..4])
  {
    hide PutU32, U32At;
    var msg := EmptyLocal(sequence, index);
    var a := Attribute(IFA_LOCAL, [], []);
    OneAttributeSize(a, msg);
    OneAttributeEvent(msg, a, t);
    AddressFields(IfAddrMsg(AF_INET, 24, 0, 0, index), New, [a.(beyond := t)]);
    assert [] + t == t && t[0..4] == t[..4];
  }

  lemma OneAttributeSize(a: Attribute, msg: Message)
    requires msg.attrs == [a] && a.beyond == [] && |a.payload| < 0x100
    requires |msg.fixed| % 4 == 0 && |msg.fixed| < 0x100
    ensures msg.Valid()
  {
    hide EncodeAttr;
    assert [a][1..] == [];
    assert |EncodeAttrs(msg.attrs)| == |EncodeAttr(a)|;
  }

  /** A new link whose name fills its attribute without a NUL. */
  function BareName(sequence: U32, index: U32): Message {
    Message(RTM_NEWLINK, 0, sequence, 0, IfInfoMsg(0, 0, index, 0, 0).Encode(),
            [Attribute(IFLA_IFNAME, [101, 116, 104, 48], [])])
  }

  /** The name it reports runs on into the memory that follows it. */
  lemma {:induction false} BareNameReadsStaleBytes(sequence: U32, index: U32, t: seq<Byte>)
    ensures BareName(sequence, index).Valid()
    ensures var e := EventOf(BareName(sequence, index).Encode() + t);
            e.Link? && e.link.name == "eth0" + CString(t)
  {
    hide PutU32, U32At, PutU16;
    var msg := BareName(sequence, index);
    var payload: seq<Byte> := [101, 116, 104, 48];
    var a := Attribute(IFLA_IFNAME, payload, []);
    OneAttributeSize(a, msg);
    OneAttributeEvent(msg, a, t);
    LinkFields(IfInfoMsg(0, 0, index, 0, 0), New, [a.(beyond := t)]);
    NameRunsOn(t);
  }

  lemma NameRunsOn(t: seq<Byte>)
    ensures var payload: seq<Byte> := [101, 116, 104, 48];
            CString(payload + t) == "eth0" + CString(t)
  {
    var p1: seq<Byte> := [116, 104, 48];
    var p2: seq<Byte> := [104, 48];
    var p3: seq<Byte> := [48];
    assert ([101] + p1 + t)[1..] == p1 + t && (p1 + t)[1..] == p2 + t;
    assert (p2 + t)[1..] == p3 + t && (p3 + t)[1..] == t;
    var payload: seq<Byte> := [101, 116, 104, 48];
    assert payload + t == [101] + p1 + t;
    assert CString(p3 + t) == "0" + CString(t);
    assert CString(p2 + t) == "h" + CString(p3 + t);
    assert CString(p1 + t) == "t" + CString(p2 + t);
    assert CString(payload + t) == "e" + CString(p1 + t);
  }

  /** Each of the two decodes to different events over different memory. */
  lemma {:induction false} EventsDiffer(sequence: U32, index: U32)
    ensures EmptyLocal(sequence, index).Valid() && BareName(sequence, index).Valid()
    ensures var m := EmptyLocal(sequence, index).Encode(); EventOf(m + ZEROS) != EventOf(m + ONES)
    ensures var m := BareName(sequence, index).Encode(); EventOf(m + ZEROS) != EventOf(m + ONES)
  {
    hide EventOf, CString;
    EmptyLocalReadsStaleBytes(sequence, index, ZEROS);
    EmptyLocalReadsStaleBytes(sequence, index, ONES);
    assert ZEROS[..4][0] == 0 && ONES[..4][0] == 1;
    BareNameReadsStaleBytes(sequence, index, ZEROS);
    BareNameReadsStaleBytes(sequence, index, ONES);
    ZerosAndOnes();
  }

  /** A receive buffer with a stuck frame at offset 20, and 17 bytes in front. */
  function StuckBuffer(n: nat): seq<Byte> {
    Zeros(20) + (PutU32(0xFFFF_FFFD) + Zeros(n))
  }

  function StuckDatagram(): seq<Byte> {
    PutU32(17) + Zeros(13)
  }

  lemma StuckWalk(n: nat)
    ensures var filled := Filled(StuckBuffer(n), StuckDatagram());
            var w := WalkFrom(Cursor(filled, 17));
            && w.hangs && |w.frames| == 2
            && forall i | 0 <= i < 2 :: MsgType(w.frames[i].view) == 0
  {
    hide U32At, PutU32, WalkFrom;
    var stale := PutU32(0xFFFF_FFFD) + Zeros(n);
    var filled := Filled(StuckBuffer(n), StuckDatagram());
    assert filled == PutU32(17) + Zeros(16) + stale;
    StuckFrameHangs(0xFFFF_FFFD, Zeros(n));
    var w := WalkFrom(Cursor(filled, 17));
    assert Views(w.frames)[0] == w.frames[0].view && Views(w.frames)[1] == w.frames[1].view;
  }

  /** Seventeen bytes received over such a buffer make a request spin for ever. */
  lemma {:induction false} StuckFrameSpins(cfg: Config, learned: seq<Event>, n: nat)
    ensures ReadRun(cfg, learned, StuckBuffer(n), [Datagram(StuckDatagram())]) == Session(learned, Spinning)
  {
    hide WalkFrom, MsgType, SeqNo, EventOf, StuckBuffer, StuckDatagram;
    StuckWalk(n);
    var filled := Filled(StuckBuffer(n), StuckDatagram());
    StuckSizes(n);
    var w := WalkFrom(Cursor(filled, 17));
    var views := Views(w.frames);
    assert MsgType(views[0]) == 0 && MsgType(views[1]) == 0;
    assert views == [views[0], views[1]] && views[1..] == [views[1]];
    var none: seq<seq<Byte>> := views[1..][1..];
    assert none == [];
    TypeZeroIsIgnored(cfg, learned, views[0]);
    TypeZeroIsIgnored(cfg, learned, views[1]);
    assert Run(cfg, learned, views[1..][1..]) == Progress(learned, None);
    assert Run(cfg, learned, views[1..]) == Progress(learned, None);
    assert Run(cfg, learned, views) == Progress(learned, None);
  }

  lemma StuckSizes(n: nat)
    ensures |StuckDatagram()| == 17 && |StuckBuffer(n)| == 24 + n
  {
    hide PutU32;
  }

  lemma TypeZeroIsIgnored(cfg: Config, learned: seq<Event>, m: seq<Byte>)
    requires MsgType(m) == 0
    ensures Step(cfg, learned, m) == Progress(learned, None) && !Qualifies(m)
  {
    hide MsgType, SeqNo, RouteOf, LinkOf, AddressEventOf, NeighborOf;
  }

  /** And a listener never reads again, though nobody stopped it. */
  lemma {:induction false} StuckFrameSilences(stops: nat -> bool, s: ListenerState, n: nat)
    requires s.running && s.outstanding == 1 && s.buffer == StuckBuffer(n)
    ensures var t := Next(stops, s, ReadDone(Received(StuckDatagram())));
            t.spinning && t.running && t.outstanding == 0 && t.emitted == s.emitted
  {
    hide WalkFrom, MsgType, StuckBuffer, StuckDatagram;
    StuckWalk(n);
    StuckSizes(n);
    var w := WalkFrom(Cursor(Filled(s.buffer, StuckDatagram()), 17));
    var views := Views(w.frames);
    var cfg := Config(RouteDump, 0);
    assert MsgType(views[0]) == 0 && MsgType(views[1]) == 0;
    TypeZeroIsIgnored(cfg, [], views[0]);
    TypeZeroIsIgnored(cfg, [], views[1]);
    assert views == [views[0], views[1]] && views[1..] == [views[1]];
    var none: seq<seq<Byte>> := views[1..][1..];
    assert none == [];
    assert Emissions(views[1..]) == [];
    assert Emissions(views) == [];
    NeverStopped(stops, |s.emitted|);
    assert s.emitted + [] == s.emitted;
  }
}
