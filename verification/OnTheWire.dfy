/**
 The wire in numbers: what each request is, byte by byte, and what messages with
 given bytes decode to, field by field. Type numbers, flags, sizes and limits are
 written out here instead of by name.
 */
module OnTheWire {
  import opened Wrappers
  import opened Bytes
  import opened Wire
  import opened Attributes
  import opened Messages
  import opened Text
  import opened Events
  import opened EventLaws
  import opened FixedParts
  import opened Tasks
  import opened NeighborRequests
  import opened Requests
  import opened Refinement
  import opened Listeners

  /** The bytes of a neighbour request: `head` is its type and flags, `state` the
      last four bytes of its fixed part. */
  function NeighborInBytes(head: seq<Byte>, ifindex: U16, sequence: U32, state: seq<Byte>, address: seq<Byte>): seq<Byte> {
    if ifindex == 0 then
      [28, 0, 0, 0] + head + PutU32(sequence) + [0, 0, 0, 0] + [0, 0, 0, 0] + [0, 0, 0, 0] + state
    else
      [48, 0, 0, 0] + head + PutU32(sequence) + [0, 0, 0, 0] + [0, 0, 0, 0]
      + [ifindex % 0x100, ifindex / 0x100, 0, 0] + state + [20, 0, 1, 0] + address
  }

  /** Every operation's request, byte by byte. */
  function RequestInBytes(kind: TaskKind, ifindex: U16, sequence: U32, address: seq<Byte>): seq<Byte> {
    var interface := [ifindex % 0x100, ifindex / 0x100, 0, 0];
    match kind
    case RouteDump =>
      [28, 0, 0, 0, 26, 0, 1, 3] + PutU32(sequence) + [0, 0, 0, 0] + [0, 0, 0, 0, 254, 0, 0, 0, 0, 0, 0, 0]
    case AddressDump =>
      [24, 0, 0, 0, 22, 0, 1, 3] + PutU32(sequence) + [0, 0, 0, 0] + [0, 0, 0, 0] + interface
    case LinkDump =>
      [32, 0, 0, 0, 18, 0, 1, 3] + PutU32(sequence) + [0, 0, 0, 0] + [0, 0, 0, 0] + interface
      + [0, 0, 0, 0, 0, 0, 0, 0]
    case NeighborDump => NeighborInBytes([30, 0, 1, 3], ifindex, sequence, [0, 0, 0, 0], Zeros(16))
    case NeighborGet => NeighborInBytes([30, 0, 1, 0], ifindex, sequence, [0, 0, 0, 0], address)
    case NeighborFlush => NeighborInBytes([29, 0, 5, 0], ifindex, sequence, [0, 0, 0, 0], address)
    case NeighborProbe => NeighborInBytes([28, 0, 5, 5], ifindex, sequence, [16, 0, 1, 0], address)
  }

  lemma SmallNumbers()
    ensures PutU32(20) == [20, 0, 0, 0] && PutU32(24) == [24, 0, 0, 0] && PutU32(28) == [28, 0, 0, 0]
    ensures PutU32(32) == [32, 0, 0, 0] && PutU32(48) == [48, 0, 0, 0] && PutU32(0) == [0, 0, 0, 0]
    ensures forall n: U16 :: PutU32(n) == [n % 0x100, n / 0x100, 0, 0]
  {
  }

  lemma SmallHalves()
    ensures PutU16(0) == [0, 0] && PutU16(1) == [1, 0] && PutU16(5) == [5, 0] && PutU16(16) == [16, 0]
    ensures PutU16(0x301) == [1, 3] && PutU16(0x505) == [5, 5]
    ensures PutU16(18) == [18, 0] && PutU16(22) == [22, 0] && PutU16(26) == [26, 0]
    ensures PutU16(28) == [28, 0] && PutU16(29) == [29, 0] && PutU16(30) == [30, 0]
  {
  }

  lemma BytesOf(msg: Message)
    requires msg.Valid()
    ensures msg.Encode() == PutU32(msg.Size()) + PutU16(msg.msgType) + PutU16(msg.flags)
                            + PutU32(msg.seqNo) + PutU32(msg.pid) + msg.fixed + EncodeAttrs(msg.attrs)
  {
    hide PutU32, PutU16, EncodeAttrs;
  }

  lemma NeighborBytes(ifindex: U16, sequence: U32, msgType: U16, flags: U16, state: U16, ndmFlags: Byte,
                      address: seq<Byte>)
    requires |address| == 16
    ensures var msg := RequestMessage(ifindex, sequence, msgType, flags, state, ndmFlags, address);
            && msg.Valid()
            && msg.Encode() == NeighborInBytes(PutU16(msgType) + PutU16(flags), ifindex, sequence,
                                               PutU16(state) + [ndmFlags, 0], address)
  {
    hide PutU16, PutU32, EncodeHeader, EncodeAttr;
    var msg := RequestMessage(ifindex, sequence, msgType, flags, state, ndmFlags, address);
    RequestSize(ifindex, sequence, msgType, flags, state, ndmFlags, address);
    SmallNumbers();
    BytesOf(msg);
    if ifindex != 0 {
      assert msg.attrs[1..] == [];
      assert EncodeAttrs(msg.attrs) == EncodeAttr(msg.attrs[0]) + EncodeAttrs([]);
      AttributeBytes(address);
    }
  }

  lemma AttributeBytes(address: seq<Byte>)
    requires |address| == 16
    ensures EncodeAttr(Attribute(NDA_DST, address, [])) == [20, 0, 1, 0] + address
  {
  }

  lemma RouteDumpInBytes(ifindex: U16, sequence: U32, address: seq<Byte>)
    ensures var msg := RequestFor(RouteDump, ifindex, sequence, address);
            msg.Valid() && msg.Encode() == RequestInBytes(RouteDump, ifindex, sequence, address)
  {
    hide PutU32, PutU16, EncodeHeader, NeighborInBytes, RequestMessage;
    SmallNumbers();
    SmallHalves();
    BytesOf(RequestFor(RouteDump, ifindex, sequence, address));
  }

  lemma AddressDumpInBytes(ifindex: U16, sequence: U32, address: seq<Byte>)
    ensures var msg := RequestFor(AddressDump, ifindex, sequence, address);
            msg.Valid() && msg.Encode() == RequestInBytes(AddressDump, ifindex, sequence, address)
  {
    hide PutU32, PutU16, EncodeHeader, NeighborInBytes, RequestMessage;
    SmallNumbers();
    SmallHalves();
    BytesOf(RequestFor(AddressDump, ifindex, sequence, address));
  }

  lemma LinkDumpInBytes(ifindex: U16, sequence: U32, address: seq<Byte>)
    ensures var msg := RequestFor(LinkDump, ifindex, sequence, address);
            msg.Valid() && msg.Encode() == RequestInBytes(LinkDump, ifindex, sequence, address)
  {
    hide PutU32, PutU16, EncodeHeader, NeighborInBytes, RequestMessage;
    SmallNumbers();
    SmallHalves();
    BytesOf(RequestFor(LinkDump, ifindex, sequence, address));
  }

  /** What each operation sends, in bytes: type, flags, sequence number, fixed part
      and attribute. */
  lemma {:induction false} RequestsInBytes(kind: TaskKind, ifindex: U16, sequence: U32, address: seq<Byte>)
    requires |address| == 16
    ensures var msg := RequestFor(kind, ifindex, sequence, address);
            msg.Valid() && msg.Encode() == RequestInBytes(kind, ifindex, sequence, address)
  {
    if kind.IsNeighbor() {
      NeighborRequestInBytes(kind, ifindex, sequence, address);
    } else {
      hide RequestFor, RequestInBytes;
      RouteDumpInBytes(ifindex, sequence, address);
      AddressDumpInBytes(ifindex, sequence, address);
      LinkDumpInBytes(ifindex, sequence, address);
    }
  }

  lemma NeighborRequestInBytes(kind: TaskKind, ifindex: U16, sequence: U32, address: seq<Byte>)
    requires |address| == 16 && kind.IsNeighbor()
    ensures var msg := RequestFor(kind, ifindex, sequence, address);
            msg.Valid() && msg.Encode() == RequestInBytes(kind, ifindex, sequence, address)
  {
    hide PutU32, PutU16, NeighborInBytes, RequestMessage, EncodeHeader, EncodeAttrs;
    SmallHalves();
    assert PutU16(0) + [0, 0] == [0, 0, 0, 0] && PutU16(16) + [1, 0] == [16, 0, 1, 0];
    assert PutU16(30) + PutU16(0x301) == [30, 0, 1, 3] && PutU16(30) + PutU16(1) == [30, 0, 1, 0];
    assert PutU16(29) + PutU16(5) == [29, 0, 5, 0] && PutU16(28) + PutU16(0x505) == [28, 0, 5, 5];
    var from := if kind == NeighborDump then Zeros(16) else address;
    var state, ndmFlags: Byte := if kind == NeighborProbe then 16 else 0, if kind == NeighborProbe then 1 else 0;
    NeighborBytes(ifindex, sequence, RequestType(kind), RequestFlags(kind), state, ndmFlags, from);
  }

  /** The address that bytes of the right width stand for. */
  function Plain(family: Byte, bytes: seq<Byte>): Address {
    if family == 2 then Inet(bytes) else Inet6(bytes)
  }

  /** Bytes of the width of an IPv4 or IPv6 address. */
  predicate Wide(family: Byte, bytes: seq<Byte>) {
    (family == 2 && |bytes| == 4) || (family == 10 && |bytes| == 16)
  }

  lemma {:induction false} LastOfDistinct(attrs: seq<Attribute>, i: nat)
    requires DistinctTypes(attrs) && i < |attrs|
    ensures LastOf(attrs, attrs[i].rtaType) == Some(attrs[i])
  {
    hide LastOf;
    LastOfIsLast(attrs, attrs[i].rtaType);
  }

  lemma {:induction false} EncodedSize(attrs: seq<Attribute>)
    requires Encodable(attrs)
    ensures |EncodeAttrs(attrs)| <= 0x1_0004 * |attrs|
    decreases |attrs|
  {
    hide EncodeAttr;
    if attrs != [] {
      EncodedSize(attrs[1..]);
    }
  }

  lemma WideIsRead(family: Byte, a: Attribute)
    requires Wide(family, a.payload)
    ensures AddressWidth(family) == |a.payload| && AddressOf(a, family) == Plain(family, a.payload)
  {
    AddressIsLeadingBytes(a, family);
    assert a.payload[..|a.payload|] == a.payload;
  }

  lemma WordIsRead(ty: U16, n: U32)
    ensures U32Of(Attribute(ty, PutU32(n), [])) == n
  {
    hide U32Of, PutU32;
    U32OfWord(ty, n, [], []);
    assert PutU32(n) + [] == PutU32(n);
  }

  /** A route message with every attribute the decoder reads. */
  function RouteMessage(deleted: bool, flags: U16, seqNo: U32, pid: U32, f: RtMsg, table: U32, priority: U32,
                        oif: U32, dst: seq<Byte>, src: seq<Byte>, gateway: seq<Byte>, prefsrc: seq<Byte>): Message {
    Message(if deleted then 25 else 24, flags, seqNo, pid,
            [f.family, f.dstLen, f.srcLen, f.tos, f.table, f.protocol, f.scope, f.rtType] + PutU32(f.flags),
            [Attribute(15, PutU32(table), []), Attribute(1, dst, []), Attribute(2, src, []),
             Attribute(5, gateway, []), Attribute(7, prefsrc, []), Attribute(4, PutU32(oif), []),
             Attribute(6, PutU32(priority), [])])
  }

  /** It decodes to exactly those numbers and bytes, each in its field, and a dump
      keeps it exactly when it is in table 254 with an interface in 1..65535. */
  lemma {:induction false} RouteOnTheWire(deleted: bool, flags: U16, seqNo: U32, pid: U32, f: RtMsg, table: U32,
                                          priority: U32, oif: U32, dst: seq<Byte>, src: seq<Byte>,
                                          gateway: seq<Byte>, prefsrc: seq<Byte>, t: seq<Byte>)
    requires Wide(f.family, dst) && Wide(f.family, src) && Wide(f.family, gateway) && Wide(f.family, prefsrc)
    ensures var msg := RouteMessage(deleted, flags, seqNo, pid, f, table, priority, oif, dst, src, gateway, prefsrc);
            && Sound(msg)
            && EventOf(msg.Encode() + t)
               == Route(RouteEvent(
                          if deleted then Deleted else New, f.family, f.dstLen, f.srcLen, f.scope, f.protocol, f.rtType,
                          f.flags, table, priority, oif, Plain(f.family, dst), Plain(f.family, src),
                          Plain(f.family, gateway), Plain(f.family, prefsrc), if oif == 0 then "" else Decimal(oif)))
            && (RowOf(RouteDump, msg.Encode()).Some? <==> !deleted && table == 254 && 1 <= oif <= 65535)
  {
    hide PutU32, EventOf, U32At, RowOf, RouteFrom, Plain, Wide, Decimal, U32Of, Sound, Message.Valid, Contained;
    var msg := RouteMessage(deleted, flags, seqNo, pid, f, table, priority, oif, dst, src, gateway, prefsrc);
    assert msg.fixed == f.Encode();
    var attrs := msg.attrs;
    assert forall i | 0 <= i < 7 :: attrs[i].rtaType == [15, 1, 2, 5, 7, 4, 6][i];
    RouteParts(msg, f, if deleted then Deleted else New);
    WordIsRead(15, table);
    WordIsRead(4, oif);
    WordIsRead(6, priority);
    SevenAreSound(msg, f);
    EncodedEvent(msg, t);
    SoundRow(RouteDump, msg);
  }

  lemma SevenAreSound(msg: Message, f: RtMsg)
    requires msg.msgType in {24, 25} && msg.fixed == f.Encode() && |msg.attrs| == 7
    requires forall i | 0 <= i < 7 ::
               && msg.attrs[i].beyond == [] && |msg.attrs[i].payload| <= 16
               && (1 <= i <= 4 ==> AddressWidth(f.family) == |msg.attrs[i].payload|)
               && (!(1 <= i <= 4) ==> msg.attrs[i].rtaType in {15, 4, 6})
    ensures msg.Valid() && Sound(msg) && Contained(msg.msgType, f.family, msg.attrs) && At(msg.fixed, 0) == f.family
  {
    hide PutU32, EncodeAttrs;
    EncodedSize(msg.attrs);
  }

  /** The event of the seven attributes, told apart by their types. */
  lemma RouteParts(msg: Message, f: RtMsg, change: Change)
    requires |msg.attrs| == 7 && forall i | 0 <= i < 7 :: msg.attrs[i].rtaType == [15, 1, 2, 5, 7, 4, 6][i]
    requires msg.attrs[1].beyond == msg.attrs[2].beyond == msg.attrs[3].beyond == msg.attrs[4].beyond == []
    requires forall i | 1 <= i <= 4 :: Wide(f.family, msg.attrs[i].payload)
    ensures forall i | 1 <= i <= 4 :: AddressWidth(f.family) == |msg.attrs[i].payload|
    ensures RouteFrom(change, f.Encode(), msg.attrs)
            == var oif := U32Of(msg.attrs[5]);
               RouteEvent(change, f.family, f.dstLen, f.srcLen, f.scope, f.protocol, f.rtType, f.flags,
                          U32Of(msg.attrs[0]), U32Of(msg.attrs[6]), oif,
                          Plain(f.family, msg.attrs[1].payload), Plain(f.family, msg.attrs[2].payload),
                          Plain(f.family, msg.attrs[3].payload), Plain(f.family, msg.attrs[4].payload),
                          if oif == 0 then "" else Decimal(oif))
  {
    hide U32Of, AddressOf, LastOf, Decimal, RouteFrom, Wide, Plain;
    forall i | 0 <= i < 7
      ensures LastOf(msg.attrs, msg.attrs[i].rtaType) == Some(msg.attrs[i])
    {
      LastOfDistinct(msg.attrs, i);
    }
    assert msg.attrs[0].rtaType == 15 && msg.attrs[1].rtaType == 1 && msg.attrs[2].rtaType == 2;
    assert msg.attrs[3].rtaType == 5 && msg.attrs[4].rtaType == 7;
    assert msg.attrs[5].rtaType == 4 && msg.attrs[6].rtaType == 6;
    WideIsRead(f.family, msg.attrs[1]);
    WideIsRead(f.family, msg.attrs[2]);
    WideIsRead(f.family, msg.attrs[3]);
    WideIsRead(f.family, msg.attrs[4]);
    RouteFields(f, change, msg.attrs);
  }

  /** Bytes as the characters they stand for. */
  function AsText(bytes: seq<Byte>): string {
    seq(|bytes|, i requires 0 <= i < |bytes| => bytes[i] as char)
  }

  lemma TextIsRead(ty: U16, bytes: seq<Byte>)
    requires 0 !in bytes
    ensures StringOf(Attribute(ty, bytes + [0], [])) == AsText(bytes)
  {
    hide CString;
    var data := bytes + [0];
    assert data + [] == data;
    CStringIsPrefix(data);
    var n := |CString(data)|;
    forall i | 0 <= i < |bytes|
      ensures data[i] != 0
    {
      assert data[i] == bytes[i] && bytes[i] in bytes;
    }
    assert data[|bytes|] == 0;
    assert n == |bytes|;
  }

  /** A peer address, a label and perhaps a local address. */
  function AddressAttrs(peer: seq<Byte>, local: Option<seq<Byte>>, name: seq<Byte>): seq<Attribute> {
    [Attribute(1, peer, []), Attribute(3, name + [0], [])]
    + (match local case Some(bytes) => [Attribute(2, bytes, [])] case None => [])
  }

  /** An address message with a peer address, perhaps a local one, and a label. */
  function AddressMessage(deleted: bool, flags: U16, seqNo: U32, pid: U32, f: IfAddrMsg, peer: seq<Byte>,
                          local: Option<seq<Byte>>, name: seq<Byte>): Message {
    Message(if deleted then 21 else 20, flags, seqNo, pid,
            [f.family, f.prefixLen, f.flags, f.scope] + PutU32(f.index), AddressAttrs(peer, local, name))
  }

  /** It decodes to the local address if there is one and to the peer address
      otherwise, and a dump keeps it exactly when its index is in 1..65535. */
  lemma {:induction false} AddressOnTheWire(deleted: bool, flags: U16, seqNo: U32, pid: U32, f: IfAddrMsg,
                                            peer: seq<Byte>, local: Option<seq<Byte>>, name: seq<Byte>, t: seq<Byte>)
    requires Wide(f.family, peer) && (local.Some? ==> Wide(f.family, local.value))
    requires 0 !in name && |name| + 5 < 0x1_0000
    ensures var msg := AddressMessage(deleted, flags, seqNo, pid, f, peer, local, name);
            && Sound(msg)
            && EventOf(msg.Encode() + t)
               == Addr(AddressEvent(
                         if deleted then Deleted else New, ToInt32(f.index), f.prefixLen, f.scope, f.flags, f.family,
                         Plain(f.family, if local.Some? then local.value else peer), AsText(name)))
            && (RowOf(AddressDump, msg.Encode()).Some? <==> !deleted && 1 <= f.index <= 65535)
  {
    hide PutU32, AddressFrom, EventOf, U32At, RowOf, AsText, Plain, StringOf, Sound, Message.Valid, Contained, Wide;
    var msg := AddressMessage(deleted, flags, seqNo, pid, f, peer, local, name);
    assert msg.fixed == f.Encode();
    AddressParts(f, if deleted then Deleted else New, peer, local, name);
    assert (name + [0])[|name|] == 0;
    AddressIsSound(msg, f);
    TextIsRead(3, name);
    EncodedEvent(msg, t);
    SoundRow(AddressDump, msg);
  }

  lemma AddressParts(f: IfAddrMsg, change: Change, peer: seq<Byte>, local: Option<seq<Byte>>, name: seq<Byte>)
    requires Wide(f.family, peer) && (local.Some? ==> Wide(f.family, local.value))
    ensures var attrs := AddressAttrs(peer, local, name);
            && AddressFrom(change, f.Encode(), attrs)
               == AddressEvent(change, ToInt32(f.index), f.prefixLen, f.scope, f.flags, f.family,
                               Plain(f.family, if local.Some? then local.value else peer),
                               StringOf(Attribute(3, name + [0], [])))
            && AddressWidth(f.family) == |peer| && (local.Some? ==> AddressWidth(f.family) == |local.value|)
  {
    hide AddressOf, AddressFrom, StringOf, LastOf, Wide;
    var attrs := AddressAttrs(peer, local, name);
    assert attrs[0].rtaType == 1 && attrs[1].rtaType == 3;
    WideIsRead(f.family, attrs[0]);
    LastOfDistinct(attrs, 0);
    LastOfDistinct(attrs, 1);
    if local.Some? {
      WideIsRead(f.family, attrs[2]);
      LastOfDistinct(attrs, 2);
    } else {
      BaseWithoutAttribute(attrs, 2, f.family, 0);
    }
    AddressFields(f, change, attrs);
  }

  lemma AddressIsSound(msg: Message, f: IfAddrMsg)
    requires msg.msgType in {20, 21} && msg.fixed == f.Encode() && |msg.attrs| <= 3
    requires forall a | a in msg.attrs ::
               && a.beyond == [] && |a.payload| + 4 < 0x1_0000
               && (a.rtaType in {1, 2} ==> AddressWidth(f.family) == |a.payload|)
               && (a.rtaType == 3 ==> 0 in a.payload)
    ensures msg.Valid() && Sound(msg) && Contained(msg.msgType, f.family, msg.attrs) && At(msg.fixed, 0) == f.family
  {
    hide PutU32, EncodeAttrs;
    EncodedSize(msg.attrs);
  }

  /** A link message with a name. */
  function LinkMessage(deleted: bool, flags: U16, seqNo: U32, pid: U32, f: IfInfoMsg, name: seq<Byte>): Message {
    Message(if deleted then 17 else 16, flags, seqNo, pid,
            [f.family, 0] + PutU16(f.deviceType) + PutU32(f.index) + PutU32(f.flags) + PutU32(f.change),
            [Attribute(3, name + [0], [])])
  }

  /** It decodes to its index, flags, change mask and name, and a dump keeps it
      exactly when its index is in 1..65535. */
  lemma {:induction false} LinkOnTheWire(deleted: bool, flags: U16, seqNo: U32, pid: U32, f: IfInfoMsg,
                                         name: seq<Byte>, t: seq<Byte>)
    requires 0 !in name && |name| + 5 < 0x1_0000
    ensures var msg := LinkMessage(deleted, flags, seqNo, pid, f, name);
            && Sound(msg)
            && EventOf(msg.Encode() + t)
               == Link(LinkEvent(if deleted then Deleted else New, ToInt32(f.index), f.flags, f.change, AsText(name)))
            && (RowOf(LinkDump, msg.Encode()).Some? <==> !deleted && 1 <= f.index <= 65535)
  {
    hide PutU32, PutU16, StringOf, EventOf, EncodeAttrs, U32At, RowOf, AsText, FirstName;
    var msg := LinkMessage(deleted, flags, seqNo, pid, f, name);
    EncodedSize(msg.attrs);
    TextIsRead(3, name);
    assert (name + [0])[|name|] == 0;
    FirstFilledWins([], msg.attrs[0], []);
    assert [] + [msg.attrs[0]] + [] == msg.attrs;
    assert msg.fixed == f.Encode();
    EncodedEvent(msg, t);
    SoundRow(LinkDump, msg);
    LinkFields(f, if deleted then Deleted else New, msg.attrs);
  }

  /** A neighbour message with a destination and a hardware address. */
  function NeighborMessage(deleted: bool, flags: U16, seqNo: U32, pid: U32, f: NdMsg, dst: seq<Byte>,
                           lladdr: seq<Byte>): Message {
    Message(if deleted then 29 else 28, flags, seqNo, pid,
            [f.family, 0, 0, 0] + PutU32(f.ifindex) + PutU16(f.state) + [f.flags, f.ndmType],
            [Attribute(1, dst, []), Attribute(2, lladdr, [])])
  }

  /** It decodes to its fields, the destination's bytes and a text that reads back
      as the hardware address; a dump keeps it exactly when its index is in
      1..65535, and a get accepts it exactly when the hardware address is there. */
  lemma {:induction false} NeighborOnTheWire(deleted: bool, flags: U16, seqNo: U32, pid: U32, f: NdMsg,
                                             dst: seq<Byte>, lladdr: seq<Byte>, t: seq<Byte>)
    requires Wide(f.family, dst) && |lladdr| + 4 < 0x1_0000
    ensures var msg := NeighborMessage(deleted, flags, seqNo, pid, f, dst, lladdr);
            && Sound(msg)
            && EventOf(msg.Encode() + t).Neighbor?
            && var e := EventOf(msg.Encode() + t).neighbor;
            && e == NeighborEvent(if deleted then Deleted else New, ToInt32(f.ifindex), f.family, f.state, f.flags,
                                  f.ndmType, Plain(f.family, dst), e.lladdr)
            && |e.lladdr| == (if lladdr == [] then 0 else 3 * |lladdr| - 1)
            && (forall k | 0 <= k < |lladdr| :: ReadHex(e.lladdr[3 * k], e.lladdr[3 * k + 1]) == Some(lladdr[k]))
            && (forall k | 1 <= k < |lladdr| :: e.lladdr[3 * k - 1] == ':')
            && (RowOf(NeighborDump, msg.Encode()).Some? <==> !deleted && 1 <= f.ifindex <= 65535)
            && (NeighborIn(msg.Encode()).Some? <==> !deleted && lladdr != [])
  {
    hide PutU32, PutU16, AddressOf, HwAddr, LastOf, EventOf, EncodeAttrs, U32At, U16At, RowOf, HasHwAddr, ReadHex,
         NeighborIn;
    var msg := NeighborMessage(deleted, flags, seqNo, pid, f, dst, lladdr);
    EncodedSize(msg.attrs);
    WideIsRead(f.family, msg.attrs[0]);
    LastOfDistinct(msg.attrs, 0);
    LastOfDistinct(msg.attrs, 1);
    assert msg.attrs[0].rtaType == 1 && msg.attrs[1].rtaType == 2;
    assert msg.fixed == f.Encode();
    EncodedEvent(msg, t);
    SoundRow(NeighborDump, msg);
    UsableIsUsed(msg);
    NeighborInIff(msg.Encode());
    NeighborFields(f, if deleted then Deleted else New, msg.attrs);
    HwAddrReadsBack(lladdr);
    if lladdr != [] {
      HwAddrFormat(lladdr);
    }
  }

  /** An error message: the number as a 32-bit word, then the request's header. */
  function ErrorMessage(flags: U16, seqNo: U32, pid: U32, word: U32, request: Header): Message {
    Message(2, flags, seqNo, pid, PutU32(word) + EncodeHeader(request), [])
  }

  /** A listener emits its signed number with both headers; an own one ends a
      request with the number's negation, or as success when it is zero, ENOENT (2)
      for a get. */
  lemma {:induction false} ErrorOnTheWire(flags: U16, seqNo: U32, pid: U32, word: U32, request: Header,
                                          cfg: Config, learned: seq<Event>)
    ensures var msg := ErrorMessage(flags, seqNo, pid, word, request);
            && SoundForListener(msg)
            && Qualifies(msg.Encode())
            && EmissionOf(msg.Encode()) == ErrorSignal(ToInt32(word), request, Header(36, 2, flags, seqNo, pid))
            && (cfg.sequence == seqNo ==>
                  Step(cfg, learned, msg.Encode()).outcome
                  == Some(if ToInt32(word) != 0 then Failed(-ToInt32(word))
                          else if cfg.kind.IsDump() then Rows(learned)
                          else if cfg.kind == NeighborGet then Failed(2) else Acked))
  {
    hide PutU32, U32At, EncodeHeader, HeaderAt, EventOf, Qualifies, EmissionOf, SeqNo, MsgType, ErrorCode;
    var msg := ErrorMessage(flags, seqNo, pid, word, request);
    SoundMessageIsAnnounced(msg);
    ValidMessageReads(msg);
    SoundMessageReads(msg);
    WordInPlace([], word, EncodeHeader(request));
    assert [] + PutU32(word) + EncodeHeader(request) == msg.fixed;
    HeaderRoundTrip(request, []);
    assert From(msg.fixed, 4) == EncodeHeader(request) + [];
  }

  /** DONE ends a dump with its rows and a get with ENOENT (2); a probe or flush
      goes on. */
  lemma {:induction false} DoneOnTheWire(flags: U16, seqNo: U32, pid: U32, word: U32, cfg: Config, learned: seq<Event>)
    requires cfg.sequence == seqNo
    ensures var msg := Message(3, flags, seqNo, pid, PutU32(word), []);
            && msg.Valid()
            && Step(cfg, learned, msg.Encode()).outcome
               == if cfg.kind.IsDump() then Some(Rows(learned))
                  else if cfg.kind == NeighborGet then Some(Failed(2)) else None
  {
    hide PutU32, U32At, EncodeHeader, SeqNo, MsgType, ErrorCode;
    ValidMessageReads(Message(3, flags, seqNo, pid, PutU32(word), []));
  }
}
