/**
 The neighbour request builder: a struct filled field by field, of which the
 first nlmsg_len bytes are sent.
 */
module NeighborRequests {
  import opened Bytes
  import opened Wire
  import opened Framing
  import opened Attributes
  import opened Messages
  import opened Events
  import opened EventLaws
  import opened FixedParts
  import opened Tasks
  import opened Text

  const ADDRESS_BYTES := 16

  const NUD_PROBE: U16 := 0x10
  const NTF_USE: Byte := 0x01

  /** The message type of a neighbour operation's request. */
  function RequestType(kind: TaskKind): U16
    requires kind.IsNeighbor()
  {
    match kind
    case NeighborFlush => RTM_DELNEIGH
    case NeighborProbe => RTM_NEWNEIGH
    case _ => RTM_GETNEIGH
  }

  function RequestFlags(kind: TaskKind): U16
    requires kind.IsNeighbor()
  {
    match kind
    case NeighborDump => NLM_F_REQUEST + NLM_F_DUMP
    case NeighborFlush => NLM_F_REQUEST + NLM_F_ACK
    case NeighborProbe => NLM_F_REQUEST + NLM_F_ACK + NLM_F_CREATE + NLM_F_REPLACE
    case _ => NLM_F_REQUEST
  }

  /** The message that a request stands for: the destination attribute is there
      exactly when an interface is named. */
  function RequestMessage(ifindex: U16, sequence: U32, msgType: U16, flags: U16,
                          state: U16, ndmFlags: Byte, address: seq<Byte>): Message
  {
    Message(msgType, flags, sequence, 0,
            NdMsg(RTN_UNSPEC, ifindex, state, ndmFlags, RTN_UNSPEC).Encode(),
            if ifindex == 0 then [] else [Attribute(NDA_DST, address, [])])
  }

  class NeighborTask {
    const ifindex: U16
    const sequence: U32
    const address: array<Byte>

    // request_, member by member
    var header: Header
    var message: NdMsg
    var dstLen: U16
    var dstType: U16
    const dst: array<Byte>

    ghost predicate Valid() {
      address.Length == ADDRESS_BYTES && dst.Length == ADDRESS_BYTES && address != dst
    }

    /** The constructors of the get, probe and flush tasks copy the address. */
    constructor (ifindex: U16, sequence: U32, address: seq<Byte>)
      requires |address| == ADDRESS_BYTES
      ensures Valid() && fresh(this.address) && fresh(dst)
      ensures this.ifindex == ifindex && this.sequence == sequence
      ensures this.address[..] == address
      ensures header.len == 0 && dstLen == 0
    {
      this.ifindex, this.sequence := ifindex, sequence;
      this.address := new Byte[ADDRESS_BYTES];
      header := Header(0, 0, 0, 0, 0);
      message := NdMsg(0, 0, 0, 0, 0);
      dstLen, dstType := 0, 0;
      dst := new Byte[ADDRESS_BYTES];
      new;
      for i := 0 to ADDRESS_BYTES
        invariant forall k | 0 <= k < i :: this.address[k] == address[k]
        modifies this.address
      {
        this.address[i] := address[i];
      }
      forall i | 0 <= i < ADDRESS_BYTES {
        dst[i] := 0;
      }
    }

    /** The bytes of request_ as they lie in memory. */
    function Struct(): seq<Byte>
      reads this, dst
    {
      EncodeHeader(header) + message.Encode() + PutU16(dstLen) + PutU16(dstType) + dst[..]
    }

    /** request_payload: the first nlmsg_len bytes of request_. */
    function RequestPayload(): (s: seq<Byte>)
      reads this, dst
      ensures |s| == header.len
    {
      Slice(Struct(), 0, header.len)
    }

    method BuildRequest(msgType: U16, flags: U16, state: U16, ndmFlags: Byte, from: array<Byte>)
      requires Valid() && from.Length == ADDRESS_BYTES
      modifies this, dst
      ensures header.len <= |Struct()|
      ensures RequestMessage(ifindex, sequence, msgType, flags, state, ndmFlags, old(from[..])).Valid()
      ensures RequestPayload()
           == RequestMessage(ifindex, sequence, msgType, flags, state, ndmFlags, old(from[..])).Encode()
    {
      hide EncodeHeader, PutU16, PutU32;
      ghost var bytes := from[..];
      header := header.(len := HEADER_SIZE + NEIGHBOR_SIZE);
      header := header.(msgType := msgType);
      header := header.(flags := flags);
      header := header.(seqNo := sequence);
      header := header.(pid := 0);

      message := message.(family := RTN_UNSPEC);
      message := message.(ifindex := ifindex);
      message := message.(state := state);
      message := message.(flags := ndmFlags);
      message := message.(ndmType := RTN_UNSPEC);

      ghost var msg := RequestMessage(ifindex, sequence, msgType, flags, state, ndmFlags, bytes);
      if ifindex == 0 {
        assert Struct()[..header.len] == msg.Encode();
        return;
      }
      dstType := NDA_DST;
      dstLen := RTATTR_SIZE + ADDRESS_BYTES;
      forall i | 0 <= i < ADDRESS_BYTES {
        dst[i] := from[i];
      }
      var payload := NlmsgAlign(header.len);
      header := header.(len := payload + Align4(dstLen));
      assert EncodeAttrs(msg.attrs) == PutU16(20) + PutU16(NDA_DST) + bytes by {
        assert msg.attrs[1..] == [];
        assert EncodeAttr(msg.attrs[0]) == PutU16(20) + PutU16(NDA_DST) + bytes + Zeros(0);
      }
      assert dst[..] == bytes;
      assert Struct()[..header.len] == msg.Encode();
    }

    /** prepare_request of the four neighbour tasks. */
    method PrepareRequest(kind: TaskKind)
      requires Valid() && kind.IsNeighbor()
      modifies this, dst
      ensures header.len <= |Struct()|
      ensures var state := if kind == NeighborProbe then NUD_PROBE else 0;
              var ndmFlags := if kind == NeighborProbe then NTF_USE else 0;
              var from := if kind == NeighborDump then Zeros(ADDRESS_BYTES) else old(address[..]);
              var msg := RequestMessage(ifindex, sequence, RequestType(kind), RequestFlags(kind), state, ndmFlags, from);
              msg.Valid() && RequestPayload() == msg.Encode()
    {
      hide EncodeHeader, EncodeAttrs, PutU16, PutU32;
      match kind {
        case NeighborDump =>
          header := Header(0, 0, 0, 0, 0);
          message := NdMsg(0, 0, 0, 0, 0);
          dstLen, dstType := 0, 0;
          forall i | 0 <= i < ADDRESS_BYTES {
            dst[i] := 0;
          }
          assert dst[..] == Zeros(ADDRESS_BYTES);
          BuildRequest(RTM_GETNEIGH, NLM_F_REQUEST + NLM_F_DUMP, 0, 0, dst);
        case NeighborGet =>
          BuildRequest(RTM_GETNEIGH, NLM_F_REQUEST, 0, 0, address);
        case NeighborFlush =>
          BuildRequest(RTM_DELNEIGH, NLM_F_REQUEST + NLM_F_ACK, 0, 0, address);
        case NeighborProbe =>
          BuildRequest(RTM_NEWNEIGH, NLM_F_REQUEST + NLM_F_ACK + NLM_F_CREATE + NLM_F_REPLACE,
                       NUD_PROBE, NTF_USE, address);
      }
    }
  }

  /** A request decodes, through the same walks, to what it was built from: one
      frame, the same header and fixed part, and the destination attribute with
      the address (48 bytes) or no attribute at all (28 bytes). */
  lemma {:induction false} RequestRoundTrip(ifindex: U16, sequence: U32, msgType: U16, flags: U16,
                                            state: U16, ndmFlags: Byte, address: seq<Byte>, stale: seq<Byte>)
    requires |address| == ADDRESS_BYTES
    ensures var msg := RequestMessage(ifindex, sequence, msgType, flags, state, ndmFlags, address);
            && msg.Valid()
            && var bytes := msg.Encode();
            && |bytes| == (if ifindex == 0 then 28 else 48)
            && var views := Views(WalkFrom(Cursor(bytes + stale, |bytes|)).frames);
            && |views| == 1
            && Parse(views[0], NEIGHBOR_SIZE)
               == (Header(|bytes|, msgType, flags, sequence, 0), msg.fixed,
                   if ifindex == 0 then [] else [Attribute(NDA_DST, address, [])])
  {
    hide WalkFrom, Parse, EncodeAttr;
    RequestSize(ifindex, sequence, msgType, flags, state, ndmFlags, address);
    OneMessageRoundTrip(RequestMessage(ifindex, sequence, msgType, flags, state, ndmFlags, address), stale);
  }

  lemma RequestSize(ifindex: U16, sequence: U32, msgType: U16, flags: U16,
                    state: U16, ndmFlags: Byte, address: seq<Byte>)
    requires |address| == ADDRESS_BYTES
    ensures var msg := RequestMessage(ifindex, sequence, msgType, flags, state, ndmFlags, address);
            msg.Valid() && |msg.Encode()| == if ifindex == 0 then 28 else 48
  {
    var msg := RequestMessage(ifindex, sequence, msgType, flags, state, ndmFlags, address);
    assert Encodable(msg.attrs);
    if ifindex != 0 {
      assert msg.attrs[1..] == [];
      assert |EncodeAttr(msg.attrs[0])| == 20;
      assert EncodeAttrs(msg.attrs) == EncodeAttr(msg.attrs[0]) + EncodeAttrs([]);
    }
  }

  /** What the kernel is asked to install by a probe is the entry a listener
      would see announced: the interface, state and flags asked for. */
  lemma {:induction false} ProbeAnnouncesItself(ifindex: U16, sequence: U32, state: U16, ndmFlags: Byte,
                                                address: seq<Byte>, stale: seq<Byte>)
    requires |address| == ADDRESS_BYTES
    ensures var msg := RequestMessage(ifindex, sequence, RTM_NEWNEIGH,
                                      RequestFlags(NeighborProbe), state, ndmFlags, address);
            && msg.Valid()
            && EventOf(msg.Encode() + stale)
               == Neighbor(NeighborEvent(New, ifindex, RTN_UNSPEC, state, ndmFlags, RTN_UNSPEC, NoAddress, ""))
  {
    hide NeighborFrom, U16At, U32At, PutU16, PutU32, EncodeHeader, EncodeAttrs, EventOf;
    var msg := RequestMessage(ifindex, sequence, RTM_NEWNEIGH, RequestFlags(NeighborProbe), state, ndmFlags, address);
    RequestSize(ifindex, sequence, RTM_NEWNEIGH, RequestFlags(NeighborProbe), state, ndmFlags, address);
    EncodedEvent(msg, stale);
    var ndmsg := NdMsg(RTN_UNSPEC, ifindex, state, ndmFlags, RTN_UNSPEC);
    NeighborFields(ndmsg, New, msg.attrs);
    NoHwAddr(msg.attrs);
  }

  lemma NoHwAddr(attrs: seq<Attribute>)
    requires forall a | a in attrs :: a.rtaType == NDA_DST
    ensures LastHwAddr(attrs, NDA_LLADDR) == ""
    ensures LastAddress(attrs, NDA_DST, RTN_UNSPEC) == NoAddress
  {
    LastOfIsLast(attrs, NDA_LLADDR);
  }
}
