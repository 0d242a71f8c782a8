/**
 The requests of all operations: the route, address and link builders, which
 fill a header and a fixed part, and the message each operation asks with.
 */
module Requests {
  import opened Bytes
  import opened Wire
  import opened Framing
  import opened Messages
  import opened FixedParts
  import opened Tasks
  import opened NeighborRequests

  const AF_UNSPEC: Byte := 0
  const RT_SCOPE_UNIVERSE: Byte := 0

  /** The message that an operation asks with. */
  function RequestFor(kind: TaskKind, ifindex: U16, sequence: U32, address: seq<Byte>): Message {
    match kind
    case RouteDump =>
      Message(RTM_GETROUTE, NLM_F_REQUEST + NLM_F_DUMP, sequence, 0,
              RtMsg(AF_UNSPEC, 0, 0, 0, RT_TABLE_MAIN, RTN_UNSPEC, RT_SCOPE_UNIVERSE, RTN_UNSPEC, 0).Encode(), [])
    case AddressDump =>
      Message(RTM_GETADDR, NLM_F_REQUEST + NLM_F_DUMP, sequence, 0,
              IfAddrMsg(AF_UNSPEC, 0, 0, RT_SCOPE_UNIVERSE, ifindex).Encode(), [])
    case LinkDump =>
      Message(RTM_GETLINK, NLM_F_REQUEST + NLM_F_DUMP, sequence, 0,
              IfInfoMsg(AF_UNSPEC, 0, ifindex, 0, 0).Encode(), [])
    case NeighborDump =>
      RequestMessage(ifindex, sequence, RTM_GETNEIGH, NLM_F_REQUEST + NLM_F_DUMP, 0, 0, Zeros(ADDRESS_BYTES))
    case NeighborGet =>
      RequestMessage(ifindex, sequence, RTM_GETNEIGH, NLM_F_REQUEST, 0, 0, address)
    case NeighborFlush =>
      RequestMessage(ifindex, sequence, RTM_DELNEIGH, NLM_F_REQUEST + NLM_F_ACK, 0, 0, address)
    case NeighborProbe =>
      RequestMessage(ifindex, sequence, RTM_NEWNEIGH,
                     NLM_F_REQUEST + NLM_F_ACK + NLM_F_CREATE + NLM_F_REPLACE, NUD_PROBE, NTF_USE, address)
  }

  /** The bytes of a request without attributes. */
  function Payload(header: Header, fixed: seq<Byte>): seq<Byte> {
    Slice(EncodeHeader(header) + fixed, 0, header.len)
  }

  lemma PayloadIsMessage(header: Header, fixed: seq<Byte>)
    requires header.len == HEADER_SIZE + |fixed| && header.len < 0x1000 && |fixed| % 4 == 0 && header.pid == 0
    ensures var msg := Message(header.msgType, header.flags, header.seqNo, 0, fixed, []);
            msg.Valid() && Payload(header, fixed) == msg.Encode()
  {
    hide EncodeHeader;
    var msg := Message(header.msgType, header.flags, header.seqNo, 0, fixed, []);
    assert msg.Header() == header;
    assert msg.Encode() == EncodeHeader(header) + fixed;
  }

  class RouteTask {
    const sequence: U32
    var header: Header
    var message: RtMsg

    constructor (sequence: U32)
      ensures this.sequence == sequence
      ensures message == RtMsg(0, 0, 0, 0, 0, 0, 0, 0, 0)
    {
      this.sequence := sequence;
      header := Header(0, 0, 0, 0, 0);
      message := RtMsg(0, 0, 0, 0, 0, 0, 0, 0, 0);
    }

    method BuildRequest(flags: U16, family: Byte, table: Byte, scope: Byte, protocol: Byte)
      modifies this
      ensures var rt := old(message).(family := family, table := table, scope := scope, protocol := protocol,
                                      rtType := RTN_UNSPEC);
              Payload(header, message.Encode()) == Message(RTM_GETROUTE, flags, sequence, 0, rt.Encode(), []).Encode()
    {
      header := header.(len := HEADER_SIZE + ROUTE_SIZE);
      header := header.(msgType := RTM_GETROUTE);
      header := header.(flags := flags);
      header := header.(seqNo := sequence);
      header := header.(pid := 0);
      message := message.(family := family);
      message := message.(table := table);
      message := message.(scope := scope);
      message := message.(protocol := protocol);
      message := message.(rtType := RTN_UNSPEC);
      PayloadIsMessage(header, message.Encode());
    }
  }

  class AddressTask {
    const ifindex: U16
    const sequence: U32
    var header: Header
    var message: IfAddrMsg

    constructor (ifindex: U16, sequence: U32)
      ensures this.ifindex == ifindex && this.sequence == sequence
    {
      this.ifindex, this.sequence := ifindex, sequence;
      header := Header(0, 0, 0, 0, 0);
      message := IfAddrMsg(0, 0, 0, 0, 0);
    }

    method BuildRequest(flags: U16, family: Byte, prefixLen: Byte, ifaFlags: Byte, scope: Byte)
      modifies this
      ensures Payload(header, message.Encode())
           == Message(RTM_GETADDR, flags, sequence, 0,
                      IfAddrMsg(family, prefixLen, ifaFlags, scope, ifindex).Encode(), []).Encode()
    {
      header := header.(len := HEADER_SIZE + ADDRESS_SIZE);
      header := header.(msgType := RTM_GETADDR);
      header := header.(flags := flags);
      header := header.(seqNo := sequence);
      header := header.(pid := 0);
      message := message.(family := family);
      message := message.(prefixLen := prefixLen);
      message := message.(flags := ifaFlags);
      message := message.(scope := scope);
      message := message.(index := ifindex);
      PayloadIsMessage(header, message.Encode());
    }
  }

  class LinkTask {
    const ifindex: U16
    const sequence: U32
    var header: Header
    var message: IfInfoMsg

    constructor (ifindex: U16, sequence: U32)
      ensures this.ifindex == ifindex && this.sequence == sequence
    {
      this.ifindex, this.sequence := ifindex, sequence;
      header := Header(0, 0, 0, 0, 0);
      message := IfInfoMsg(0, 0, 0, 0, 0);
    }

    method BuildRequest(flags: U16, family: Byte, deviceType: U16, ifiFlags: U32, change: U32)
      modifies this
      ensures Payload(header, message.Encode())
           == Message(RTM_GETLINK, flags, sequence, 0,
                      IfInfoMsg(family, deviceType, ifindex, ifiFlags, change).Encode(), []).Encode()
    {
      header := header.(len := HEADER_SIZE + LINK_SIZE);
      header := header.(msgType := RTM_GETLINK);
      header := header.(flags := flags);
      header := header.(seqNo := sequence);
      header := header.(pid := 0);
      message := message.(family := family);
      message := message.(deviceType := deviceType);
      message := message.(index := ifindex);
      message := message.(flags := ifiFlags);
      message := message.(change := change);
      PayloadIsMessage(header, message.Encode());
    }
  }

  /** prepare_request and request_payload of each operation: the bytes to send. */
  method PrepareRequest(kind: TaskKind, ifindex: U16, sequence: U32, address: seq<Byte>) returns (payload: seq<Byte>)
    requires |address| == ADDRESS_BYTES
    ensures RequestFor(kind, ifindex, sequence, address).Valid()
    ensures payload == RequestFor(kind, ifindex, sequence, address).Encode()
  {
    hide EncodeHeader, Payload, PutU16, PutU32;
    RequestForIsValid(kind, ifindex, sequence, address);
    match kind {
      case RouteDump =>
        var route := new RouteTask(sequence);
        route.BuildRequest(NLM_F_REQUEST + NLM_F_DUMP, RTN_UNSPEC, RT_TABLE_MAIN, RT_SCOPE_UNIVERSE, RTN_UNSPEC);
        payload := Payload(route.header, route.message.Encode());
      case AddressDump =>
        var address := new AddressTask(ifindex, sequence);
        address.BuildRequest(NLM_F_REQUEST + NLM_F_DUMP, RTN_UNSPEC, 0, 0, RT_SCOPE_UNIVERSE);
        payload := Payload(address.header, address.message.Encode());
      case LinkDump =>
        var link := new LinkTask(ifindex, sequence);
        link.BuildRequest(NLM_F_REQUEST + NLM_F_DUMP, AF_UNSPEC, 0, 0, 0);
        payload := Payload(link.header, link.message.Encode());
      case _ =>
        var neighbor := new NeighborTask(ifindex, sequence, address);
        neighbor.PrepareRequest(kind);
        payload := neighbor.RequestPayload();
    }
  }

  lemma RequestForIsValid(kind: TaskKind, ifindex: U16, sequence: U32, address: seq<Byte>)
    requires |address| == ADDRESS_BYTES
    ensures RequestFor(kind, ifindex, sequence, address).Valid()
  {
    hide PutU16, PutU32;
    var msg := RequestFor(kind, ifindex, sequence, address);
    if kind.IsNeighbor() {
      var from := if kind == NeighborDump then Zeros(ADDRESS_BYTES) else address;
      var state := if kind == NeighborProbe then NUD_PROBE else 0;
      var ndmFlags := if kind == NeighborProbe then NTF_USE else 0;
      RequestSize(ifindex, sequence, msg.msgType, msg.flags, state, ndmFlags, from);
    }
  }

  /** Every operation's request, read back through both walks, is one message
      with the operation's type and the request's own sequence number. */
  lemma {:induction false} EveryRequestRoundTrips(kind: TaskKind, ifindex: U16, sequence: U32, address: seq<Byte>,
                                                  stale: seq<Byte>)
    requires |address| == ADDRESS_BYTES
    ensures var msg := RequestFor(kind, ifindex, sequence, address);
            && msg.Valid()
            && var views := Views(WalkFrom(Cursor(msg.Encode() + stale, msg.Size())).frames);
            && |views| == 1
            && Parse(views[0], |msg.fixed|) == (msg.Header(), msg.fixed, msg.attrs)
            && SeqNo(views[0]) == sequence
  {
    hide WalkFrom, Parse, RequestFor, U32At, HeaderAt;
    RequestForIsValid(kind, ifindex, sequence, address);
    var msg := RequestFor(kind, ifindex, sequence, address);
    OneMessageRoundTrip(msg, stale);
    SequenceOfParse(Views(WalkFrom(Cursor(msg.Encode() + stale, msg.Size())).frames)[0], |msg.fixed|);
    SequenceOfRequest(kind, ifindex, sequence, address);
  }

  lemma SequenceOfParse(view: seq<Byte>, size: nat)
    ensures Parse(view, size).0.seqNo == SeqNo(view)
  {
  }

  lemma SequenceOfRequest(kind: TaskKind, ifindex: U16, sequence: U32, address: seq<Byte>)
    ensures RequestFor(kind, ifindex, sequence, address).seqNo == sequence
  {
  }
}
