/**
 The netlink wire layout: message header (RFC 3549, section 2.3.2), message and
 attribute types, and the sizes of the fixed parts that follow the header.
 */
module Wire {
  import opened Bytes

  const HEADER_SIZE := 16
  const RTATTR_SIZE := 4

  const LINK_SIZE := 16
  const ADDRESS_SIZE := 8
  const ROUTE_SIZE := 12
  const NEIGHBOR_SIZE := 12
  const ERROR_SIZE := 20

  const NLMSG_ERROR: U16 := 2
  const NLMSG_DONE: U16 := 3
  const RTM_NEWLINK: U16 := 16
  const RTM_DELLINK: U16 := 17
  const RTM_GETLINK: U16 := 18
  const RTM_NEWADDR: U16 := 20
  const RTM_DELADDR: U16 := 21
  const RTM_GETADDR: U16 := 22
  const RTM_NEWROUTE: U16 := 24
  const RTM_DELROUTE: U16 := 25
  const RTM_GETROUTE: U16 := 26
  const RTM_NEWNEIGH: U16 := 28
  const RTM_DELNEIGH: U16 := 29
  const RTM_GETNEIGH: U16 := 30

  const NLM_F_REQUEST: U16 := 0x001
  const NLM_F_ACK: U16 := 0x004
  const NLM_F_REPLACE: U16 := 0x100
  const NLM_F_DUMP: U16 := 0x300
  const NLM_F_CREATE: U16 := 0x400

  const IFLA_IFNAME: U16 := 3
  const IFA_ADDRESS: U16 := 1
  const IFA_LOCAL: U16 := 2
  const IFA_LABEL: U16 := 3
  const RTA_DST: U16 := 1
  const RTA_SRC: U16 := 2
  const RTA_OIF: U16 := 4
  const RTA_GATEWAY: U16 := 5
  const RTA_PRIORITY: U16 := 6
  const RTA_PREFSRC: U16 := 7
  const RTA_TABLE: U16 := 15
  const NDA_DST: U16 := 1
  const NDA_LLADDR: U16 := 2

  const RTN_UNSPEC: Byte := 0
  const AF_INET: Byte := 2
  const AF_INET6: Byte := 10
  const RT_TABLE_MAIN: U32 := 254
  const ENOENT := 2

  /** Capacity of a request task's receive buffer, and of the listener's. */
  const MAX_RESPONSE_BYTES := 0x1_0000
  const LISTENER_BUFFER_SIZE := 0x8000

  datatype Header = Header(len: U32, msgType: U16, flags: U16, seqNo: U32, pid: U32)

  function HeaderAt(m: seq<Byte>): Header {
    Header(U32At(m, 0), U16At(m, 4), U16At(m, 6), U32At(m, 8), U32At(m, 12))
  }

  function EncodeHeader(h: Header): (s: seq<Byte>)
    ensures |s| == HEADER_SIZE
  {
    PutU32(h.len) + PutU16(h.msgType) + PutU16(h.flags) + PutU32(h.seqNo) + PutU32(h.pid)
  }

  lemma HeaderRoundTrip(h: Header, t: seq<Byte>)
    ensures HeaderAt(EncodeHeader(h) + t) == h
  {
    hide U32At, U16At, PutU32, PutU16;
    var m := EncodeHeader(h) + t;
    var pid := PutU32(h.pid) + t;
    var seqNo := PutU32(h.seqNo) + pid;
    var flags := PutU16(h.flags) + seqNo;
    var msgType := PutU16(h.msgType) + flags;
    assert m == PutU32(h.len) + msgType;
    U32RoundTrip(h.len, msgType);
    U16RoundTrip(h.msgType, flags);
    U16RoundTrip(h.flags, seqNo);
    U32RoundTrip(h.seqNo, pid);
    U32RoundTrip(h.pid, t);
    ReadsAfter(PutU32(h.len), msgType, 0);
    var p6 := PutU32(h.len) + PutU16(h.msgType);
    assert m == p6 + flags;
    ReadsAfter(p6, flags, 0);
    var p8 := p6 + PutU16(h.flags);
    assert m == p8 + seqNo;
    ReadsAfter(p8, seqNo, 0);
    var p12 := p8 + PutU32(h.seqNo);
    assert m == p12 + pid;
    ReadsAfter(p12, pid, 0);
  }

  /** A header read from the first 16 bytes does not see what follows them. */
  lemma HeaderInside(m: seq<Byte>, t: seq<Byte>)
    requires HEADER_SIZE <= |m|
    ensures HeaderAt(m + t) == HeaderAt(m)
  {
    ReadsInside(m, t, 0);
    ReadsInside(m, t, 4);
    ReadsInside(m, t, 6);
    ReadsInside(m, t, 8);
    ReadsInside(m, t, 12);
  }
}
