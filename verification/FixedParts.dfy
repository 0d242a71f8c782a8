/**
 The fixed parts of messages as structs: what a sender writes, member by member,
 is what each event reports.
 */
module FixedParts {
  import opened Bytes
  import opened Wire
  import opened Attributes
  import opened Text
  import opened Events

  /** ifinfomsg: family, pad, device type, index, flags, change mask. */
  datatype IfInfoMsg = IfInfoMsg(family: Byte, deviceType: U16, index: U32, flags: U32, change: U32) {
    function Encode(): (s: seq<Byte>)
      ensures |s| == LINK_SIZE
    {
      [family, 0] + PutU16(deviceType) + PutU32(index) + PutU32(flags) + PutU32(change)
    }
  }

  /** ifaddrmsg: family, prefix length, flags, scope, index. */
  datatype IfAddrMsg = IfAddrMsg(family: Byte, prefixLen: Byte, flags: Byte, scope: Byte, index: U32) {
    function Encode(): (s: seq<Byte>)
      ensures |s| == ADDRESS_SIZE
    {
      [family, prefixLen, flags, scope] + PutU32(index)
    }
  }

  /** rtmsg: family, destination and source prefix lengths, type of service,
      table, protocol, scope, type, flags. */
  datatype RtMsg = RtMsg(family: Byte, dstLen: Byte, srcLen: Byte, tos: Byte,
                         table: Byte, protocol: Byte, scope: Byte, rtType: Byte, flags: U32) {
    function Encode(): (s: seq<Byte>)
      ensures |s| == ROUTE_SIZE
    {
      [family, dstLen, srcLen, tos, table, protocol, scope, rtType] + PutU32(flags)
    }
  }

  /** ndmsg: family, two pads, interface index, state, flags, type. */
  datatype NdMsg = NdMsg(family: Byte, ifindex: U32, state: U16, flags: Byte, ndmType: Byte) {
    function Encode(): (s: seq<Byte>)
      ensures |s| == NEIGHBOR_SIZE
    {
      [family, 0, 0, 0] + PutU32(ifindex) + PutU16(state) + [flags, ndmType]
    }
  }

  /** A word written between p and t is read back at its place. */
  lemma WordInPlace(p: seq<Byte>, n: U32, t: seq<Byte>)
    ensures U32At(p + PutU32(n) + t, |p|) == n
  {
    hide U32At, PutU32;
    assert p + PutU32(n) + t == p + (PutU32(n) + t);
    U32RoundTrip(n, t);
    ReadsAfter(p, PutU32(n) + t, 0);
  }

  lemma {:induction false} LinkFields(f: IfInfoMsg, change: Change, attrs: seq<Attribute>)
    ensures LinkFrom(change, f.Encode(), attrs)
            == LinkEvent(change, ToInt32(f.index), f.flags, f.change, FirstName(attrs))
  {
    hide U32At, PutU32, PutU16, FirstName;
    var p4 := [f.family, 0] + PutU16(f.deviceType);
    var p8 := p4 + PutU32(f.index);
    var p12 := p8 + PutU32(f.flags);
    assert f.Encode() == p4 + PutU32(f.index) + (PutU32(f.flags) + PutU32(f.change));
    assert f.Encode() == p8 + PutU32(f.flags) + PutU32(f.change) == p12 + PutU32(f.change) + [];
    WordInPlace(p4, f.index, PutU32(f.flags) + PutU32(f.change));
    WordInPlace(p8, f.flags, PutU32(f.change));
    WordInPlace(p12, f.change, []);
  }

  lemma {:induction false} AddressFields(f: IfAddrMsg, change: Change, attrs: seq<Attribute>)
    ensures var e := AddressFrom(change, f.Encode(), attrs);
            var local := LastAddress(attrs, IFA_LOCAL, f.family);
            && e.change == change && e.family == f.family && e.prefixLen == f.prefixLen
            && e.flags == f.flags && e.scope == f.scope && e.index == ToInt32(f.index)
            && e.address == (if local.NoAddress? then LastAddress(attrs, IFA_ADDRESS, f.family) else local)
            && e.labelText == LastString(attrs, IFA_LABEL)
  {
    hide U32At, PutU32, LastAddress, LastString;
    var p := [f.family, f.prefixLen, f.flags, f.scope];
    assert f.Encode() == p + PutU32(f.index) + [];
    WordInPlace(p, f.index, []);
  }

  lemma {:induction false} RouteFields(f: RtMsg, change: Change, attrs: seq<Attribute>)
    ensures var e := RouteFrom(change, f.Encode(), attrs);
            && e.change == change && e.family == f.family
            && e.dstPrefixLen == f.dstLen && e.srcPrefixLen == f.srcLen
            && e.scope == f.scope && e.protocol == f.protocol && e.routeType == f.rtType && e.flags == f.flags
            && e.table == LastU32(attrs, RTA_TABLE, f.table)
            && e.priority == LastU32(attrs, RTA_PRIORITY, 0) && e.oifIndex == LastU32(attrs, RTA_OIF, 0)
            && e.dst == LastAddress(attrs, RTA_DST, f.family) && e.src == LastAddress(attrs, RTA_SRC, f.family)
            && e.gateway == LastAddress(attrs, RTA_GATEWAY, f.family)
            && e.prefsrc == LastAddress(attrs, RTA_PREFSRC, f.family)
            && (e.oifIndex != 0 ==> e.oif == Decimal(e.oifIndex) && ParseDecimal(e.oif) == e.oifIndex)
            && (e.oifIndex == 0 ==> e.oif == "")
  {
    hide U32At, PutU32, LastAddress, LastU32, Decimal, ParseDecimal;
    var p := [f.family, f.dstLen, f.srcLen, f.tos, f.table, f.protocol, f.scope, f.rtType];
    assert f.Encode() == p + PutU32(f.flags) + [];
    WordInPlace(p, f.flags, []);
    DecimalRoundTrip(LastU32(attrs, RTA_OIF, 0));
  }

  lemma {:induction false} NeighborFields(f: NdMsg, change: Change, attrs: seq<Attribute>)
    ensures NeighborFrom(change, f.Encode(), attrs)
            == NeighborEvent(change, ToInt32(f.ifindex), f.family, f.state, f.flags, f.ndmType,
                             LastAddress(attrs, NDA_DST, f.family), LastHwAddr(attrs, NDA_LLADDR))
  {
    hide PutU32, PutU16, U32At, U16At, LastAddress, LastHwAddr;
    var s := f.Encode();
    var head := [f.family, 0, 0, 0];
    var tail := [f.flags, f.ndmType];
    assert s == head + PutU32(f.ifindex) + (PutU16(f.state) + tail);
    WordInPlace(head, f.ifindex, PutU16(f.state) + tail);
    var p8 := head + PutU32(f.ifindex);
    assert s == p8 + (PutU16(f.state) + tail);
    U16RoundTrip(f.state, tail);
    ReadsAfter(p8, PutU16(f.state) + tail, 0);
    assert s[10] == f.flags && s[11] == f.ndmType;
  }
}
