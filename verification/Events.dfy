/**
 The typed events, described declaratively: which attribute of a message each
 field comes from. The decoders that build them step by step are in Decoders.
 */
module Events {
  import opened Wrappers
  import opened Bytes
  import opened Wire
  import opened Attributes
  import opened Text

  datatype Change = Unknown | New | Deleted

  datatype LinkEvent = LinkEvent(change: Change, index: int, flags: U32, changeMask: U32, name: string)

  datatype AddressEvent = AddressEvent(
    change: Change, index: int, prefixLen: Byte, scope: Byte, flags: U32, family: Byte,
    address: Address, labelText: string)

  datatype RouteEvent = RouteEvent(
    change: Change, family: Byte, dstPrefixLen: Byte, srcPrefixLen: Byte, scope: Byte,
    protocol: Byte, routeType: Byte, flags: U32, table: U32, priority: U32, oifIndex: U32,
    dst: Address, src: Address, gateway: Address, prefsrc: Address, oif: string)

  datatype NeighborEvent = NeighborEvent(
    change: Change, index: int, family: Byte, state: U16, flags: Byte, neighborType: Byte,
    address: Address, lladdr: string)

  const NO_LINK := LinkEvent(Unknown, 0, 0, 0, "")
  const NO_ADDRESS_EVENT := AddressEvent(Unknown, 0, 0, 0, 0, 0, NoAddress, "")
  const NO_ROUTE := RouteEvent(Unknown, 0, 0, 0, 0, 0, 0, 0, 0, 0, 0,
                               NoAddress, NoAddress, NoAddress, NoAddress, "")
  const NO_NEIGHBOR := NeighborEvent(Unknown, 0, 0, 0, 0, 0, NoAddress, "")

  datatype Event =
    | Link(link: LinkEvent)
    | Addr(address: AddressEvent)
    | Route(route: RouteEvent)
    | Neighbor(neighbor: NeighborEvent)
    | NoEvent

  /** The last attribute of a type. */
  function LastOf(attrs: seq<Attribute>, ty: U16): Option<Attribute> {
    if attrs == [] then None
    else if attrs[|attrs| - 1].rtaType == ty then Some(attrs[|attrs| - 1])
    else LastOf(attrs[..|attrs| - 1], ty)
  }

  /** The first attribute of a type that has a payload. */
  function FirstFilled(attrs: seq<Attribute>, ty: U16): Option<Attribute> {
    if attrs == [] then None
    else if attrs[0].rtaType == ty && attrs[0].payload != [] then Some(attrs[0])
    else FirstFilled(attrs[1..], ty)
  }

  function LastAddress(attrs: seq<Attribute>, ty: U16, family: Byte): Address {
    match LastOf(attrs, ty)
    case None => NoAddress
    case Some(a) => AddressOf(a, family)
  }

  function LastU32(attrs: seq<Attribute>, ty: U16, base: U32): U32 {
    match LastOf(attrs, ty)
    case None => base
    case Some(a) => U32Of(a)
  }

  function LastString(attrs: seq<Attribute>, ty: U16): string {
    match LastOf(attrs, ty)
    case None => ""
    case Some(a) => StringOf(a)
  }

  function LastHwAddr(attrs: seq<Attribute>, ty: U16): string {
    match LastOf(attrs, ty)
    case None => ""
    case Some(a) => HwAddr(a.payload)
  }

  function FirstName(attrs: seq<Attribute>): string {
    match FirstFilled(attrs, IFLA_IFNAME)
    case None => ""
    case Some(a) => StringOf(a)
  }

  function LinkFrom(change: Change, fixed: seq<Byte>, attrs: seq<Attribute>): LinkEvent {
    LinkEvent(change, I32At(fixed, 4), U32At(fixed, 8), U32At(fixed, 12), FirstName(attrs))
  }

  /** IFA_LOCAL is preferred to IFA_ADDRESS when it gives an address at all. */
  function AddressFrom(change: Change, fixed: seq<Byte>, attrs: seq<Attribute>): AddressEvent {
    var family := At(fixed, 0);
    var local := LastAddress(attrs, IFA_LOCAL, family);
    AddressEvent(change, I32At(fixed, 4), At(fixed, 1), At(fixed, 3), At(fixed, 2), family,
                 if local != NoAddress then local else LastAddress(attrs, IFA_ADDRESS, family),
                 LastString(attrs, IFA_LABEL))
  }

  /** The 8-bit rtm_table gives way to the last RTA_TABLE. */
  function RouteFrom(change: Change, fixed: seq<Byte>, attrs: seq<Attribute>): RouteEvent {
    var family := At(fixed, 0);
    var oif := LastU32(attrs, RTA_OIF, 0);
    RouteEvent(change, family, At(fixed, 1), At(fixed, 2), At(fixed, 6), At(fixed, 5), At(fixed, 7), U32At(fixed, 8),
               LastU32(attrs, RTA_TABLE, At(fixed, 4)), LastU32(attrs, RTA_PRIORITY, 0), oif,
               LastAddress(attrs, RTA_DST, family), LastAddress(attrs, RTA_SRC, family),
               LastAddress(attrs, RTA_GATEWAY, family), LastAddress(attrs, RTA_PREFSRC, family),
               if oif != 0 then Decimal(oif) else "")
  }

  function NeighborFrom(change: Change, fixed: seq<Byte>, attrs: seq<Attribute>): NeighborEvent {
    var family := At(fixed, 0);
    NeighborEvent(change, I32At(fixed, 4), family, U16At(fixed, 8), At(fixed, 10), At(fixed, 11),
                  LastAddress(attrs, NDA_DST, family), LastHwAddr(attrs, NDA_LLADDR))
  }

  function ChangeOf(msgType: U16, newType: U16, delType: U16): Change {
    if msgType == newType then New else if msgType == delType then Deleted else Unknown
  }

  /** The size of the fixed part of each message type that carries an event. */
  function FixedSize(msgType: U16): Option<nat> {
    if msgType in {RTM_NEWLINK, RTM_DELLINK} then Some(LINK_SIZE)
    else if msgType in {RTM_NEWADDR, RTM_DELADDR} then Some(ADDRESS_SIZE)
    else if msgType in {RTM_NEWROUTE, RTM_DELROUTE} then Some(ROUTE_SIZE)
    else if msgType in {RTM_NEWNEIGH, RTM_DELNEIGH} then Some(NEIGHBOR_SIZE)
    else None
  }

  /** The event a message of this type, fixed part and attributes describes. */
  function EventFrom(msgType: U16, fixed: seq<Byte>, attrs: seq<Attribute>): Event {
    if msgType in {RTM_NEWLINK, RTM_DELLINK} then
      Link(LinkFrom(ChangeOf(msgType, RTM_NEWLINK, RTM_DELLINK), fixed, attrs))
    else if msgType in {RTM_NEWADDR, RTM_DELADDR} then
      Addr(AddressFrom(ChangeOf(msgType, RTM_NEWADDR, RTM_DELADDR), fixed, attrs))
    else if msgType in {RTM_NEWROUTE, RTM_DELROUTE} then
      Route(RouteFrom(ChangeOf(msgType, RTM_NEWROUTE, RTM_DELROUTE), fixed, attrs))
    else if msgType in {RTM_NEWNEIGH, RTM_DELNEIGH} then
      Neighbor(NeighborFrom(ChangeOf(msgType, RTM_NEWNEIGH, RTM_DELNEIGH), fixed, attrs))
    else NoEvent
  }

  /** The message is long enough for a fixed part of this size. */
  predicate HasFixed(m: seq<Byte>, size: nat) {
    HEADER_SIZE + size <= U32At(m, 0)
  }

  function MsgType(m: seq<Byte>): U16 {
    U16At(m, 4)
  }

  /** The event that the message at the start of view m carries. */
  function EventOf(m: seq<Byte>): Event {
    match FixedSize(MsgType(m))
    case None => NoEvent
    case Some(size) =>
      if !HasFixed(m, size) then NoEvent
      else EventFrom(MsgType(m), Slice(m, HEADER_SIZE, size), Attrs(m, size))
  }

  function LinkOf(m: seq<Byte>): LinkEvent {
    if EventOf(m).Link? then EventOf(m).link else NO_LINK
  }

  function AddressEventOf(m: seq<Byte>): AddressEvent {
    if EventOf(m).Addr? then EventOf(m).address else NO_ADDRESS_EVENT
  }

  function RouteOf(m: seq<Byte>): RouteEvent {
    if EventOf(m).Route? then EventOf(m).route else NO_ROUTE
  }

  function NeighborOf(m: seq<Byte>): NeighborEvent {
    if EventOf(m).Neighbor? then EventOf(m).neighbor else NO_NEIGHBOR
  }

  /** LastOf finds an attribute of the type with none of that type after it. */
  lemma {:induction false} LastOfIsLast(attrs: seq<Attribute>, ty: U16)
    ensures LastOf(attrs, ty).None? <==> forall i | 0 <= i < |attrs| :: attrs[i].rtaType != ty
    ensures LastOf(attrs, ty).Some? ==>
              exists i | 0 <= i < |attrs| ::
                && attrs[i] == LastOf(attrs, ty).value && attrs[i].rtaType == ty
                && forall j | i < j < |attrs| :: attrs[j].rtaType != ty
    decreases |attrs|
  {
    if attrs != [] && attrs[|attrs| - 1].rtaType != ty {
      var init := attrs[..|attrs| - 1];
      LastOfIsLast(init, ty);
      if LastOf(init, ty).Some? {
        var i :| 0 <= i < |init| && init[i] == LastOf(init, ty).value && init[i].rtaType == ty
                 && forall j | i < j < |init| :: init[j].rtaType != ty;
        assert attrs[i] == init[i];
      }
      assert forall i | 0 <= i < |init| :: attrs[i] == init[i];
    }
  }

  /** Last wins, told from a list: what a field takes of attribute a when none of
      its type follows it, whatever stands before. */
  lemma {:induction false} LastWins(before: seq<Attribute>, a: Attribute, after: seq<Attribute>, family: Byte, base: U32)
    requires forall x | x in after :: x.rtaType != a.rtaType
    ensures var attrs := before + [a] + after;
            && LastOf(attrs, a.rtaType) == Some(a)
            && LastAddress(attrs, a.rtaType, family) == AddressOf(a, family)
            && LastU32(attrs, a.rtaType, base) == U32Of(a)
            && LastString(attrs, a.rtaType) == StringOf(a)
            && LastHwAddr(attrs, a.rtaType) == HwAddr(a.payload)
  {
    hide LastOf, AddressOf, U32Of, StringOf, HwAddr;
    var attrs := before + [a] + after;
    LastOfIsLast(attrs, a.rtaType);
    assert attrs[|before|] == a;
    forall j | |before| < j < |attrs|
      ensures attrs[j].rtaType != a.rtaType
    {
      assert attrs[j] == after[j - |before| - 1];
    }
    assert LastOf(attrs, a.rtaType).Some?;
    var i :| 0 <= i < |attrs| && attrs[i] == LastOf(attrs, a.rtaType).value && attrs[i].rtaType == a.rtaType
             && forall j | i < j < |attrs| :: attrs[j].rtaType != a.rtaType;
    assert i == |before|;
  }

  /** Without an attribute of its type a field keeps its base value. */
  lemma {:induction false} BaseWithoutAttribute(attrs: seq<Attribute>, ty: U16, family: Byte, base: U32)
    requires forall x | x in attrs :: x.rtaType != ty
    ensures LastAddress(attrs, ty, family) == NoAddress && LastU32(attrs, ty, base) == base
    ensures LastString(attrs, ty) == "" && LastHwAddr(attrs, ty) == ""
  {
    hide LastOf;
    LastOfIsLast(attrs, ty);
  }

  /** First filled wins for names: nothing of the type with a payload precedes. */
  lemma {:induction false} FirstFilledWins(before: seq<Attribute>, a: Attribute, after: seq<Attribute>)
    requires a.rtaType == IFLA_IFNAME && a.payload != []
    requires forall x | x in before :: x.rtaType != IFLA_IFNAME || x.payload == []
    ensures FirstName(before + [a] + after) == StringOf(a)
    ensures FirstName(before) == ""
    decreases |before|
  {
    hide StringOf;
    var attrs := before + [a] + after;
    if before != [] {
      FirstFilledWins(before[1..], a, after);
      assert attrs[1..] == before[1..] + [a] + after;
    }
  }
}
