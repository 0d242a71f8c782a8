/**
 Laws of decoding: when an event depends on its own message only, and that it
 does not depend on the order of attributes or on unknown ones.
 */
module EventLaws {
  import opened Wrappers
  import opened Bytes
  import opened Wire
  import opened Attributes
  import opened Messages
  import opened Text
  import opened Events

  /** Attribute types whose payload is read as an address. */
  function AddressTypes(msgType: U16): set<U16> {
    if msgType in {RTM_NEWADDR, RTM_DELADDR} then {IFA_LOCAL, IFA_ADDRESS}
    else if msgType in {RTM_NEWROUTE, RTM_DELROUTE} then {RTA_DST, RTA_SRC, RTA_GATEWAY, RTA_PREFSRC}
    else if msgType in {RTM_NEWNEIGH, RTM_DELNEIGH} then {NDA_DST}
    else {}
  }

  /** Attribute types whose payload is read as a C string. */
  function StringTypes(msgType: U16): set<U16> {
    if msgType in {RTM_NEWLINK, RTM_DELLINK} then {IFLA_IFNAME}
    else if msgType in {RTM_NEWADDR, RTM_DELADDR} then {IFA_LABEL}
    else {}
  }

  /** Attribute types the decoders look at. */
  function KnownTypes(msgType: U16): set<U16> {
    AddressTypes(msgType) + StringTypes(msgType) +
    (if msgType in {RTM_NEWROUTE, RTM_DELROUTE} then {RTA_TABLE, RTA_OIF, RTA_PRIORITY}
     else if msgType in {RTM_NEWNEIGH, RTM_DELNEIGH} then {NDA_LLADDR}
     else {})
  }

  /** Decoding a does not read past its payload: an address has the width of
      its family, a string is empty or holds its NUL. */
  predicate ReadsOwnPayload(msgType: U16, family: Byte, a: Attribute) {
    && (a.rtaType in AddressTypes(msgType) ==> AddressWidth(family) <= |a.payload|)
    && (a.rtaType in StringTypes(msgType) ==> a.payload == [] || 0 in a.payload)
  }

  predicate Contained(msgType: U16, family: Byte, attrs: seq<Attribute>) {
    forall a | a in attrs :: ReadsOwnPayload(msgType, family, a)
  }

  function BareOption(a: Option<Attribute>): Option<Attribute> {
    match a
    case None => None
    case Some(x) => Some(x.Bare())
  }

  lemma {:induction false} LastOfBare(attrs: seq<Attribute>, ty: U16)
    ensures LastOf(Bare(attrs), ty) == BareOption(LastOf(attrs, ty))
    ensures LastOf(attrs, ty).Some? ==> LastOf(attrs, ty).value in attrs
    ensures LastOf(attrs, ty).Some? ==> LastOf(attrs, ty).value.rtaType == ty
    decreases |attrs|
  {
    if attrs != [] {
      var n := |attrs| - 1;
      assert Bare(attrs)[..n] == Bare(attrs[..n]);
      LastOfBare(attrs[..n], ty);
    }
  }

  lemma {:induction false} FirstFilledBare(attrs: seq<Attribute>, ty: U16)
    ensures FirstFilled(Bare(attrs), ty) == BareOption(FirstFilled(attrs, ty))
    ensures FirstFilled(attrs, ty).Some? ==> FirstFilled(attrs, ty).value in attrs
    ensures FirstFilled(attrs, ty).Some? ==>
              FirstFilled(attrs, ty).value.rtaType == ty && FirstFilled(attrs, ty).value.payload != []
    decreases |attrs|
  {
    if attrs != [] {
      assert Bare(attrs)[1..] == Bare(attrs[1..]);
      FirstFilledBare(attrs[1..], ty);
    }
  }

  lemma OwnPayloadDecodes(msgType: U16, family: Byte, a: Attribute)
    requires ReadsOwnPayload(msgType, family, a)
    ensures a.rtaType in AddressTypes(msgType) ==> AddressOf(a, family) == AddressOf(a.Bare(), family)
    ensures a.rtaType in StringTypes(msgType) ==> StringOf(a) == StringOf(a.Bare())
  {
    hide AddressTypes, StringTypes, CString;
    if a.rtaType in AddressTypes(msgType) {
      var w := AddressWidth(family);
      assert a.Data()[0..w] == a.Bare().Data()[0..w];
    }
    if a.rtaType in StringTypes(msgType) && a.payload != [] {
      CStringStops(a.payload, a.beyond);
      CStringStops(a.payload, []);
    }
  }

  /** An address attribute decodes the same whatever follows it exactly when
      its payload has the width of the family: the code does not check that. */
  lemma {:induction false} AddressIsLocalIff(a: Attribute, family: Byte)
    ensures (forall beyond :: AddressOf(a.(beyond := beyond), family) == AddressOf(a, family))
            <==> AddressWidth(family) <= |a.payload|
  {
    var w, n := AddressWidth(family), |a.payload|;
    if w <= n {
      assert forall beyond :: a.(beyond := beyond).Data()[0..w] == a.payload[0..w];
      assert a.Data()[0..w] == a.payload[0..w];
    } else {
      var ones := seq<Byte>(w, _ => 1);
      var p, q := a.(beyond := Zeros(w)), a.(beyond := ones);
      assert Slice(p.Data(), 0, w)[n] == 0 && Slice(q.Data(), 0, w)[n] == 1;
      assert AddressOf(p, family) != AddressOf(q, family);
    }
  }

  /** A string attribute decodes the same whatever follows it exactly when its
      payload is empty or holds its own NUL. */
  lemma {:induction false} StringIsLocalIff(a: Attribute)
    ensures (forall beyond :: StringOf(a.(beyond := beyond)) == StringOf(a))
            <==> a.payload == [] || 0 in a.payload
  {
    if a.payload != [] && 0 in a.payload {
      CStringStops(a.payload, a.beyond);
      forall beyond
        ensures StringOf(a.(beyond := beyond)) == StringOf(a)
      {
        CStringStops(a.payload, beyond);
      }
    } else if a.payload != [] {
      var p, q := a.(beyond := []), a.(beyond := [1]);
      CStringRunsOn(a.payload, []);
      CStringRunsOn(a.payload, [1]);
      assert CString([1]) == [1 as char] + CString([]);
      assert |StringOf(p)| != |StringOf(q)|;
    }
  }

  lemma {:induction false} CStringRunsOn(payload: seq<Byte>, beyond: seq<Byte>)
    requires 0 !in payload
    ensures |CString(payload + beyond)| == |payload| + |CString(beyond)|
    decreases |payload|
  {
    if payload == [] {
      assert payload + beyond == beyond;
    } else {
      assert (payload + beyond)[1..] == payload[1..] + beyond;
      CStringRunsOn(payload[1..], beyond);
    }
  }

  lemma LastBareAgrees(msgType: U16, family: Byte, attrs: seq<Attribute>, ty: U16)
    requires Contained(msgType, family, attrs)
    ensures ty in AddressTypes(msgType) ==>
              LastAddress(attrs, ty, family) == LastAddress(Bare(attrs), ty, family)
    ensures ty in StringTypes(msgType) ==> LastString(attrs, ty) == LastString(Bare(attrs), ty)
    ensures forall base: U32 :: LastU32(attrs, ty, base) == LastU32(Bare(attrs), ty, base)
    ensures LastHwAddr(attrs, ty) == LastHwAddr(Bare(attrs), ty)
  {
    hide AddressTypes, StringTypes, AddressOf, StringOf, HwAddr, LastOf, Bare, ReadsOwnPayload, U32At;
    LastOfBare(attrs, ty);
    if LastOf(attrs, ty).Some? {
      OwnPayloadDecodes(msgType, family, LastOf(attrs, ty).value);
    }
  }

  /** A contained event is the same whatever memory follows the payloads. */
  lemma BareDecodes(msgType: U16, fixed: seq<Byte>, attrs: seq<Attribute>)
    requires Contained(msgType, At(fixed, 0), attrs)
    ensures EventFrom(msgType, fixed, attrs) == EventFrom(msgType, fixed, Bare(attrs))
  {
    hide Contained, StringOf, LastAddress, LastString, LastU32, LastHwAddr, U32At, U16At, Decimal, Bare, FirstFilled;
    var family := At(fixed, 0);
    if msgType in {RTM_NEWLINK, RTM_DELLINK} {
      BareNameDecodes(msgType, family, attrs);
    } else if msgType in {RTM_NEWADDR, RTM_DELADDR} {
      LastBareAgrees(msgType, family, attrs, IFA_LOCAL);
      LastBareAgrees(msgType, family, attrs, IFA_ADDRESS);
      LastBareAgrees(msgType, family, attrs, IFA_LABEL);
    } else if msgType in {RTM_NEWROUTE, RTM_DELROUTE} {
      LastBareAgrees(msgType, family, attrs, RTA_TABLE);
      LastBareAgrees(msgType, family, attrs, RTA_PRIORITY);
      LastBareAgrees(msgType, family, attrs, RTA_OIF);
      LastBareAgrees(msgType, family, attrs, RTA_DST);
      LastBareAgrees(msgType, family, attrs, RTA_SRC);
      LastBareAgrees(msgType, family, attrs, RTA_GATEWAY);
      LastBareAgrees(msgType, family, attrs, RTA_PREFSRC);
    } else if msgType in {RTM_NEWNEIGH, RTM_DELNEIGH} {
      LastBareAgrees(msgType, family, attrs, NDA_DST);
      LastBareAgrees(msgType, family, attrs, NDA_LLADDR);
    }
  }

  lemma BareNameDecodes(msgType: U16, family: Byte, attrs: seq<Attribute>)
    requires msgType in {RTM_NEWLINK, RTM_DELLINK} && Contained(msgType, family, attrs)
    ensures FirstName(attrs) == FirstName(Bare(attrs))
  {
    hide StringOf, FirstFilled, Bare;
    FirstFilledBare(attrs, IFLA_IFNAME);
    var first := FirstFilled(attrs, IFLA_IFNAME);
    if first.Some? {
      OwnPayloadDecodes(msgType, family, first.value);
    }
  }

  lemma ContainedBare(msgType: U16, family: Byte, attrs: seq<Attribute>)
    ensures Contained(msgType, family, attrs) <==> Contained(msgType, family, Bare(attrs))
  {
    hide AddressTypes, StringTypes;
    var bare := Bare(attrs);
    assert forall i | 0 <= i < |attrs| ::
        && bare[i] == attrs[i].Bare()
        && ReadsOwnPayload(msgType, family, bare[i]) == ReadsOwnPayload(msgType, family, attrs[i]);
    if Contained(msgType, family, bare) {
      forall a | a in attrs
        ensures ReadsOwnPayload(msgType, family, a)
      {
        var i :| 0 <= i < |attrs| && attrs[i] == a;
        assert bare[i] in bare;
      }
    }
  }

  /** An address taken from attribute a ends inside the memory behind a. */
  predicate AddressInside(a: Option<Attribute>, family: Byte) {
    a.Some? ==> AddressWidth(family) <= |a.value.Data()|
  }

  /** A string taken from attribute a ends inside the memory behind a. */
  predicate StringInside(a: Option<Attribute>) {
    a.Some? ==> a.value.payload == [] || 0 in a.value.Data()
  }

  /** The attributes that decide the event, and only those, are read within the
      memory behind them: the last of each type, the first filled name, and for
      an address event the peer address only when there is no local one. */
  predicate FieldsInside(msgType: U16, family: Byte, attrs: seq<Attribute>) {
    if msgType in {RTM_NEWLINK, RTM_DELLINK} then
      StringInside(FirstFilled(attrs, IFLA_IFNAME))
    else if msgType in {RTM_NEWADDR, RTM_DELADDR} then
      var local := LastOf(attrs, IFA_LOCAL);
      && AddressInside(if local.Some? then local else LastOf(attrs, IFA_ADDRESS), family)
      && StringInside(LastOf(attrs, IFA_LABEL))
    else
      forall ty | ty in AddressTypes(msgType) :: AddressInside(LastOf(attrs, ty), family)
  }

  /** Everything the event of message m is made of lies inside m. */
  predicate EventInside(m: seq<Byte>) {
    match FixedSize(MsgType(m))
    case None => true
    case Some(size) =>
      HasFixed(m, size) ==> FieldsInside(MsgType(m), At(m, HEADER_SIZE), Attrs(m, size))
  }

  function ExtendOption(a: Option<Attribute>, t: seq<Byte>): Option<Attribute> {
    match a
    case None => None
    case Some(x) => Some(x.Extend(t))
  }

  lemma {:induction false} LastOfExtended(attrs: seq<Attribute>, t: seq<Byte>, ty: U16)
    ensures LastOf(Extended(attrs, t), ty) == ExtendOption(LastOf(attrs, ty), t)
    decreases |attrs|
  {
    if attrs != [] {
      var n := |attrs| - 1;
      assert Extended(attrs, t)[..n] == Extended(attrs[..n], t);
      LastOfExtended(attrs[..n], t, ty);
    }
  }

  lemma {:induction false} FirstFilledExtended(attrs: seq<Attribute>, t: seq<Byte>, ty: U16)
    ensures FirstFilled(Extended(attrs, t), ty) == ExtendOption(FirstFilled(attrs, ty), t)
    decreases |attrs|
  {
    if attrs != [] {
      assert Extended(attrs, t)[1..] == Extended(attrs[1..], t);
      FirstFilledExtended(attrs[1..], t, ty);
    }
  }

  /** More memory than any single read: of zeros, and of ones. */
  const ZEROS: seq<Byte> := Zeros(16)
  const ONES: seq<Byte> := seq(16, _ => 1)

  lemma AddressExtends(a: Attribute, family: Byte, t: seq<Byte>)
    ensures AddressWidth(family) <= |a.Data()| ==> AddressOf(a.Extend(t), family) == AddressOf(a, family)
    ensures AddressWidth(family) > |a.Data()| ==>
              AddressOf(a.Extend(ZEROS), family) != AddressOf(a.Extend(ONES), family)
  {
    var w, data := AddressWidth(family), a.Data();
    assert a.Extend(t).Data() == data + t;
    if w <= |data| {
      assert (data + t)[0..w] == data[0..w];
    } else {
      var p, q := a.Extend(ZEROS), a.Extend(ONES);
      assert p.Data() == data + ZEROS && q.Data() == data + ONES;
      assert Slice(p.Data(), 0, w)[|data|] == 0 && Slice(q.Data(), 0, w)[|data|] == 1;
    }
  }

  lemma StringExtends(a: Attribute, t: seq<Byte>)
    ensures a.payload == [] || 0 in a.Data() ==> StringOf(a.Extend(t)) == StringOf(a)
    ensures !(a.payload == [] || 0 in a.Data()) ==> StringOf(a.Extend(ZEROS)) != StringOf(a.Extend(ONES))
  {
    hide CString;
    assert a.Extend(t).Data() == a.Data() + t;
    if 0 in a.Data() {
      CStringStops(a.Data(), t);
    } else {
      assert a.Extend(ZEROS).Data() == a.Data() + ZEROS && a.Extend(ONES).Data() == a.Data() + ONES;
      CStringRunsOn(a.Data(), ZEROS);
      CStringRunsOn(a.Data(), ONES);
      ZerosAndOnes();
    }
  }

  lemma ZerosAndOnes()
    ensures |CString(ZEROS)| == 0 && |CString(ONES)| > 0
  {
    assert ONES[0] == 1;
  }

  /** One field of an event, over attributes that have t behind them. */
  lemma LastExtends(attrs: seq<Attribute>, t: seq<Byte>, ty: U16, family: Byte)
    ensures AddressInside(LastOf(attrs, ty), family) ==>
              LastAddress(Extended(attrs, t), ty, family) == LastAddress(attrs, ty, family)
    ensures !AddressInside(LastOf(attrs, ty), family) ==>
              LastAddress(Extended(attrs, ZEROS), ty, family) != LastAddress(Extended(attrs, ONES), ty, family)
    ensures StringInside(LastOf(attrs, ty)) ==> LastString(Extended(attrs, t), ty) == LastString(attrs, ty)
    ensures !StringInside(LastOf(attrs, ty)) ==>
              LastString(Extended(attrs, ZEROS), ty) != LastString(Extended(attrs, ONES), ty)
    ensures forall base: U32 :: LastU32(Extended(attrs, t), ty, base) == LastU32(attrs, ty, base)
    ensures LastHwAddr(Extended(attrs, t), ty) == LastHwAddr(attrs, ty)
    ensures LastAddress(Extended(attrs, t), ty, family) == NoAddress
            <==> AddressWidth(family) == 0 || LastOf(attrs, ty).None?
  {
    hide AddressOf, StringOf, HwAddr, LastOf, Extended, U32At, ZEROS, ONES;
    LastOfExtended(attrs, t, ty);
    LastOfExtended(attrs, ZEROS, ty);
    LastOfExtended(attrs, ONES, ty);
    if LastOf(attrs, ty).Some? {
      var a := LastOf(attrs, ty).value;
      AddressExtends(a, family, t);
      StringExtends(a, t);
      AddressIsThere(a.Extend(t), family);
    }
  }

  lemma AddressIsThere(a: Attribute, family: Byte)
    ensures AddressOf(a, family) == NoAddress <==> AddressWidth(family) == 0
  {
  }

  lemma NameExtends(attrs: seq<Attribute>, t: seq<Byte>)
    ensures StringInside(FirstFilled(attrs, IFLA_IFNAME)) ==> FirstName(Extended(attrs, t)) == FirstName(attrs)
    ensures !StringInside(FirstFilled(attrs, IFLA_IFNAME)) ==>
              FirstName(Extended(attrs, ZEROS)) != FirstName(Extended(attrs, ONES))
  {
    hide StringOf, FirstFilled, Extended, ZEROS, ONES;
    FirstFilledExtended(attrs, t, IFLA_IFNAME);
    FirstFilledExtended(attrs, ZEROS, IFLA_IFNAME);
    FirstFilledExtended(attrs, ONES, IFLA_IFNAME);
    if FirstFilled(attrs, IFLA_IFNAME).Some? {
      StringExtends(FirstFilled(attrs, IFLA_IFNAME).value, t);
    }
  }

  /** An event whose fields lie inside does not change with the memory behind. */
  lemma FieldsExtend(msgType: U16, fixed: seq<Byte>, attrs: seq<Attribute>, t: seq<Byte>)
    requires FieldsInside(msgType, At(fixed, 0), attrs)
    ensures EventFrom(msgType, fixed, Extended(attrs, t)) == EventFrom(msgType, fixed, attrs)
  {
    hide LastAddress, LastString, LastU32, LastHwAddr, FirstName, U32At, U16At, Decimal, Extended, LastOf, FirstFilled,
         AddressInside, StringInside, ZEROS, ONES;
    var family := At(fixed, 0);
    NameExtends(attrs, t);
    EmptyExtension(attrs);
    forall ty: U16
      ensures AddressInside(LastOf(attrs, ty), family) ==>
                LastAddress(Extended(attrs, t), ty, family) == LastAddress(attrs, ty, family)
      ensures StringInside(LastOf(attrs, ty)) ==> LastString(Extended(attrs, t), ty) == LastString(attrs, ty)
      ensures forall base: U32 :: LastU32(Extended(attrs, t), ty, base) == LastU32(attrs, ty, base)
      ensures LastHwAddr(Extended(attrs, t), ty) == LastHwAddr(attrs, ty)
      ensures LastAddress(Extended(attrs, t), ty, family) == NoAddress
              <==> AddressWidth(family) == 0 || LastOf(attrs, ty).None?
      ensures LastAddress(attrs, ty, family) == NoAddress
              <==> AddressWidth(family) == 0 || LastOf(attrs, ty).None?
    {
      LastExtends(attrs, t, ty, family);
      LastExtends(attrs, [], ty, family);
    }
    NarrowIsInside(family);
    if msgType in {RTM_NEWROUTE, RTM_DELROUTE} {
      LastExtends(attrs, t, RTA_TABLE, family);
      LastExtends(attrs, t, RTA_OIF, family);
      LastExtends(attrs, t, RTA_PRIORITY, family);
      assert RTA_DST in AddressTypes(msgType) && RTA_SRC in AddressTypes(msgType);
      assert RTA_GATEWAY in AddressTypes(msgType) && RTA_PREFSRC in AddressTypes(msgType);
    } else if msgType in {RTM_NEWNEIGH, RTM_DELNEIGH} {
      assert NDA_DST in AddressTypes(msgType);
    }
  }

  lemma EmptyExtension(attrs: seq<Attribute>)
    ensures Extended(attrs, []) == attrs
  {
    forall i | 0 <= i < |attrs|
      ensures attrs[i].Extend([]) == attrs[i]
    {
      assert attrs[i].beyond + [] == attrs[i].beyond;
    }
  }

  lemma NarrowIsInside(family: Byte)
    ensures AddressWidth(family) == 0 ==> forall a :: AddressInside(a, family)
    ensures AddressInside(None, family) && StringInside(None)
  {
  }

  /** An event with a field that lies outside does. */
  lemma FieldsLeak(msgType: U16, fixed: seq<Byte>, attrs: seq<Attribute>)
    requires FixedSize(msgType).Some? && !FieldsInside(msgType, At(fixed, 0), attrs)
    ensures EventFrom(msgType, fixed, Extended(attrs, ZEROS)) != EventFrom(msgType, fixed, Extended(attrs, ONES))
  {
    hide LastAddress, LastString, LastU32, LastHwAddr, FirstName, U32At, U16At, Decimal, Extended, LastOf, FirstFilled,
         AddressInside, StringInside, ZEROS, ONES;
    var family := At(fixed, 0);
    NameExtends(attrs, []);
    forall ty: U16
      ensures !AddressInside(LastOf(attrs, ty), family) ==>
                LastAddress(Extended(attrs, ZEROS), ty, family) != LastAddress(Extended(attrs, ONES), ty, family)
      ensures !StringInside(LastOf(attrs, ty)) ==>
                LastString(Extended(attrs, ZEROS), ty) != LastString(Extended(attrs, ONES), ty)
      ensures LastAddress(Extended(attrs, ZEROS), ty, family) == NoAddress
              <==> AddressWidth(family) == 0 || LastOf(attrs, ty).None?
      ensures LastAddress(Extended(attrs, ONES), ty, family) == NoAddress
              <==> AddressWidth(family) == 0 || LastOf(attrs, ty).None?
    {
      LastExtends(attrs, ZEROS, ty, family);
      LastExtends(attrs, ONES, ty, family);
    }
    NarrowIsInside(family);
  }

  /** The event of a message with t behind it, told from the message alone. */
  lemma EventExtends(m: seq<Byte>, t: seq<Byte>, size: nat)
    requires Framed(m) && FixedSize(MsgType(m)) == Some(size) && HasFixed(m, size)
    ensures EventOf(m + t) == EventFrom(MsgType(m), Slice(m, HEADER_SIZE, size), Extended(Attrs(m, size), t))
    ensures At(Slice(m, HEADER_SIZE, size), 0) == At(m, HEADER_SIZE)
  {
    hide U32At, U16At, EventFrom, FixedSize, AttrWalk, ToInt32, Extended;
    ReadsInside(m, t, 0);
    ReadsInside(m, t, 4);
    FixedSizePositive(MsgType(m));
    FixedAreLocal(m, t, size);
    ToInt32IsNoMore(U32At(m, 0));
    FromAppend(m, t, HEADER_SIZE + size);
    WalkExtends(From(m, HEADER_SIZE + size), t, AttrLength(m, size));
  }

  lemma ToInt32IsNoMore(n: U32)
    ensures ToInt32(n) <= n
  {
  }

  lemma FixedSizePositive(msgType: U16)
    ensures FixedSize(msgType).Some? ==> FixedSize(msgType).value > 0
  {
  }

  lemma FixedAreLocal(m: seq<Byte>, t: seq<Byte>, size: nat)
    requires HEADER_SIZE + size <= |m|
    ensures Slice(m + t, HEADER_SIZE, size) == Slice(m, HEADER_SIZE, size)
  {
    assert (m + t)[HEADER_SIZE..HEADER_SIZE + size] == m[HEADER_SIZE..HEADER_SIZE + size];
  }

  /** The message carries no event, whatever is behind it. */
  lemma NoEventExtends(m: seq<Byte>, t: seq<Byte>)
    requires Framed(m) && (FixedSize(MsgType(m)).None? || !HasFixed(m, FixedSize(MsgType(m)).value))
    ensures EventOf(m + t) == NoEvent && MsgType(m + t) == MsgType(m)
  {
    hide U32At, U16At, EventFrom, FixedSize;
    ReadsInside(m, t, 0);
    ReadsInside(m, t, 4);
  }

  /** When everything it is made of lies inside its message, an event does not
      depend on what follows the message in memory. */
  lemma EventIsLocal(m: seq<Byte>, t: seq<Byte>)
    requires Framed(m) && EventInside(m)
    ensures EventOf(m + t) == EventOf(m)
    ensures MsgType(m + t) == MsgType(m)
  {
    hide U32At, U16At, EventFrom, FieldsInside, FixedSize, AttrWalk, ToInt32, Extended;
    ReadsInside(m, t, 4);
    var kind := FixedSize(MsgType(m));
    if kind.Some? && HasFixed(m, kind.value) {
      EventExtends(m, t, kind.value);
      FieldsExtend(MsgType(m), Slice(m, HEADER_SIZE, kind.value), Attrs(m, kind.value), t);
    } else {
      NoEventExtends(m, t);
    }
  }

  /** And exactly then. */
  lemma {:induction false} EventIsLocalIff(m: seq<Byte>)
    requires Framed(m)
    ensures (forall s: seq<Byte>, t: seq<Byte> :: EventOf(m + s) == EventOf(m + t)) <==> EventInside(m)
  {
    hide U32At, U16At, EventFrom, FieldsInside, FixedSize, Attrs, EventOf, Extended, ZEROS, ONES;
    if EventInside(m) {
      forall s: seq<Byte>, t: seq<Byte>
        ensures EventOf(m + s) == EventOf(m + t)
      {
        EventIsLocal(m, s);
        EventIsLocal(m, t);
      }
    } else {
      var size := FixedSize(MsgType(m)).value;
      EventExtends(m, ZEROS, size);
      EventExtends(m, ONES, size);
      FieldsLeak(MsgType(m), Slice(m, HEADER_SIZE, size), Attrs(m, size));
      assert EventOf(m + ZEROS) != EventOf(m + ONES);
    }
  }

  /** Attributes that are each read within their own payload are inside. */
  lemma ContainedIsInside(msgType: U16, family: Byte, attrs: seq<Attribute>)
    requires Contained(msgType, family, attrs)
    ensures FieldsInside(msgType, family, attrs)
  {
    hide LastOf, FirstFilled, Bare;
    FirstFilledBare(attrs, IFLA_IFNAME);
    LastOfBare(attrs, IFA_LABEL);
    forall ty: U16 | ty in AddressTypes(msgType)
      ensures AddressInside(LastOf(attrs, ty), family)
    {
      LastOfBare(attrs, ty);
    }
  }

  /** Decoding an encoded message gives the event that its parts describe. */
  lemma EncodedEvent(msg: Message, t: seq<Byte>)
    requires msg.Valid() && FixedSize(msg.msgType) == Some(|msg.fixed|)
    requires Contained(msg.msgType, At(msg.fixed, 0), msg.attrs)
    ensures EventOf(msg.Encode() + t) == EventFrom(msg.msgType, msg.fixed, msg.attrs)
  {
    hide U32At, U16At, EventFrom, Contained, FixedSize, Attrs, Bare;
    var view := msg.Encode() + t;
    var size := |msg.fixed|;
    ParseEncoded(msg, t);
    HeaderFields(view);
    ContainedBare(msg.msgType, At(msg.fixed, 0), Attrs(view, size));
    BareDecodes(msg.msgType, msg.fixed, Attrs(view, size));
  }

  lemma HeaderFields(view: seq<Byte>)
    ensures HeaderAt(view).msgType == MsgType(view) && HeaderAt(view).len == U32At(view, 0)
  {
  }

  /** The two lists give every known type the same last and first attribute. */
  ghost predicate Agree(msgType: U16, a: seq<Attribute>, b: seq<Attribute>) {
    forall ty | ty in KnownTypes(msgType) ::
      LastOf(a, ty) == LastOf(b, ty) && FirstFilled(a, ty) == FirstFilled(b, ty)
  }

  lemma AgreeDecodes(msgType: U16, fixed: seq<Byte>, a: seq<Attribute>, b: seq<Attribute>)
    requires Agree(msgType, a, b)
    ensures EventFrom(msgType, fixed, a) == EventFrom(msgType, fixed, b)
  {
    hide LastOf, FirstFilled, AddressOf, StringOf, HwAddr, U32At, U16At, Decimal;
  }

  /** No two attributes have the same type. */
  predicate DistinctTypes(attrs: seq<Attribute>) {
    forall i, j | 0 <= i < j < |attrs| :: attrs[i].rtaType != attrs[j].rtaType
  }

  lemma {:induction false} FirstFilledIsFirst(attrs: seq<Attribute>, ty: U16)
    ensures FirstFilled(attrs, ty).None? <==>
              forall a | a in attrs :: a.rtaType != ty || a.payload == []
    decreases |attrs|
  {
    if attrs != [] {
      FirstFilledIsFirst(attrs[1..], ty);
      assert attrs == [attrs[0]] + attrs[1..];
    }
  }

  /** Rearranging attributes of pairwise distinct types changes nothing. */
  lemma {:induction false} PermutationAgrees(msgType: U16, a: seq<Attribute>, b: seq<Attribute>)
    requires multiset(a) == multiset(b) && DistinctTypes(a)
    ensures Agree(msgType, a, b)
  {
    hide KnownTypes, LastOf, FirstFilled;
    assert forall x :: x in a <==> x in multiset(a);
    assert forall x :: x in b <==> x in multiset(b);
    forall ty | ty in KnownTypes(msgType)
      ensures LastOf(a, ty) == LastOf(b, ty) && FirstFilled(a, ty) == FirstFilled(b, ty)
    {
      LastOfIsLast(a, ty);
      LastOfIsLast(b, ty);
      LastOfBare(a, ty);
      LastOfBare(b, ty);
      FirstFilledIsFirst(a, ty);
      FirstFilledIsFirst(b, ty);
      FirstFilledBare(a, ty);
      FirstFilledBare(b, ty);
      if LastOf(a, ty).Some? && LastOf(b, ty).Some? {
        OneOfEachType(a, LastOf(a, ty).value, LastOf(b, ty).value);
      }
      if FirstFilled(a, ty).Some? && FirstFilled(b, ty).Some? {
        OneOfEachType(a, FirstFilled(a, ty).value, FirstFilled(b, ty).value);
      }
    }
  }

  lemma OneOfEachType(attrs: seq<Attribute>, x: Attribute, y: Attribute)
    requires DistinctTypes(attrs) && x in attrs && y in attrs && x.rtaType == y.rtaType
    ensures x == y
  {
    var i :| 0 <= i < |attrs| && attrs[i] == x;
    var j :| 0 <= j < |attrs| && attrs[j] == y;
    assert !(i < j) && !(j < i);
  }

  lemma {:induction false} LastOfAppend(a: seq<Attribute>, b: seq<Attribute>, ty: U16)
    ensures LastOf(a + b, ty) == if LastOf(b, ty).Some? then LastOf(b, ty) else LastOf(a, ty)
    decreases |b|
  {
    if b == [] {
      assert a + b == a;
    } else {
      assert (a + b)[..|a + b| - 1] == a + b[..|b| - 1];
      LastOfAppend(a, b[..|b| - 1], ty);
    }
  }

  lemma {:induction false} FirstFilledAppend(a: seq<Attribute>, b: seq<Attribute>, ty: U16)
    ensures FirstFilled(a + b, ty) == if FirstFilled(a, ty).Some? then FirstFilled(a, ty) else FirstFilled(b, ty)
    decreases |a|
  {
    if a == [] {
      assert a + b == b;
    } else {
      assert (a + b)[1..] == a[1..] + b;
      FirstFilledAppend(a[1..], b, ty);
    }
  }

  /** Inserting an attribute of an unknown type anywhere changes nothing. */
  lemma {:induction false} UnknownTypeAgrees(msgType: U16, before: seq<Attribute>, u: Attribute, after: seq<Attribute>)
    requires u.rtaType !in KnownTypes(msgType)
    ensures Agree(msgType, before + after, before + [u] + after)
  {
    hide KnownTypes;
    forall ty | ty in KnownTypes(msgType)
      ensures LastOf(before + after, ty) == LastOf(before + [u] + after, ty)
      ensures FirstFilled(before + after, ty) == FirstFilled(before + [u] + after, ty)
    {
      LastOfAppend(before, after, ty);
      LastOfAppend(before + [u], after, ty);
      LastOfAppend(before, [u], ty);
      FirstFilledAppend(before, after, ty);
      FirstFilledAppend(before + [u], after, ty);
      FirstFilledAppend(before, [u], ty);
    }
  }

  /** The messages have the same kind and fixed part, and decode in place. */
  predicate Comparable(x: Message, y: Message) {
    && x.Valid() && y.Valid()
    && x.msgType == y.msgType && x.fixed == y.fixed
    && FixedSize(x.msgType) == Some(|x.fixed|)
    && Contained(x.msgType, At(x.fixed, 0), x.attrs)
    && Contained(y.msgType, At(y.fixed, 0), y.attrs)
  }

  /** On the wire: two messages whose attributes are permutations of each other,
      with pairwise distinct types, decode to the same event, whatever memory
      follows each of them. */
  lemma {:induction false} AttributeOrderIsIrrelevant(x: Message, y: Message, s: seq<Byte>, t: seq<Byte>)
    requires Comparable(x, y)
    requires multiset(x.attrs) == multiset(y.attrs) && DistinctTypes(x.attrs)
    ensures EventOf(x.Encode() + s) == EventOf(y.Encode() + t)
  {
    hide EventOf, EventFrom, Contained;
    EncodedEvent(x, s);
    EncodedEvent(y, t);
    PermutationAgrees(x.msgType, x.attrs, y.attrs);
    AgreeDecodes(x.msgType, x.fixed, x.attrs, y.attrs);
  }

  /** On the wire: one more attribute of a type the decoder does not know leaves
      the event as it was. */
  lemma {:induction false} UnknownAttributeIsIrrelevant(
    x: Message, y: Message, i: nat, u: Attribute, s: seq<Byte>, t: seq<Byte>)
    requires Comparable(x, y)
    requires i <= |x.attrs| && y.attrs == x.attrs[..i] + [u] + x.attrs[i..]
    requires u.rtaType !in KnownTypes(x.msgType)
    ensures EventOf(x.Encode() + s) == EventOf(y.Encode() + t)
  {
    hide EventOf, EventFrom, Contained;
    EncodedEvent(x, s);
    EncodedEvent(y, t);
    assert x.attrs == x.attrs[..i] + x.attrs[i..];
    UnknownTypeAgrees(x.msgType, x.attrs[..i], u, x.attrs[i..]);
    AgreeDecodes(x.msgType, x.fixed, x.attrs, y.attrs);
  }
}
