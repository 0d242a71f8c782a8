/**
 The attribute walk inside one message. The counter `attr_length` is a signed
 int, so it may end below zero but never wraps.
 */
module Attributes {
  import opened Bytes
  import opened Wire

  /** An attribute as a callback sees it: its type, its payload, and the memory
      that follows the payload. */
  datatype Attribute = Attribute(rtaType: U16, payload: seq<Byte>, beyond: seq<Byte>) {
    /** The attribute without the memory that follows it. */
    function Bare(): Attribute {
      this.(beyond := [])
    }

    /** The attribute with more memory behind it. */
    function Extend(t: seq<Byte>): Attribute {
      this.(beyond := beyond + t)
    }

    /** Memory from the payload on, as RTA_DATA points at it. */
    function Data(): seq<Byte> {
      payload + beyond
    }
  }

  predicate RtaOk(view: seq<Byte>, attrLength: int) {
    RTATTR_SIZE <= attrLength && RTATTR_SIZE <= U16At(view, 0) <= attrLength
  }

  function AttributeAt(view: seq<Byte>): Attribute
    requires RTATTR_SIZE <= U16At(view, 0)
  {
    var len := U16At(view, 0);
    Attribute(U16At(view, 2), Slice(view, RTATTR_SIZE, len - RTATTR_SIZE), From(view, len))
  }

  function AttrWalk(view: seq<Byte>, attrLength: int): seq<Attribute>
    decreases attrLength
  {
    if !RtaOk(view, attrLength) then [] else
    var step := Align4(U16At(view, 0));
    [AttributeAt(view)] + AttrWalk(From(view, step), attrLength - step)
  }

  /** What is left of the signed counter when the walk stops. */
  function AttrRest(view: seq<Byte>, attrLength: int): int
    decreases attrLength
  {
    if !RtaOk(view, attrLength) then attrLength else
    var step := Align4(U16At(view, 0));
    AttrRest(From(view, step), attrLength - step)
  }

  /** The signed length of the attribute area after a fixed part of this size. */
  function AttrLength(m: seq<Byte>, fixedSize: nat): int {
    ToInt32(U32At(m, 0)) - (HEADER_SIZE + fixedSize)
  }

  /** The attributes of message m, in the order the walk visits them. */
  function Attrs(m: seq<Byte>, fixedSize: nat): seq<Attribute> {
    AttrWalk(From(m, HEADER_SIZE + fixedSize), AttrLength(m, fixedSize))
  }

  function Bare(attrs: seq<Attribute>): (r: seq<Attribute>)
    ensures |r| == |attrs|
  {
    seq(|attrs|, i requires 0 <= i < |attrs| => attrs[i].Bare())
  }

  function Extended(attrs: seq<Attribute>, t: seq<Byte>): (r: seq<Attribute>)
    ensures |r| == |attrs|
  {
    seq(|attrs|, i requires 0 <= i < |attrs| => attrs[i].Extend(t))
  }

  /** for_each_attr: the result lists the callback's arguments in call order. */
  method ForEachAttr(m: seq<Byte>, fixedSize: nat) returns (calls: seq<Attribute>)
    ensures calls == Attrs(m, fixedSize)
  {
    hide U16At, Align4, AttributeAt;
    calls := [];
    var attrLength := AttrLength(m, fixedSize);
    if attrLength <= 0 {
      return;
    }
    var attr := From(m, HEADER_SIZE + fixedSize);
    while RtaOk(attr, attrLength)
      invariant -3 <= attrLength
      invariant calls + AttrWalk(attr, attrLength) == Attrs(m, fixedSize)
      decreases attrLength
    {
      calls := calls + [AttributeAt(attr)];
      var step := Align4(U16At(attr, 0));
      attr, attrLength := From(attr, step), attrLength - step;
    }
  }

  /** The counter ends at -3 at the lowest, and what it lost is exactly the
      padded size of the attributes visited. */
  lemma {:induction false} AttrCounter(view: seq<Byte>, attrLength: int)
    requires -3 <= attrLength
    ensures -3 <= AttrRest(view, attrLength) <= attrLength
    ensures AttrRest(view, attrLength) == attrLength - PaddedSize(AttrWalk(view, attrLength))
    decreases attrLength
  {
    hide U16At, Align4, AttributeAt;
    if RtaOk(view, attrLength) {
      var step := Align4(U16At(view, 0));
      AttrCounter(From(view, step), attrLength - step);
      var a, rest := AttributeAt(view), AttrWalk(From(view, step), attrLength - step);
      assert ([a] + rest)[1..] == rest;
      AttributeSize(view);
    }
  }

  lemma AttributeSize(view: seq<Byte>)
    requires RTATTR_SIZE <= U16At(view, 0)
    ensures RTATTR_SIZE + |AttributeAt(view).payload| == U16At(view, 0)
  {
    hide U16At;
  }

  function PaddedSize(attrs: seq<Attribute>): nat {
    if attrs == [] then 0 else Align4(RTATTR_SIZE + |attrs[0].payload|) + PaddedSize(attrs[1..])
  }

  /** Attribute a sits inside the first limit bytes of view: its header starts
      at an aligned offset and its payload ends no later than limit. */
  ghost predicate Sits(view: seq<Byte>, limit: int, a: Attribute)
  {
    var p := |view| - |a.beyond| - |a.payload| - RTATTR_SIZE;
    && 0 <= p && p % 4 == 0
    && p + RTATTR_SIZE + |a.payload| <= limit
    && U16At(view, p) == RTATTR_SIZE + |a.payload|
    && U16At(view, p + 2) == a.rtaType
    && view[p + RTATTR_SIZE..] == a.payload + a.beyond
  }

  /** Whatever the attribute bytes are, every attribute visited lies inside the
      area that attr_length measures. */
  lemma {:induction false} AttributesAreContained(view: seq<Byte>, attrLength: int)
    requires attrLength <= |view|
    ensures forall a | a in AttrWalk(view, attrLength) :: Sits(view, attrLength, a)
    decreases attrLength
  {
    hide U16At, Align4, Sits, AttributeAt;
    if RtaOk(view, attrLength) {
      var step := Align4(U16At(view, 0));
      var rest := From(view, step);
      FirstSits(view, attrLength);
      if step <= |view| {
        AttributesAreContained(rest, attrLength - step);
        forall b | b in AttrWalk(rest, attrLength - step)
          ensures Sits(view, attrLength, b)
        {
          SitsDeeper(view, step, attrLength, b);
        }
      }
    }
  }

  lemma FirstSits(view: seq<Byte>, attrLength: int)
    requires attrLength <= |view| && RtaOk(view, attrLength)
    ensures Sits(view, attrLength, AttributeAt(view))
  {
    hide U16At;
    var a := AttributeAt(view);
    assert view[RTATTR_SIZE..] == a.payload + a.beyond;
  }

  lemma SitsDeeper(view: seq<Byte>, step: nat, limit: int, a: Attribute)
    requires step <= |view| && step % 4 == 0
    requires Sits(view[step..], limit - step, a)
    ensures Sits(view, limit, a)
  {
    hide U16At;
    var p := |view| - step - |a.beyond| - |a.payload| - RTATTR_SIZE;
    AlignedSum(step, p);
    assert view == view[..step] + view[step..];
    ReadsAfter(view[..step], view[step..], p);
    ReadsAfter(view[..step], view[step..], p + 2);
    assert view[step + p + RTATTR_SIZE..] == view[step..][p + RTATTR_SIZE..];
  }

  lemma AlignedSum(a: nat, b: nat)
    requires a % 4 == 0 && b % 4 == 0
    ensures (a + b) % 4 == 0
  {
  }

  /** Memory past the attribute area only extends what follows each payload. */
  lemma {:induction false} WalkExtends(view: seq<Byte>, t: seq<Byte>, attrLength: int)
    requires attrLength <= |view|
    ensures AttrWalk(view + t, attrLength) == Extended(AttrWalk(view, attrLength), t)
    decreases attrLength
  {
    hide U16At, Align4, AttributeAt, Extended, RtaOk;
    ExtendedEmpty(t);
    OkExtends(view, t, attrLength);
    if RtaOk(view, attrLength) {
      var step := Align4(U16At(view, 0));
      AttributeExtends(view, t);
      if step <= |view| {
        FromAppend(view, t, step);
        WalkExtends(From(view, step), t, attrLength - step);
      } else {
        ShortArea(From(view, step), attrLength - step);
        ShortArea(From(view + t, step), attrLength - step);
      }
      ExtendedCons(AttributeAt(view), AttrWalk(From(view, step), attrLength - step), t);
    }
  }

  lemma OkExtends(view: seq<Byte>, t: seq<Byte>, attrLength: int)
    requires attrLength <= |view|
    ensures RtaOk(view + t, attrLength) == RtaOk(view, attrLength)
    ensures RtaOk(view, attrLength) ==>
              RTATTR_SIZE <= U16At(view, 0) <= attrLength && RTATTR_SIZE <= Align4(U16At(view, 0))
  {
    hide U16At, Align4;
    ReadsInside(view, t, 0);
  }

  lemma ShortArea(view: seq<Byte>, attrLength: int)
    requires attrLength < RTATTR_SIZE
    ensures AttrWalk(view, attrLength) == []
  {
  }

  lemma AttributeExtends(view: seq<Byte>, t: seq<Byte>)
    requires RTATTR_SIZE <= U16At(view, 0) <= |view|
    ensures U16At(view + t, 0) == U16At(view, 0)
    ensures AttributeAt(view + t) == AttributeAt(view).Extend(t)
  {
    hide U16At;
    ReadsInside(view, t, 0);
    ReadsInside(view, t, 2);
  }

  /** The attributes visited, but for what follows each payload, do not depend
      on memory past the attribute area. */
  lemma {:induction false} WalkIgnoresTail(view: seq<Byte>, t: seq<Byte>, attrLength: int)
    requires attrLength <= |view|
    ensures Bare(AttrWalk(view + t, attrLength)) == Bare(AttrWalk(view, attrLength))
  {
    hide AttrWalk;
    WalkExtends(view, t, attrLength);
  }

  lemma ExtendedEmpty(t: seq<Byte>)
    ensures Extended([], t) == []
  {
  }

  lemma ExtendedCons(a: Attribute, attrs: seq<Attribute>, t: seq<Byte>)
    ensures Extended([a] + attrs, t) == [a.Extend(t)] + Extended(attrs, t)
  {
  }

  lemma BareCons(a: Attribute, attrs: seq<Attribute>)
    ensures Bare([a] + attrs) == [a.Bare()] + Bare(attrs)
  {
  }

  /** Attributes whose length fits the 16-bit field. */
  predicate Encodable(attrs: seq<Attribute>) {
    forall a | a in attrs :: a.beyond == [] && RTATTR_SIZE + |a.payload| < 0x1_0000
  }

  function EncodeAttr(a: Attribute): (s: seq<Byte>)
    requires RTATTR_SIZE + |a.payload| < 0x1_0000
    ensures |s| == Align4(RTATTR_SIZE + |a.payload|)
  {
    var len := RTATTR_SIZE + |a.payload|;
    PutU16(len) + PutU16(a.rtaType) + a.payload + Zeros(Align4(len) - len)
  }

  function EncodeAttrs(attrs: seq<Attribute>): (s: seq<Byte>)
    requires Encodable(attrs)
    ensures |s| % 4 == 0
  {
    if attrs == [] then [] else EncodeAttr(attrs[0]) + EncodeAttrs(attrs[1..])
  }

  lemma EncodedAttrReads(a: Attribute, t: seq<Byte>)
    requires a.beyond == [] && RTATTR_SIZE + |a.payload| < 0x1_0000
    ensures U16At(EncodeAttr(a) + t, 0) == RTATTR_SIZE + |a.payload|
    ensures AttributeAt(EncodeAttr(a) + t).Bare() == a
  {
    var len := RTATTR_SIZE + |a.payload|;
    var body := a.payload + Zeros(Align4(len) - len) + t;
    var view := EncodeAttr(a) + t;
    assert view == PutU16(len) + (PutU16(a.rtaType) + body);
    U16RoundTrip(len, PutU16(a.rtaType) + body);
    ReadsAfter(PutU16(len), PutU16(a.rtaType) + body, 0);
    U16RoundTrip(a.rtaType, body);
    assert view[RTATTR_SIZE..len] == a.payload;
  }

  /** Walking encoded attributes gives them back in order, whatever follows. */
  lemma {:induction false} AttrRoundTrip(attrs: seq<Attribute>, t: seq<Byte>)
    requires Encodable(attrs)
    ensures Bare(AttrWalk(EncodeAttrs(attrs) + t, |EncodeAttrs(attrs)|)) == attrs
    decreases |attrs|
  {
    hide U16At, Align4, Bare, AttributeAt, EncodeAttr, RtaOk, AttrWalk;
    if attrs == [] {
      EmptyArea(t);
      assert EncodeAttrs(attrs) + t == t;
    } else {
      var a := attrs[0];
      var rest := EncodeAttrs(attrs[1..]) + t;
      var view := EncodeAttrs(attrs) + t;
      assert view == EncodeAttr(a) + rest;
      AttrRoundTrip(attrs[1..], t);
      assert From(view, |EncodeAttr(a)|) == rest;
      EncodedStep(a, rest, |EncodeAttrs(attrs[1..])|);
    }
  }

  lemma EmptyArea(view: seq<Byte>)
    ensures Bare(AttrWalk(view, 0)) == []
  {
  }

  lemma EncodedStep(a: Attribute, rest: seq<Byte>, area: nat)
    requires a.beyond == [] && RTATTR_SIZE + |a.payload| < 0x1_0000
    ensures Bare(AttrWalk(EncodeAttr(a) + rest, |EncodeAttr(a)| + area)) == [a] + Bare(AttrWalk(rest, area))
  {
    hide U16At, Align4, Bare, AttributeAt, EncodeAttr;
    var view := EncodeAttr(a) + rest;
    EncodedAttrReads(a, rest);
    assert From(view, |EncodeAttr(a)|) == rest;
    BareCons(AttributeAt(view), AttrWalk(rest, area));
  }
}
