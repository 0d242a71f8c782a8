/**
 The values that decoders make of attribute payloads.

 A printable IP address is kept as the family and bytes that inet_ntop formats;
 inet_ntop itself is not part of this model.
 */
module Text {
  import opened Wrappers
  import opened Bytes
  import opened Wire
  import opened Attributes

  datatype Address = NoAddress | Inet(bytes: seq<Byte>) | Inet6(bytes: seq<Byte>)

  /** The number of bytes inet_ntop reads for a family, 0 for any other. */
  function AddressWidth(family: Byte): nat {
    if family == AF_INET then 4 else if family == AF_INET6 then 16 else 0
  }

  /** attribute_address: the payload length is not consulted. */
  function AddressOf(a: Attribute, family: Byte): Address {
    if family == AF_INET then Inet(Slice(a.Data(), 0, 4))
    else if family == AF_INET6 then Inet6(Slice(a.Data(), 0, 16))
    else NoAddress
  }

  /** A payload of at least the family's width is the address, byte for byte from
      its start; other families have none. */
  lemma {:induction false} AddressIsLeadingBytes(a: Attribute, family: Byte)
    ensures family == 2 && 4 <= |a.payload| ==> AddressOf(a, family) == Inet(a.payload[..4])
    ensures family == 10 && 16 <= |a.payload| ==> AddressOf(a, family) == Inet6(a.payload[..16])
    ensures family != 2 && family != 10 ==> AddressOf(a, family) == NoAddress
  {
    if 4 <= |a.payload| {
      assert a.Data()[0..4] == a.payload[..4];
    }
    if 16 <= |a.payload| {
      assert a.Data()[0..16] == a.payload[..16];
    }
  }

  /** attribute_uint32: a short payload reads as zero. */
  function U32Of(a: Attribute): U32 {
    if |a.payload| < 4 then 0 else U32At(a.payload, 0)
  }

  /** A payload that starts with a word is read as that word, a shorter one as 0. */
  lemma {:induction false} U32OfWord(ty: U16, n: U32, rest: seq<Byte>, beyond: seq<Byte>)
    ensures U32Of(Attribute(ty, PutU32(n) + rest, beyond)) == n
    ensures |rest| < 4 ==> U32Of(Attribute(ty, rest, beyond)) == 0
  {
    hide U32At, PutU32;
    U32RoundTrip(n, rest);
  }

  /** The characters up to the first NUL, as a C string reads memory. */
  function CString(data: seq<Byte>): string {
    if data == [] || data[0] == 0 then "" else [data[0] as char] + CString(data[1..])
  }

  /** attribute_string: an empty payload is the empty string; any other payload
      is read up to the first NUL, which may lie beyond it. */
  function StringOf(a: Attribute): string {
    if a.payload == [] then "" else CString(a.Data())
  }

  lemma {:induction false} CStringHasNoNul(data: seq<Byte>)
    ensures '\0' !in CString(data)
  {
    if data != [] && data[0] != 0 {
      CStringHasNoNul(data[1..]);
    }
  }

  /** A C string is the bytes of memory one by one, none of them NUL, and it stops
      only at a NUL or where memory ends. */
  lemma {:induction false} CStringIsPrefix(data: seq<Byte>)
    ensures var n := |CString(data)|;
            && n <= |data|
            && (forall i | 0 <= i < n :: data[i] != 0 && CString(data)[i] == data[i] as char)
            && (n < |data| ==> data[n] == 0)
    decreases |data|
  {
    if data != [] && data[0] != 0 {
      var rest := data[1..];
      CStringIsPrefix(rest);
      assert CString(data) == [data[0] as char] + CString(rest);
      assert forall i | 1 <= i < |data| :: data[i] == rest[i - 1];
    }
  }

  /** A NUL inside the payload ends the string before what follows it. */
  lemma {:induction false} CStringStops(payload: seq<Byte>, beyond: seq<Byte>)
    requires 0 in payload
    ensures CString(payload + beyond) == CString(payload)
    decreases |payload|
  {
    if payload[0] != 0 {
      assert (payload + beyond)[1..] == payload[1..] + beyond;
      CStringStops(payload[1..], beyond);
    }
  }

  /** trim_string drops exactly the run of trailing NULs. */
  method TrimString(sv: string) returns (r: string)
    ensures r <= sv
    ensures r == "" || r[|r| - 1] != '\0'
    ensures forall k | |r| <= k < |sv| :: sv[k] == '\0'
  {
    r := sv;
    while r != "" && r[|r| - 1] == '\0'
      invariant r <= sv
      invariant forall k | |r| <= k < |sv| :: sv[k] == '\0'
      decreases |r|
    {
      r := r[..|r| - 1];
    }
  }

  method AttributeString(a: Attribute) returns (r: string)
    ensures r == StringOf(a)
  {
    if |a.payload| == 0 {
      return "";
    }
    var buffer := CString(a.Data());
    r := TrimString(buffer);
    assert |r| == |buffer| || buffer[|r|] == '\0';
    CStringHasNoNul(a.Data());
    assert r == buffer[..|r|];
  }

  const HEX_DIGITS: string := "0123456789abcdef"

  function HexOf(b: Byte): (s: string)
    ensures |s| == 2
  {
    [HEX_DIGITS[b / 16 % 16], HEX_DIGITS[b % 16]]
  }

  /** The two hex digits of each byte, separated by colons. */
  function HwAddr(payload: seq<Byte>): string {
    if payload == [] then ""
    else if |payload| == 1 then HexOf(payload[0])
    else HwAddr(payload[..|payload| - 1]) + ":" + HexOf(payload[|payload| - 1])
  }

  method AttributeHwaddr(a: Attribute) returns (value: string)
    ensures value == HwAddr(a.payload)
  {
    var payload := |a.payload|;
    value := "";
    if payload == 0 {
      return;
    }
    var data := a.Data();
    for i := 0 to payload
      invariant value == HwAddr(a.payload[..i])
    {
      if i != 0 {
        value := value + [':'];
      }
      var byte := data[i];
      value := value + [HEX_DIGITS[byte / 16 % 16]];
      value := value + [HEX_DIGITS[byte % 16]];
      assert a.payload[..i + 1][..i] == a.payload[..i];
    }
    assert a.payload[..payload] == a.payload;
  }

  /** n bytes take 3n - 1 characters: byte k in hex at 3k, ':' in between. */
  lemma {:induction false} HwAddrFormat(payload: seq<Byte>)
    requires payload != []
    ensures |HwAddr(payload)| == 3 * |payload| - 1
    ensures forall k | 0 <= k < |payload| :: HwAddr(payload)[3 * k..3 * k + 2] == HexOf(payload[k])
    ensures forall k | 1 <= k < |payload| :: HwAddr(payload)[3 * k - 1] == ':'
    decreases |payload|
  {
    hide HexOf;
    var n := |payload| - 1;
    var s := HwAddr(payload);
    if n > 0 {
      var init := payload[..n];
      HwAddrFormat(init);
      assert s == HwAddr(init) + ":" + HexOf(payload[n]);
      assert s[3 * n..3 * n + 2] == HexOf(payload[n]);
      forall k | 0 <= k < n
        ensures s[3 * k..3 * k + 2] == HexOf(payload[k])
      {
        assert s[3 * k..3 * k + 2] == HwAddr(init)[3 * k..3 * k + 2];
        assert init[k] == payload[k];
      }
    }
  }

  lemma HexInjective(a: Byte, b: Byte)
    requires HexOf(a) == HexOf(b)
    ensures a == b
  {
    HexDigitInjective(a / 16 % 16, b / 16 % 16);
    HexDigitInjective(a % 16, b % 16);
  }

  lemma HexDigitInjective(a: nat, b: nat)
    requires a < 16 && b < 16
    requires HEX_DIGITS[a] == HEX_DIGITS[b]
    ensures a == b
  {
  }

  /** Different hardware addresses, of any lengths, print differently. */
  lemma {:induction false} HwAddrInjective(p: seq<Byte>, q: seq<Byte>)
    requires HwAddr(p) == HwAddr(q)
    ensures p == q
  {
    if p != [] {
      HwAddrFormat(p);
    }
    if q != [] {
      HwAddrFormat(q);
    }
    assert |p| == |q|;
    forall k | 0 <= k < |p|
      ensures p[k] == q[k]
    {
      assert HexOf(p[k]) == HwAddr(p)[3 * k..3 * k + 2];
      HexInjective(p[k], q[k]);
    }
  }

  /** The value of a lowercase hexadecimal digit. */
  function HexValue(c: char): Option<nat> {
    if '0' <= c <= '9' then Some(c as nat - '0' as nat)
    else if 'a' <= c <= 'f' then Some(10 + c as nat - 'a' as nat)
    else None
  }

  /** Two digits read as a byte, the high one first. */
  function ReadHex(high: char, low: char): Option<nat> {
    match (HexValue(high), HexValue(low))
    case (Some(h), Some(l)) => Some(16 * h + l)
    case _ => None
  }

  lemma DigitReadsBack(d: nat)
    requires d < 16
    ensures HexValue(HEX_DIGITS[d]) == Some(d)
  {
  }

  /** The text of a hardware address reads back, byte for byte, as lowercase
      hexadecimal. */
  lemma {:induction false} HwAddrReadsBack(payload: seq<Byte>)
    ensures payload == [] ==> HwAddr(payload) == ""
    ensures payload != [] ==> |HwAddr(payload)| == 3 * |payload| - 1
    ensures forall k | 0 <= k < |payload| ::
              ReadHex(HwAddr(payload)[3 * k], HwAddr(payload)[3 * k + 1]) == Some(payload[k])
  {
    hide HexOf, ReadHex, HwAddr;
    if payload == [] {
      NoHwAddrText();
    } else {
      HwAddrFormat(payload);
      var s := HwAddr(payload);
      forall k | 0 <= k < |payload|
        ensures ReadHex(s[3 * k], s[3 * k + 1]) == Some(payload[k])
      {
        var pair := s[3 * k..3 * k + 2];
        assert pair == HexOf(payload[k]) && s[3 * k] == pair[0] && s[3 * k + 1] == pair[1];
        ByteReadsBack(payload[k]);
      }
    }
  }

  lemma NoHwAddrText()
    ensures HwAddr([]) == ""
  {
  }

  lemma ByteReadsBack(b: Byte)
    ensures ReadHex(HexOf(b)[0], HexOf(b)[1]) == Some(b)
  {
    DigitReadsBack(b / 16 % 16);
    DigitReadsBack(b % 16);
  }

  /** std::to_string on an unsigned number. */
  function Decimal(n: nat): string {
    var digit := ['0' + (n % 10) as char];
    if n < 10 then digit else Decimal(n / 10) + digit
  }

  function ParseDecimal(s: string): int {
    if s == "" then 0 else 10 * ParseDecimal(s[..|s| - 1]) + (s[|s| - 1] as int - '0' as int)
  }

  /** The text reads back, is made of digits and has no leading zero. */
  lemma {:induction false} DecimalRoundTrip(n: nat)
    ensures ParseDecimal(Decimal(n)) == n
    ensures Decimal(n) != "" && (n > 0 ==> Decimal(n)[0] != '0')
    ensures forall c | c in Decimal(n) :: '0' <= c <= '9'
    decreases n
  {
    var s := Decimal(n);
    if n < 10 {
      assert s[..0] == "";
    } else {
      DecimalRoundTrip(n / 10);
      assert s[..|s| - 1] == Decimal(n / 10);
    }
  }
}
