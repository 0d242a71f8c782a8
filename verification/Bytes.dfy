/**
 Bytes of memory and the little-endian integers read from and written to them.

 A view is the memory that starts at some address and runs to the end of the
 buffer that holds it. Reads are total: a byte past the end of the buffer reads
 as zero. The laws of this project that describe well-formed input never depend
 on such a byte.
 */
module Bytes {
  type Byte = b: nat | b < 0x100
  type U16 = n: nat | n < 0x1_0000
  type U32 = n: nat | n < 0x1_0000_0000

  const TWO_TO_THE_32 := 0x1_0000_0000

  function Min(a: nat, b: nat): nat {
    if a <= b then a else b
  }

  function Align4(n: nat): (r: nat)
    ensures n <= r < n + 4 && r % 4 == 0
  {
    n + (3 - (n + 3) % 4)
  }

  function Zeros(n: nat): (s: seq<Byte>)
    ensures |s| == n
  {
    seq(n, _ => 0)
  }

  function At(m: seq<Byte>, i: nat): Byte {
    if i < |m| then m[i] else 0
  }

  /** The view that starts i bytes into m. */
  function From(m: seq<Byte>, i: nat): seq<Byte> {
    if i <= |m| then m[i..] else []
  }

  /** The n bytes that start i bytes into m. */
  function Slice(m: seq<Byte>, i: nat, n: nat): (s: seq<Byte>)
    ensures |s| == n
    ensures i + n <= |m| ==> s == m[i..i + n]
  {
    if i + n <= |m| then m[i..i + n] else
    var rest := From(m, i);
    rest + Zeros(n - |rest|)
  }

  function U16At(m: seq<Byte>, i: nat): U16 {
    At(m, i) + 0x100 * At(m, i + 1)
  }

  function U32At(m: seq<Byte>, i: nat): U32 {
    At(m, i) + 0x100 * At(m, i + 1) + 0x1_0000 * At(m, i + 2) + 0x100_0000 * At(m, i + 3)
  }

  /** The two's complement reading of a 32-bit word. */
  function ToInt32(n: U32): int {
    if n < 0x8000_0000 then n else n - TWO_TO_THE_32
  }

  function I32At(m: seq<Byte>, i: nat): int {
    ToInt32(U32At(m, i))
  }

  function PutU16(n: U16): (s: seq<Byte>)
    ensures |s| == 2
  {
    [n % 0x100, n / 0x100]
  }

  function PutU32(n: U32): (s: seq<Byte>)
    ensures |s| == 4
  {
    [n % 0x100, n / 0x100 % 0x100, n / 0x1_0000 % 0x100, n / 0x100_0000]
  }

  lemma U16RoundTrip(n: U16, t: seq<Byte>)
    ensures U16At(PutU16(n) + t, 0) == n
  {
    var m := PutU16(n) + t;
    assert At(m, 0) == n % 0x100 && At(m, 1) == n / 0x100;
  }

  lemma U32RoundTrip(n: U32, t: seq<Byte>)
    ensures U32At(PutU32(n) + t, 0) == n
  {
    var m := PutU32(n) + t;
    assert m[0] == n % 0x100 && m[1] == n / 0x100 % 0x100;
    assert m[2] == n / 0x1_0000 % 0x100 && m[3] == n / 0x100_0000;
    assert n / 0x1_0000 == n / 0x100 / 0x100 && n / 0x100_0000 == n / 0x1_0000 / 0x100;
  }

  /** Little-endian, word by word: the first byte is the least significant. */
  lemma {:induction false} LittleEndian(m: seq<Byte>, i: nat)
    ensures U16At(m, i) % 0x100 == At(m, i) && U16At(m, i) / 0x100 == At(m, i + 1)
    ensures U32At(m, i) % 0x1_0000 == U16At(m, i) && U32At(m, i) / 0x1_0000 == U16At(m, i + 2)
  {
    assert U32At(m, i) == U16At(m, i) + 0x1_0000 * U16At(m, i + 2);
  }

  /** The signed reading is the number in range that is congruent to the word. */
  lemma {:induction false} ToInt32IsCongruent(n: U32)
    ensures -0x8000_0000 <= ToInt32(n) < 0x8000_0000
    ensures (ToInt32(n) - n) % 0x1_0000_0000 == 0
  {
  }

  /** A read that ends inside m does not see what follows m. */
  lemma ReadsInside(m: seq<Byte>, t: seq<Byte>, i: nat)
    ensures i + 2 <= |m| ==> U16At(m + t, i) == U16At(m, i)
    ensures i + 4 <= |m| ==> U32At(m + t, i) == U32At(m, i) && I32At(m + t, i) == I32At(m, i)
  {
    assert forall k | 0 <= k < |m| :: At(m + t, k) == At(m, k);
  }

  /** A read that starts past p does not see p. */
  lemma ReadsAfter(p: seq<Byte>, m: seq<Byte>, i: nat)
    ensures At(p + m, |p| + i) == At(m, i)
    ensures U16At(p + m, |p| + i) == U16At(m, i)
    ensures U32At(p + m, |p| + i) == U32At(m, i)
  {
    assert forall k: nat :: At(p + m, |p| + k) == At(m, k);
  }

  lemma FromAppend(m: seq<Byte>, t: seq<Byte>, i: nat)
    requires i <= |m|
    ensures From(m + t, i) == From(m, i) + t
  {
  }
}
