/**
 * Unsigned words as sequences of bits, least significant bit first, with the operations the CRC
 * code of core/Utilities/CRC.h uses. The length of a word is the number of digits of its type.
 */
module CrcBits {
  import opened Alignment

  type Bits = seq<bool>

  function Zeros(n: nat): (r: Bits)
    ensures |r| == n
  {
    seq(n, _ => false)
  }

  function Xor(a: Bits, b: Bits): (r: Bits)
    requires |a| == |b|
    ensures |r| == |a|
  {
    seq(|a|, i requires 0 <= i < |a| => a[i] != b[i])
  }

  /** Shifts of a fixed-size word: bits that leave it are lost. */
  function Shl(a: Bits, k: nat): (r: Bits)
    requires k <= |a|
    ensures |r| == |a|
  {
    Zeros(k) + a[..|a| - k]
  }

  function Shr(a: Bits, k: nat): (r: Bits)
    requires k <= |a|
    ensures |r| == |a|
  {
    a[k..] + Zeros(k)
  }

  /** The word of n digits with the low bits a. */
  function Extend(a: Bits, n: nat): (r: Bits)
    requires |a| <= n
    ensures |r| == n
  {
    a + Zeros(n - |a|)
  }

  /** a & BIT_MASK for a CRC of w bits. */
  function Mask(a: Bits, w: nat): (r: Bits)
    requires w <= |a|
    ensures |r| == |a|
  {
    Extend(a[..w], |a|)
  }

  ghost predicate FitsIn(a: Bits, w: nat) {
    w <= |a| && forall i :: w <= i < |a| ==> !a[i]
  }

  lemma XorZeros(a: Bits)
    ensures Xor(a, Zeros(|a|)) == a && Xor(Zeros(|a|), a) == a
  {
  }

  // ----- Bytes -----

  type Byte = x: int | 0 <= x < 256

  function ToBits(x: nat, n: nat): (r: Bits)
    ensures |r| == n
  {
    if n == 0 then [] else [x % 2 == 1] + ToBits(x / 2, n - 1)
  }

  function FromBits(b: Bits): nat {
    if b == [] then 0 else (if b[0] then 1 else 0) + 2 * FromBits(b[1..])
  }

  lemma {:induction false} FromBitsBound(b: Bits)
    ensures FromBits(b) < Pow2(|b|)
  {
    if b != [] {
      FromBitsBound(b[1..]);
    }
  }

  lemma {:induction false} BitsRoundTrip(b: Bits)
    ensures ToBits(FromBits(b), |b|) == b
  {
    if b != [] {
      BitsRoundTrip(b[1..]);
      assert b == [b[0]] + b[1..];
    }
  }

  /** Bit i is the bit of weight 2 to the power of i. */
  lemma {:induction false} ToBitsAt(x: nat, n: nat, i: nat)
    requires i < n
    ensures 0 < Pow2(i) && ToBits(x, n)[i] == (x / Pow2(i) % 2 == 1)
    decreases n
  {
    if i > 0 {
      ToBitsAt(x / 2, n - 1, i - 1);
      DivideTwice(x, Pow2(i - 1));
    }
  }

  /** The value of eight bits as an unsigned char. */
  function ToByte(b: Bits): (x: Byte)
    requires |b| == 8
    ensures ToBits(x, 8) == b
  {
    FromBitsBound(b);
    BitsRoundTrip(b);
    assert Pow2(8) == 256 by { assert Pow2(4) == 16; }
    FromBits(b)
  }

  // ----- Reflection -----

  /** The low w bits in reverse order. */
  function Reflected(a: Bits, w: nat): (r: Bits)
    requires w <= |a|
    ensures |r| == |a|
  {
    seq(|a|, i requires 0 <= i < |a| => i < w && a[w - 1 - i])
  }

  lemma ReflectedTwice(a: Bits, w: nat)
    requires w <= |a|
    ensures FitsIn(Reflected(a, w), w)
    ensures Reflected(Reflected(a, w), w) == Mask(a, w)
  {
  }

  lemma ReflectRound(value: Bits, i: nat)
    requires i < |value|
    ensures Shr(Shr(value, i), 1) == Shr(value, i + 1)
    ensures Shl(Reflected(value, i), 1)[0 := Shr(value, i)[0]] == Reflected(value, i + 1)
  {
  }

  /** CRC::Reflect: numBits rounds that move the lowest bit of value into reversedValue. */
  method Reflect(value: Bits, numBits: nat) returns (reversed: Bits)
    requires 0 < |value| && numBits <= |value|
    ensures reversed == Reflected(value, numBits)
  {
    var rest := value;
    reversed := Zeros(|value|);
    assert Shr(value, 0) == value && Reflected(value, 0) == Zeros(|value|);
    for i := 0 to numBits
      invariant rest == Shr(value, i) && reversed == Reflected(value, i)
    {
      ReflectRound(value, i);
      reversed := Shl(reversed, 1)[0 := rest[0]];
      rest := Shr(rest, 1);
    }
  }
}
