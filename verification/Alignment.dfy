/** utils::align of core/rpcs3/util/asm.hpp: rounding up to a power of two in 64-bit arithmetic. */
module Alignment {

  const TWO64: int := 0x1_0000_0000_0000_0000

  type U64 = x: int | 0 <= x < 0x1_0000_0000_0000_0000

  predicate PowerOfTwo(a: nat) {
    a == 1 || (0 < a && a % 2 == 0 && PowerOfTwo(a / 2))
  }

  /**
   * (value + (align - 1)) & (0 - align): the sum wraps at 64 bits, and for a power of two the mask
   * drops the remainder modulo align; see AlignIsMask.
   */
  function Align(value: U64, align: U64): U64
    requires 0 < align
  {
    RoundingDown((value + (align - 1)) % TWO64, align);
    (value + (align - 1)) % TWO64 / align * align
  }

  lemma RoundingDown(x: nat, a: nat)
    requires 0 < a
    ensures 0 <= x / a * a <= x
    ensures x < x / a * a + a
    ensures x / a * a % a == 0
  {
    assert x == x / a * a + x % a;
    MultipleOf(x / a, a);
  }

  lemma Magnitude(d: int, a: int)
    requires 0 < a
    ensures d >= 1 ==> d * a >= a
    ensures d <= -1 ==> d * a <= -a
  {
  }

  lemma MultipleOf(k: nat, a: nat)
    requires 0 < a
    ensures k * a % a == 0
  {
    var q, r := (k * a) / a, (k * a) % a;
    assert k * a == q * a + r;
    assert (k - q) * a == r;
    Magnitude(k - q, a);
  }

  /** Unless the sum wraps, the result is the least multiple of align not below value. */
  lemma AlignSpec(value: U64, align: U64)
    requires 0 < align && value + align <= TWO64
    ensures Align(value, align) % align == 0
    ensures value <= Align(value, align) < value + align
    ensures value % align == 0 ==> Align(value, align) == value
  {
    var x := value + (align - 1);
    assert x % TWO64 == x;
    RoundingDown(x, align);
    if value % align == 0 {
      var q := value / align;
      assert value == q * align;
      assert x / align == q by {
        assert x == q * align + (align - 1);
        QuotientOf(q, align - 1, align);
      }
    }
  }

  /** No multiple of align lies between the value and the result. */
  lemma AlignIsLeast(value: U64, align: U64, multiple: nat)
    requires 0 < align && value + align <= TWO64 && multiple % align == 0 && value <= multiple
    ensures Align(value, align) <= multiple
  {
    AlignSpec(value, align);
    LeastMultiple(value, Align(value, align), align, multiple);
  }

  lemma LeastMultiple(value: nat, r: nat, a: nat, multiple: nat)
    requires 0 < a && r % a == 0 && multiple % a == 0 && r < value + a && value <= multiple
    ensures r <= multiple
  {
    var k, n := multiple / a, r / a;
    Recomposed(multiple, a);
    Recomposed(r, a);
    assert (n - k) * a == n * a - k * a;
    Magnitude(n - k, a);
  }

  lemma Recomposed(x: nat, a: nat)
    requires 0 < a && x % a == 0
    ensures x == x / a * a
  {
  }

  lemma QuotientOf(q: nat, r: nat, a: nat)
    requires r < a
    ensures (q * a + r) / a == q
  {
    var x := q * a + r;
    var d := x / a - q;
    assert x == x / a * a + x % a;
    assert d * a == r - x % a;
    Magnitude(d, a);
  }

  // ----- The mask of the source -----

  /** x & y, bit by bit. */
  function And(x: nat, y: nat): nat {
    if x == 0 then 0 else x % 2 * (y % 2) + 2 * And(x / 2, y / 2)
  }

  function Pow2(n: nat): nat {
    if n == 0 then 1 else 2 * Pow2(n - 1)
  }

  lemma {:induction false} AndAll(x: nat, n: nat)
    requires x < Pow2(n)
    ensures And(x, Pow2(n) - 1) == x
    decreases n
  {
    if n > 0 {
      var y := Pow2(n) - 1;
      assert y % 2 == 1 && y / 2 == Pow2(n - 1) - 1;
      AndAll(x / 2, n - 1);
    }
  }

  lemma {:induction false} HalfPower(a: nat, n: nat)
    requires PowerOfTwo(a) && 1 < a <= Pow2(n)
    ensures 0 < n && a % 2 == 0 && 0 < a / 2 <= Pow2(n - 1)
  {
  }

  lemma DivideTwice(x: nat, b: nat)
    requires 0 < b
    ensures x / (2 * b) == x / 2 / b
  {
    var q, h := x / 2 / b, x / 2;
    assert h == q * b + h % b && x == 2 * h + x % 2;
    var r := 2 * (h % b) + x % 2;
    assert x == q * (2 * b) + r;
    QuotientOf(q, r, 2 * b);
  }

  lemma AndEven(x: nat, b: nat, y: nat)
    requires y == 2 * b
    ensures And(x, y) == 2 * And(x / 2, b)
  {
    assert y % 2 == 0 && y / 2 == b;
  }

  lemma TwiceProduct(q: nat, b: nat)
    ensures q * (2 * b) == 2 * (q * b)
  {
  }

  /** Clearing the bits below a power of two is rounding down to a multiple of it. */
  lemma {:induction false} MaskRoundsDown(x: nat, a: nat, n: nat, y: nat)
    requires PowerOfTwo(a) && a <= Pow2(n) && x < Pow2(n) && y == Pow2(n) - a
    ensures And(x, y) == x / a * a
    decreases n
  {
    if a == 1 {
      AndAll(x, n);
    } else {
      HalfPower(a, n);
      var b, c := a / 2, Pow2(n - 1) - a / 2;
      MaskRoundsDown(x / 2, b, n - 1, c);
      DivideTwice(x, b);
      AndEven(x, c, y);
      TwiceProduct(x / 2 / b, b);
    }
  }

  lemma {:induction false} Pow2IsPower(n: nat)
    ensures 0 < Pow2(n) && PowerOfTwo(Pow2(n))
  {
    if n > 0 {
      Pow2IsPower(n - 1);
      var h := Pow2(n - 1);
      assert 2 * h % 2 == 0 && 2 * h / 2 == h;
    }
  }

  lemma Pow2Eight(n: nat)
    ensures Pow2(n + 8) == 256 * Pow2(n)
  {
    assert Pow2(n + 4) == 16 * Pow2(n) by { assert Pow2(n + 2) == 4 * Pow2(n); }
    assert Pow2(n + 6) == 4 * Pow2(n + 4);
  }

  lemma Pow2Of64()
    ensures Pow2(64) == TWO64
  {
    Pow2Eight(0);
    Pow2Eight(8);
    Pow2Eight(16);
    Pow2Eight(24);
    Pow2Eight(32);
    Pow2Eight(40);
    Pow2Eight(48);
    Pow2Eight(56);
  }

  lemma Unwrapped(x: nat)
    requires x < TWO64
    ensures x % TWO64 == x
  {
  }

  lemma Negated(a: nat)
    requires 0 < a < TWO64
    ensures (0 - a) % TWO64 == TWO64 - a
  {
  }

  /** For a power of two, the rounding by division is the mask the source computes. */
  lemma AlignIsMask(value: U64, align: U64)
    requires PowerOfTwo(align)
    ensures Align(value, align) == And((value + (align - 1)) % TWO64, (0 - align) % TWO64)
  {
    Pow2Of64();
    Negated(align);
    MaskRoundsDown((value + (align - 1)) % TWO64, align, 64, TWO64 - align);
  }
}
