/** Numbers written with a fixed number of digits, most significant digit first. */
module Positional {
  import opened Alignment

  function Pow(base: nat, n: nat): nat {
    if n == 0 then 1 else base * Pow(base, n - 1)
  }

  lemma {:induction false} PowPositive(base: nat, n: nat)
    requires 0 < base
    ensures 0 < Pow(base, n)
  {
    if n > 0 {
      PowPositive(base, n - 1);
      Magnitude(Pow(base, n - 1), base);
    }
  }

  /** The lowest n digits of v. */
  function Digits(base: nat, v: nat, n: nat): (ds: seq<nat>)
    requires 0 < base
    ensures |ds| == n
    decreases n
  {
    if n == 0 then [] else Digits(base, v / base, n - 1) + [v % base]
  }

  function Value(base: nat, ds: seq<nat>): nat {
    if ds == [] then 0 else Value(base, ds[..|ds| - 1]) * base + ds[|ds| - 1]
  }

  ghost predicate AreDigits(base: nat, ds: seq<nat>) {
    forall i :: 0 <= i < |ds| ==> ds[i] < base
  }

  lemma DivMod(q: nat, r: nat, a: nat)
    requires r < a
    ensures (q * a + r) / a == q && (q * a + r) % a == r
  {
    QuotientOf(q, r, a);
    var x := q * a + r;
    assert x == x / a * a + x % a;
  }

  lemma {:induction false} DigitsAreDigits(base: nat, v: nat, n: nat)
    requires 0 < base
    ensures AreDigits(base, Digits(base, v, n))
    decreases n
  {
    if n > 0 {
      DigitsAreDigits(base, v / base, n - 1);
    }
  }

  /** Writing the value of digits gives the digits back. */
  lemma {:induction false} DigitsOfValue(base: nat, ds: seq<nat>)
    requires 0 < base && AreDigits(base, ds)
    ensures Digits(base, Value(base, ds), |ds|) == ds
  {
    if ds != [] {
      var init, last := ds[..|ds| - 1], ds[|ds| - 1];
      DigitsOfValue(base, init);
      DivMod(Value(base, init), last, base);
      assert ds == init + [last];
    }
  }

  lemma ValueOfExtended(base: nat, ds: seq<nat>, last: nat)
    ensures Value(base, ds + [last]) == Value(base, ds) * base + last
  {
    assert (ds + [last])[..|ds|] == ds;
  }

  lemma Carry(v: nat, d: nat, p: nat, base: nat)
    requires v < p && d < base
    ensures v * base + d < base * p
  {
    Scale(v + 1, p, base);
    assert (v + 1) * base == v * base + base;
  }

  lemma {:induction false} ValueBound(base: nat, ds: seq<nat>)
    requires 0 < base && AreDigits(base, ds)
    ensures Value(base, ds) < Pow(base, |ds|)
  {
    if ds != [] {
      var init, last := ds[..|ds| - 1], ds[|ds| - 1];
      ValueBound(base, init);
      Carry(Value(base, init), last, Pow(base, |init|), base);
    }
  }

  lemma QuotientBelow(v: nat, base: nat, p: nat)
    requires 0 < base && v < base * p
    ensures v / base < p
  {
    var q := v / base;
    assert v == q * base + v % base;
    Magnitude(q - p + 1, base);
    assert (q - p + 1) * base == q * base - base * p + base;
  }

  lemma Recombined(v: nat, base: nat)
    requires 0 < base
    ensures v / base * base + v % base == v
  {
  }

  /** Reading what was written gives the number back, if it fits. */
  lemma {:induction false} ValueOfDigits(base: nat, v: nat, n: nat)
    requires 0 < base && v < Pow(base, n)
    ensures Value(base, Digits(base, v, n)) == v
    decreases n
  {
    if n > 0 {
      QuotientBelow(v, base, Pow(base, n - 1));
      ValueOfDigits(base, v / base, n - 1);
      var q, r := v / base, v % base;
      ValueOfExtended(base, Digits(base, q, n - 1), r);
      Recombined(v, base);
    }
  }

  /** v without its k lowest digits. */
  function Without(base: nat, v: nat, k: nat): nat
    requires 0 < base
    decreases k
  {
    if k == 0 then v else Without(base, v / base, k - 1)
  }

  lemma {:induction false} LeadingDigits(base: nat, v: nat, n: nat, s: nat)
    requires 0 < base && s <= n
    ensures Digits(base, v, n)[..s] == Digits(base, Without(base, v, n - s), s)
    decreases n
  {
    if s < n {
      LeadingDigits(base, v / base, n - 1, s);
      assert Digits(base, v, n)[..s] == Digits(base, v / base, n - 1)[..s];
    } else {
      assert Digits(base, v, n)[..s] == Digits(base, v, n);
    }
  }

  /** Dropping k digits is dividing by base^k and rounding down. */
  lemma {:induction false} WithoutBounds(base: nat, v: nat, k: nat)
    requires 0 < base
    ensures Without(base, v, k) * Pow(base, k) <= v < (Without(base, v, k) + 1) * Pow(base, k)
    decreases k
  {
    if k > 0 {
      WithoutBounds(base, v / base, k - 1);
      ScaleUp(Without(base, v / base, k - 1), Pow(base, k - 1), v / base, v, base);
    }
  }

  lemma WithoutIsQuotient(base: nat, v: nat, k: nat)
    requires 0 < base
    ensures 0 < Pow(base, k) && Without(base, v, k) == v / Pow(base, k)
  {
    PowPositive(base, k);
    WithoutBounds(base, v, k);
    BetweenMultiples(v, Without(base, v, k), Pow(base, k));
  }

  lemma BetweenMultiples(v: nat, q: nat, p: nat)
    requires 0 < p && q * p <= v < (q + 1) * p
    ensures v / p == q
  {
    assert (q + 1) * p == q * p + p;
    DivMod(q, v - q * p, p);
  }

  lemma ScaleUp(d: nat, p: nat, q: nat, v: nat, base: nat)
    requires 0 < base && q == v / base && d * p <= q < (d + 1) * p
    ensures d * (base * p) <= v < (d + 1) * (base * p)
  {
    assert v == q * base + v % base;
    Scale(d * p, q, base);
    Scale(q + 1, (d + 1) * p, base);
    assert d * (base * p) == (d * p) * base;
    assert (d + 1) * (base * p) == ((d + 1) * p) * base;
  }

  lemma Scale(a: nat, b: nat, c: nat)
    requires a <= b
    ensures a * c <= b * c
  {
    assert b * c - a * c == (b - a) * c;
  }

  /** The digit before the k lowest ones. */
  lemma {:induction false} DigitAt(base: nat, v: nat, n: nat, k: nat)
    requires 0 < base && k < n
    ensures Digits(base, v, n)[n - 1 - k] == Without(base, v, k) % base
    decreases n
  {
    if k > 0 {
      DigitAt(base, v / base, n - 1, k - 1);
      assert Digits(base, v, n)[n - 1 - k] == Digits(base, v / base, n - 1)[n - 2 - (k - 1)];
    }
  }

  lemma {:induction false} WithoutOneMore(base: nat, v: nat, k: nat)
    requires 0 < base
    ensures Without(base, v, k + 1) == Without(base, v, k) / base
    decreases k
  {
    if k > 0 {
      WithoutOneMore(base, v / base, k - 1);
    }
  }

  /** The leading digit weighs base to the number of digits after it. */
  lemma {:induction false} ValueCons(base: nat, d: nat, ds: seq<nat>)
    ensures Value(base, [d] + ds) == d * Pow(base, |ds|) + Value(base, ds)
  {
    var all := [d] + ds;
    if ds == [] {
      assert all[..0] == [];
    } else {
      var init, last := ds[..|ds| - 1], ds[|ds| - 1];
      ValueCons(base, d, init);
      assert all[..|all| - 1] == [d] + init;
      var p, v := Pow(base, |init|), Value(base, init);
      assert (d * p + v) * base == d * (base * p) + v * base;
    }
  }
}
