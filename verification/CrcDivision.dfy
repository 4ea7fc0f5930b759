/**
 * What the CRC code of core/Utilities/CRC.h computes: the remainder of a division of polynomials
 * over GF(2). A polynomial is the sequence of its coefficients, lowest power first, so adding is
 * Xor and multiplying by a power of x is putting zeros in front.
 */
module CrcDivision {
  import opened CrcBits
  import opened Crc

  // ----- Polynomials -----

  /** g or nothing. */
  function Term(t: bool, g: Bits): (r: Bits)
    ensures |r| == |g|
  {
    if t then g else Zeros(|g|)
  }

  /** The product, term by term: q is q[0] plus x times the rest. */
  function Times(q: Bits, g: Bits): (r: Bits)
    requires g != []
    ensures |r| == |q| + |g| - 1
  {
    if q == [] then Zeros(|g| - 1)
    else Xor(Extend(Term(q[0], g), |q| + |g| - 1), [false] + Times(q[1..], g))
  }

  /** dividend == q * g + rest, where rest has a lower degree than g. */
  ghost predicate Divides(dividend: Bits, g: Bits, q: Bits, rest: Bits) {
    && |g| == |rest| + 1 && g[|rest|] && |dividend| == |q| + |rest|
    && dividend == Xor(Times(q, g), Extend(rest, |dividend|))
  }

  /** rest is the remainder of the dividend modulo g. */
  ghost predicate Leaves(dividend: Bits, g: Bits, rest: Bits) {
    exists q :: Divides(dividend, g, q, rest)
  }

  /** The data as one polynomial: the first bit to be sent is the highest power. */
  function Message(data: seq<Byte>): (r: Bits)
    ensures |r| == CHAR_BIT * |data|
  {
    if data == [] then [] else ToBits(data[|data| - 1], CHAR_BIT) + Message(data[..|data| - 1])
  }

  /** What is divided: the start moved past the data, plus the data moved past the register. */
  function Dividend(start: Bits, data: seq<Byte>): (r: Bits)
    ensures |r| == |start| + CHAR_BIT * |data|
  {
    Xor(Zeros(CHAR_BIT * |data|) + start, Zeros(|start|) + Message(data))
  }

  /** The generator of a CRC: the polynomial of the parameters below x to the power of the width. */
  function Generator(p: Parameters): (g: Bits)
    requires p.Valid()
    ensures |g| == p.width + 1 && g[p.width]
  {
    p.polynomial[..p.width] + [true]
  }

  // ----- A register of exactly the degree of the generator -----

  function FeedByte(c: Bits, a: Bits, x: Byte): (s: Bits)
    requires CHAR_BIT <= |a| == |c|
    ensures |s| == |a|
  {
    ShiftsLeft(c, |a| - 1, CHAR_BIT, Xor(a, Zeros(|a| - CHAR_BIT) + ToBits(x, CHAR_BIT)))
  }

  function Feed(c: Bits, a: Bits, data: seq<Byte>): (s: Bits)
    requires CHAR_BIT <= |a| == |c|
    ensures |s| == |a|
  {
    if data == [] then a else FeedByte(c, Feed(c, a, data[..|data| - 1]), data[|data| - 1])
  }

  /** One shift multiplies by x and takes the generator away if the degree got too high. */
  lemma ShiftDivides(c: Bits, a: Bits, b: Bits)
    requires 0 < |a| == |c| && b == ShiftLeft(c, |a| - 1, a)
    ensures var t := a[|a| - 1];
            [false] + a == Xor(Term(t, c + [true]), b + [false])
  {
  }

  lemma DivideOneMore(dividend: Bits, g: Bits, q: Bits, rest: Bits, t: bool, next: Bits)
    requires Divides(dividend, g, q, rest) && |next| == |rest|
    requires [false] + rest == Xor(Term(t, g), next + [false])
    ensures Divides([false] + dividend, g, [t] + q, next)
  {
    var more, product := [false] + dividend, Times([t] + q, g);
    assert ([t] + q)[1..] == q;
    forall i | 0 <= i < |more|
      ensures more[i] == (product[i] != Extend(next, |more|)[i])
    {
      if i > 0 {
        assert dividend[i - 1] == (Times(q, g)[i - 1] != Extend(rest, |dividend|)[i - 1]);
      }
      if i < |g| {
        assert ([false] + rest)[i] == (Term(t, g)[i] != (next + [false])[i]);
      }
    }
    assert more == Xor(product, Extend(next, |more|));
  }

  lemma {:induction false} ShiftsDivide(c: Bits, k: nat, a: Bits, dividend: Bits, q: Bits) returns (longer: Bits)
    requires 0 < |a| == |c| && Divides(dividend, c + [true], q, a)
    ensures Divides(Zeros(k) + dividend, c + [true], longer, ShiftsLeft(c, |a| - 1, k, a))
    decreases k
  {
    if k == 0 {
      longer := q;
      assert Zeros(0) + dividend == dividend;
    } else {
      var before := ShiftsDivide(c, k - 1, a, dividend, q);
      longer := ShiftDividesOn(c, ShiftsLeft(c, |a| - 1, k - 1, a), Zeros(k - 1) + dividend, before);
      OneZeroMore(k, dividend);
    }
  }

  lemma OneZeroMore(k: nat, a: Bits)
    requires 0 < k
    ensures Zeros(k) + a == [false] + (Zeros(k - 1) + a)
  {
  }

  lemma ShiftDividesOn(c: Bits, a: Bits, dividend: Bits, q: Bits) returns (longer: Bits)
    requires 0 < |a| == |c| && Divides(dividend, c + [true], q, a)
    ensures Divides([false] + dividend, c + [true], longer, ShiftLeft(c, |a| - 1, a))
  {
    var next := ShiftLeft(c, |a| - 1, a);
    ShiftDivides(c, a, next);
    longer := [a[|a| - 1]] + q;
    DivideOneMore(dividend, c + [true], q, a, a[|a| - 1], next);
  }

  /** Adding a word of low degree to both sides. */
  lemma DivideSum(dividend: Bits, g: Bits, q: Bits, rest: Bits, word: Bits)
    requires Divides(dividend, g, q, rest) && |word| == |rest|
    ensures Divides(Xor(dividend, Extend(word, |dividend|)), g, q, Xor(rest, word))
  {
    var sum := Xor(dividend, Extend(word, |dividend|));
    forall i | 0 <= i < |sum|
      ensures sum[i] == (Times(q, g)[i] != Extend(Xor(rest, word), |sum|)[i])
    {
      assert dividend[i] == (Times(q, g)[i] != Extend(rest, |dividend|)[i]);
    }
    assert sum == Xor(Times(q, g), Extend(Xor(rest, word), |sum|));
  }

  lemma EightHigher(start: Bits, message: Bits, bits: Bits, word: Bits, left: Bits, right: Bits)
    requires CHAR_BIT == |bits| <= |start| && word == Zeros(|start| - CHAR_BIT) + bits
    requires left == Xor(Zeros(|message| + CHAR_BIT) + start, Zeros(|start|) + (bits + message))
    requires right == Xor(Xor(Zeros(|message|) + start, Zeros(|start|) + message), Extend(word, |start| + |message|))
    ensures left == Zeros(CHAR_BIT) + right
  {
    var m, n := |start|, |message|;
    forall i | 0 <= i < |left|
      ensures left[i] == (Zeros(CHAR_BIT) + right)[i]
    {
      if i >= CHAR_BIT {
        var j := i - CHAR_BIT;
        assert (Zeros(n + CHAR_BIT) + start)[i] == (Zeros(n) + start)[j];
        assert (Zeros(m) + (bits + message))[i] == ((Zeros(m) + message)[j] != Extend(word, m + n)[j]);
      }
    }
  }

  /** How the dividend grows with one byte. */
  lemma DividendOneMore(start: Bits, data: seq<Byte>, x: Byte, word: Bits, before: Bits)
    requires CHAR_BIT <= |start| && word == Zeros(|start| - CHAR_BIT) + ToBits(x, CHAR_BIT)
    requires before == Dividend(start, data)
    ensures Dividend(start, data + [x]) == Zeros(CHAR_BIT) + Xor(before, Extend(word, |before|))
  {
    MessageOneMore(data, x);
    EightHigher(start, Message(data), ToBits(x, CHAR_BIT), word, Dividend(start, data + [x]),
                Xor(before, Extend(word, |before|)));
  }

  lemma MessageOneMore(data: seq<Byte>, x: Byte)
    ensures Message(data + [x]) == ToBits(x, CHAR_BIT) + Message(data)
  {
    assert (data + [x])[..|data|] == data;
  }

  /** Feeding data into the register divides. */
  lemma {:induction false} FeedDivides(c: Bits, a: Bits, data: seq<Byte>) returns (q: Bits)
    requires CHAR_BIT <= |a| == |c|
    ensures Divides(Dividend(a, data), c + [true], q, Feed(c, a, data))
    decreases data
  {
    if data == [] {
      q := [];
      assert Dividend(a, data) == a && Extend(a, |a|) == a;
      assert a == Xor(Zeros(|a|), a);
    } else {
      var init, last := data[..|data| - 1], data[|data| - 1];
      var word := Zeros(|a| - CHAR_BIT) + ToBits(last, CHAR_BIT);
      var before := FeedDivides(c, a, init);
      var dividend, rest := Dividend(a, init), Feed(c, a, init);
      DivideSum(dividend, c + [true], before, rest, word);
      q := ShiftsDivide(c, CHAR_BIT, Xor(rest, word), Xor(dividend, Extend(word, |dividend|)), before);
      DividendOneMore(a, init, last, word, dividend);
      assert init + [last] == data;
    }
  }

  // ----- There is only one remainder -----

  lemma TimesLow(q: Bits, g: Bits, all: Bits)
    requires g != [] && all != [] && q == all[1..]
    ensures Times(all, g) == Xor(Extend(Term(all[0], g), |q| + |g|), [false] + Times(q, g))
  {
  }

  lemma TimesOne(t: bool, g: Bits)
    requires g != []
    ensures Times([t], g) == Term(t, g)
  {
    TimesLow([], g, [t]);
    assert Extend(Term(t, g), |g|) == Term(t, g);
    XorZeros(Term(t, g));
    assert [false] + Zeros(|g| - 1) == Zeros(|g|);
  }

  lemma TimesTopOne(t: bool, g: Bits)
    requires g != []
    ensures Times([] + [t], g) == Xor(Times([], g) + [false], Zeros(0) + Term(t, g))
  {
    var term := Term(t, g);
    TimesOne(t, g);
    assert [] + [t] == [t] && Zeros(0) + term == term && Zeros(|g| - 1) + [false] == Zeros(|g|);
    XorZeros(term);
  }

  lemma TimesTopMore(q: Bits, rest: Bits, t: bool, g: Bits, high: Bits)
    requires g != [] && q != [] && rest == q[1..] && high == Zeros(|rest|) + Term(t, g)
    requires Times(rest + [t], g) == Xor(Times(rest, g) + [false], high)
    ensures Times(q + [t], g) == Xor(Times(q, g) + [false], [false] + high)
  {
    TimesLow(rest, g, q);
    assert (q + [t])[1..] == rest + [t];
    TimesLow(rest + [t], g, q + [t]);
    TermsSum(Term(q[0], g), Times(rest, g), high, [false] + high);
  }

  /** The product, from the highest term of q. */
  lemma {:induction false} TimesTop(q: Bits, t: bool, g: Bits)
    requires g != []
    ensures Times(q + [t], g) == Xor(Times(q, g) + [false], Zeros(|q|) + Term(t, g))
  {
    if q == [] {
      TimesTopOne(t, g);
    } else {
      var rest := q[1..];
      var high := Zeros(|rest|) + Term(t, g);
      TimesTop(rest, t, g);
      TimesTopMore(q, rest, t, g, high);
      OneZeroMore(|q|, Term(t, g));
    }
  }

  lemma TermsSum(low: Bits, product: Bits, term: Bits, higher: Bits)
    requires |low| <= |product| + 1 && |term| == |product| + 1 && higher == [false] + term
    ensures Xor(Extend(low, |product| + 2), [false] + Xor(product + [false], term))
         == Xor(Xor(Extend(low, |product| + 1), [false] + product) + [false], higher)
  {
  }

  lemma PeelTop(dividend: Bits, g: Bits, q: Bits, t: bool, rest: Bits, term: Bits)
    requires Divides(dividend, g, q + [t], rest) && term == Zeros(|q|) + Term(t, g)
    ensures dividend[|dividend| - 1] == t
    ensures Divides(Xor(dividend, term)[..|dividend| - 1], g, q, rest)
  {
    TimesTop(q, t, g);
    var less := Xor(dividend, term)[..|dividend| - 1];
    assert Extend(rest, |dividend|)[|dividend| - 1] == false;
    forall i | 0 <= i < |less|
      ensures less[i] == (Times(q, g)[i] != Extend(rest, |less|)[i])
    {
      assert dividend[i] == (Times(q + [t], g)[i] != Extend(rest, |dividend|)[i]);
    }
    assert less == Xor(Times(q, g), Extend(rest, |less|));
  }

  lemma SameRest(dividend: Bits, g: Bits, rest: Bits, other: Bits)
    requires Divides(dividend, g, [], rest) && Divides(dividend, g, [], other)
    ensures rest == other
  {
    forall i | 0 <= i < |rest|
      ensures rest[i] == other[i]
    {
      assert dividend[i] == Extend(rest, |dividend|)[i] == Extend(other, |dividend|)[i];
    }
  }

  /** Quotient and remainder are determined by dividend and divisor. */
  lemma {:induction false} DivisionIsUnique(dividend: Bits, g: Bits, q: Bits, rest: Bits, q': Bits, rest': Bits)
    requires Divides(dividend, g, q, rest) && Divides(dividend, g, q', rest')
    ensures q == q' && rest == rest'
    decreases |q|
  {
    if q == [] {
      assert q' == [];
      SameRest(dividend, g, rest, rest');
    } else {
      var n := |q| - 1;
      var t := q[n];
      assert q == q[..n] + [t] && q' == q'[..n] + [q'[n]];
      var term := Zeros(n) + Term(t, g);
      PeelTop(dividend, g, q[..n], t, rest, term);
      PeelTop(dividend, g, q'[..n], q'[n], rest', Zeros(n) + Term(q'[n], g));
      DivisionIsUnique(Xor(dividend, term)[..|dividend| - 1], g, q[..n], rest, q'[..n], rest');
    }
  }

  lemma RestIsUnique(dividend: Bits, g: Bits, rest: Bits, other: Bits)
    requires Leaves(dividend, g, rest) && Leaves(dividend, g, other)
    ensures rest == other
  {
    var q :| Divides(dividend, g, q, rest);
    var q' :| Divides(dividend, g, q', other);
    DivisionIsUnique(dividend, g, q, rest, q', other);
  }

  // ----- A common power of x -----

  lemma {:induction false} TimesLifted(q: Bits, g: Bits, lift: nat)
    requires g != []
    ensures Times(q, Zeros(lift) + g) == Zeros(lift) + Times(q, g)
  {
    var high := Zeros(lift) + g;
    if q == [] {
      assert Zeros(|high| - 1) == Zeros(lift) + Zeros(|g| - 1);
    } else {
      TimesLifted(q[1..], g, lift);
      TermLifted(Term(q[0], g), Term(q[0], high), Times(q[1..], g), lift);
    }
  }

  lemma TermLifted(term: Bits, high: Bits, product: Bits, lift: nat)
    requires |term| <= |product| + 1 && high == Zeros(lift) + term
    ensures Xor(Extend(high, |product| + 1 + lift), [false] + (Zeros(lift) + product))
         == Zeros(lift) + Xor(Extend(term, |product| + 1), [false] + product)
  {
  }

  lemma DropLift(dividend: Bits, g: Bits, q: Bits, rest: Bits, lift: nat)
    requires Divides(Zeros(lift) + dividend, Zeros(lift) + g, q, Zeros(lift) + rest)
    requires |g| == |rest| + 1 && |dividend| == |q| + |rest|
    ensures Divides(dividend, g, q, rest)
  {
    TimesLifted(q, g, lift);
    assert (Zeros(lift) + g)[lift + |rest|] == g[|rest|];
    SumUnlifted(dividend, Times(q, g), rest, lift);
  }

  lemma SumUnlifted(a: Bits, b: Bits, rest: Bits, lift: nat)
    requires |a| == |b| && |rest| <= |a|
    requires Zeros(lift) + a == Xor(Zeros(lift) + b, Extend(Zeros(lift) + rest, lift + |a|))
    ensures a == Xor(b, Extend(rest, |a|))
  {
    var high := Zeros(lift) + a;
    forall i | 0 <= i < |a|
      ensures a[i] == (b[i] != Extend(rest, |a|)[i])
    {
      assert high[lift + i] == ((Zeros(lift) + b)[lift + i] != Extend(Zeros(lift) + rest, lift + |a|)[lift + i]);
      assert Extend(Zeros(lift) + rest, lift + |a|)[lift + i] == Extend(rest, |a|)[i];
    }
  }

  lemma DividendLifted(start: Bits, data: seq<Byte>, lift: nat)
    ensures Dividend(Zeros(lift) + start, data) == Zeros(lift) + Dividend(start, data)
  {
    var n, message := CHAR_BIT * |data|, Message(data);
    assert Zeros(n) + (Zeros(lift) + start) == Zeros(lift) + (Zeros(n) + start);
    assert Zeros(lift + |start|) + message == Zeros(lift) + (Zeros(|start|) + message);
  }

  lemma DivideUnlifted(start: Bits, data: seq<Byte>, g: Bits, rest: Bits, lift: nat)
    requires |start| == |rest| && |g| == |rest| + 1
    requires Leaves(Dividend(Zeros(lift) + start, data), Zeros(lift) + g, Zeros(lift) + rest)
    ensures Leaves(Dividend(start, data), g, rest)
  {
    DividendLifted(start, data, lift);
    var q :| Divides(Zeros(lift) + Dividend(start, data), Zeros(lift) + g, q, Zeros(lift) + rest);
    DropLift(Dividend(start, data), g, q, rest, lift);
  }

  // ----- Shifting left -----

  lemma ShiftLeftCut(poly: Bits, top: nat, a: Bits)
    requires top < |poly| == |a|
    ensures ShiftLeft(poly, top, a)[..top + 1] == ShiftLeft(poly[..top + 1], top, a[..top + 1])
  {
  }

  lemma {:induction false} ShiftsLeftCut(poly: Bits, top: nat, k: nat, a: Bits)
    requires top < |poly| == |a|
    ensures ShiftsLeft(poly, top, k, a)[..top + 1] == ShiftsLeft(poly[..top + 1], top, k, a[..top + 1])
  {
    if k > 0 {
      ShiftsLeftCut(poly, top, k - 1, a);
      ShiftLeftCut(poly, top, ShiftsLeft(poly, top, k - 1, a));
    }
  }

  lemma AddByteCut(p: Parameters, r: Bits, x: Byte)
    requires p.Valid() && !p.reflectInput && |r| == p.Digits()
    ensures var m := p.Span();
            AddByte(p, r, x)[..m] == Xor(r[..m], Zeros(m - CHAR_BIT) + ToBits(x, CHAR_BIT))
  {
  }

  lemma {:induction false} ForwardFeeds(p: Parameters, data: seq<Byte>, r: Bits)
    requires p.Valid() && !p.reflectInput && |r| == p.Digits()
    ensures var m := p.Span();
            BitwiseBytes(p, data, r)[..m] == Feed(LoopPolynomial(p)[..m], r[..m], data)
  {
    if data != [] {
      var init, last := data[..|data| - 1], data[|data| - 1];
      ForwardFeeds(p, init, r);
      var before := BitwiseBytes(p, init, r);
      AddByteCut(p, before, last);
      ShiftsLeftCut(LoopPolynomial(p), p.Span() - 1, CHAR_BIT, AddByte(p, before, last));
    }
  }

  lemma LiftedGenerator(p: Parameters)
    requires p.Valid() && !p.reflectInput
    ensures LoopPolynomial(p)[..p.Span()] + [true] == Zeros(p.Lift()) + Generator(p)
  {
  }

  /** What Remainder takes off the register again. */
  lemma LiftedRegister(p: Parameters, data: seq<Byte>, start: Bits)
    requires p.Valid() && !p.reflectInput && |start| == p.Digits()
    ensures var lift, m := p.Lift(), p.Span();
            && Shl(start, lift)[..m] == Zeros(lift) + start[..p.width]
            && BitwiseBytes(p, data, Shl(start, lift))[..m] == Zeros(lift) + Remainder(p, data, start)[..p.width]
  {
    var lift, m := p.Lift(), p.Span();
    BytesLowZeros(p, data, Shl(start, lift));
    UnliftedLow(BitwiseBytes(p, data, Shl(start, lift)), lift, p.width);
  }

  lemma UnliftedLow(a: Bits, lift: nat, w: nat)
    requires lift + w <= |a| && forall i :: 0 <= i < lift ==> !a[i]
    ensures a[..lift + w] == Zeros(lift) + Shr(a, lift)[..w]
  {
  }

  /**
   * Without reflection the remainder is the remainder: the start times x to the number of data bits,
   * plus the data times x to the width, is a multiple of the generator plus what the code returns.
   */
  lemma ForwardDivides(p: Parameters, data: seq<Byte>, start: Bits)
    requires p.Valid() && !p.reflectInput && |start| == p.Digits()
    ensures Leaves(Dividend(start[..p.width], data), Generator(p), Remainder(p, data, start)[..p.width])
  {
    var lift, m, w := p.Lift(), p.Span(), p.width;
    var lifted := Shl(start, lift);
    var q := FeedDivides(LoopPolynomial(p)[..m], lifted[..m], data);
    ForwardFeeds(p, data, lifted);
    LiftedGenerator(p);
    LiftedRegister(p, data, start);
    DivideUnlifted(start[..w], data, Generator(p), Remainder(p, data, start)[..w], lift);
  }

  // ----- Reflected: the same from the other end -----

  /** All bits in reverse order. */
  function Flip(a: Bits): (r: Bits)
    ensures |r| == |a|
  {
    seq(|a|, i requires 0 <= i < |a| => a[|a| - 1 - i])
  }

  lemma FlipTwice(a: Bits)
    ensures Flip(Flip(a)) == a
  {
  }

  /** The byte with its bits in reverse order. */
  function Mirror(x: Byte): (y: Byte)
    ensures ToBits(y, CHAR_BIT) == Flip(ToBits(x, CHAR_BIT))
  {
    ToByte(Flip(ToBits(x, CHAR_BIT)))
  }

  function MirrorAll(data: seq<Byte>): (r: seq<Byte>)
    ensures |r| == |data|
  {
    seq(|data|, i requires 0 <= i < |data| => Mirror(data[i]))
  }

  lemma FlipShift(poly: Bits, a: Bits)
    requires 0 < |a| == |poly|
    ensures Flip(ShiftRight(poly, a)) == ShiftLeft(Flip(poly), |a| - 1, Flip(a))
  {
    var n := |a|;
    var right, left := ShiftRight(poly, a), ShiftLeft(Flip(poly), n - 1, Flip(a));
    assert Flip(a)[n - 1] == a[0];
    forall i | 0 <= i < n
      ensures Flip(right)[i] == left[i]
    {
      assert Shr(a, 1)[n - 1 - i] == (i > 0 && a[n - i]);
      assert Shl(Flip(a), 1)[i] == (i > 0 && a[n - i]);
    }
  }

  lemma {:induction false} FlipShifts(poly: Bits, k: nat, a: Bits)
    requires 0 < |a| == |poly|
    ensures Flip(ShiftsRight(poly, k, a)) == ShiftsLeft(Flip(poly), |a| - 1, k, Flip(a))
  {
    if k > 0 {
      FlipShifts(poly, k - 1, a);
      FlipShift(poly, ShiftsRight(poly, k - 1, a));
    }
  }

  lemma FlipAddByte(p: Parameters, r: Bits, x: Byte)
    requires p.Valid() && p.reflectInput && |r| == p.Digits()
    ensures Flip(AddByte(p, r, x)) == Xor(Flip(r), Zeros(|r| - CHAR_BIT) + ToBits(Mirror(x), CHAR_BIT))
  {
    var bits := ToBits(x, CHAR_BIT);
    assert Flip(Extend(bits, |r|)) == Zeros(|r| - CHAR_BIT) + Flip(bits);
  }

  lemma FlipByte(p: Parameters, r: Bits, x: Byte)
    requires p.Valid() && p.reflectInput && |r| == p.Digits()
    ensures Flip(BitwiseByte(p, r, x)) == FeedByte(Flip(LoopPolynomial(p)), Flip(r), Mirror(x))
  {
    FlipAddByte(p, r, x);
    FlipShifts(LoopPolynomial(p), CHAR_BIT, AddByte(p, r, x));
  }

  lemma FeedOneMore(c: Bits, a: Bits, data: seq<Byte>, init: seq<Byte>)
    requires CHAR_BIT <= |a| == |c| && data != [] && init == data[..|data| - 1]
    ensures Feed(c, a, data) == FeedByte(c, Feed(c, a, init), data[|data| - 1])
  {
  }

  lemma MirrorOneMore(data: seq<Byte>, init: seq<Byte>)
    requires data != [] && init == data[..|data| - 1]
    ensures MirrorAll(data) != [] && MirrorAll(init) == MirrorAll(data)[..|data| - 1]
    ensures MirrorAll(data)[|data| - 1] == Mirror(data[|data| - 1])
  {
  }

  lemma {:induction false} ReflectedFeeds(p: Parameters, data: seq<Byte>, r: Bits)
    requires p.Valid() && p.reflectInput && |r| == p.Digits()
    ensures Flip(BitwiseBytes(p, data, r)) == Feed(Flip(LoopPolynomial(p)), Flip(r), MirrorAll(data))
  {
    if data != [] {
      var init, last := data[..|data| - 1], data[|data| - 1];
      ReflectedFeeds(p, init, r);
      MirrorOneMore(data, init);
      FeedOneMore(Flip(LoopPolynomial(p)), Flip(r), MirrorAll(data), MirrorAll(init));
      FlipByte(p, BitwiseBytes(p, init, r), last);
    }
  }

  lemma FlippedGenerator(p: Parameters)
    requires p.Valid() && p.reflectInput
    ensures Flip(LoopPolynomial(p)) + [true] == Zeros(p.Digits() - p.width) + Generator(p)
  {
  }

  /**
   * With reflection, for every start, also one wider than the CRC: read from the other end, all digits
   * of the register are the remainder for the generator times a power of x.
   */
  lemma ReflectedDivides(p: Parameters, data: seq<Byte>, start: Bits)
    requires p.Valid() && p.reflectInput && |start| == p.Digits()
    ensures Leaves(Dividend(Flip(start), MirrorAll(data)), Zeros(p.Digits() - p.width) + Generator(p),
                   Flip(Remainder(p, data, start)))
  {
    ReflectedRemainder(p, data, start);
    ReflectedLeaves(p, data, start, MirrorAll(data), Generator(p), BitwiseBytes(p, data, start));
  }

  lemma ReflectedLeaves(p: Parameters, data: seq<Byte>, start: Bits, bytes: seq<Byte>, g: Bits, r: Bits)
    requires p.Valid() && p.reflectInput && |start| == p.Digits()
    requires bytes == MirrorAll(data) && g == Generator(p) && r == BitwiseBytes(p, data, start)
    ensures Leaves(Dividend(Flip(start), bytes), Zeros(p.Digits() - p.width) + g, Flip(r))
  {
    var q := FeedDivides(Flip(LoopPolynomial(p)), Flip(start), bytes);
    ReflectedFeeds(p, data, start);
    FlippedGenerator(p);
  }

  lemma FlipFitting(a: Bits, w: nat)
    requires FitsIn(a, w)
    ensures Flip(a) == Zeros(|a| - w) + Flip(a[..w])
  {
  }

  lemma DivideFitting(start: Bits, data: seq<Byte>, g: Bits, r: Bits, w: nat, lift: nat)
    requires |start| == |r| == w + lift && FitsIn(start, w) && FitsIn(r, w) && |g| == w + 1
    requires Leaves(Dividend(Flip(start), data), Zeros(lift) + g, Flip(r))
    ensures Leaves(Dividend(Flip(start[..w]), data), g, Flip(r[..w]))
  {
    FlipFitting(start, w);
    FlipFitting(r, w);
    DivideUnlifted(Flip(start[..w]), data, g, Flip(r[..w]), lift);
  }

  lemma FeedFitting(c: Bits, start: Bits, data: seq<Byte>, g: Bits, r: Bits, w: nat, lift: nat)
    requires CHAR_BIT <= |c| == |start| == |r| == w + lift && FitsIn(start, w) && FitsIn(r, w) && |g| == w + 1
    requires c + [true] == Zeros(lift) + g && Flip(r) == Feed(c, Flip(start), data)
    ensures Leaves(Dividend(Flip(start[..w]), data), g, Flip(r[..w]))
  {
    var q := FeedDivides(c, Flip(start), data);
    DivideFitting(start, data, g, r, w, lift);
  }

  lemma ReflectedLeavesFitting(p: Parameters, data: seq<Byte>, start: Bits, bytes: seq<Byte>, g: Bits, r: Bits)
    requires p.Valid() && p.reflectInput && |start| == p.Digits() && FitsIn(start, p.width)
    requires bytes == MirrorAll(data) && g == Generator(p) && r == BitwiseBytes(p, data, start)
    ensures FitsIn(r, p.width) && Leaves(Dividend(Flip(start[..p.width]), bytes), g, Flip(r[..p.width]))
  {
    BytesFit(p, data, start);
    ReflectedFeeds(p, data, start);
    FlippedGenerator(p);
    FeedFitting(Flip(LoopPolynomial(p)), start, bytes, g, r, p.width, p.Digits() - p.width);
  }

  /** For a start that fits the width the power of x can be taken away. */
  lemma ReflectedDividesFitting(p: Parameters, data: seq<Byte>, start: Bits)
    requires p.Valid() && p.reflectInput && |start| == p.Digits() && FitsIn(start, p.width)
    ensures var r := Remainder(p, data, start);
            && FitsIn(r, p.width)
            && Leaves(Dividend(Flip(start[..p.width]), MirrorAll(data)), Generator(p), Flip(r[..p.width]))
  {
    ReflectedRemainder(p, data, start);
    ReflectedLeavesFitting(p, data, start, MirrorAll(data), Generator(p), BitwiseBytes(p, data, start));
  }

  lemma TurnedStart(start: Bits, w: nat)
    requires w <= |start|
    ensures Reflected(start, w)[..w] == Flip(start[..w])
  {
  }

  /** The remainder of a reflected CRC is the remainder of the forward one on mirrored bytes, reversed. */
  lemma ReflectedIsForward(p: Parameters, f: Parameters, data: seq<Byte>, start: Bits)
    requires p.Valid() && p.reflectInput && |start| == p.Digits() && FitsIn(start, p.width)
    requires f == p.(reflectInput := false)
    ensures Remainder(p, data, start)
         == Reflected(Remainder(f, MirrorAll(data), Reflected(start, p.width)), p.width)
  {
    var w, bytes := p.width, MirrorAll(data);
    var forward, back := Remainder(f, bytes, Reflected(start, w)), Remainder(p, data, start);
    ReflectedDividesFitting(p, data, start);
    ForwardDivides(f, bytes, Reflected(start, w));
    TurnedStart(start, w);
    assert Generator(f) == Generator(p);
    RestIsUnique(Dividend(Flip(start[..w]), bytes), Generator(p), Flip(back[..w]), forward[..w]);
    ReverseLow(back, forward, w);
  }

  lemma ReverseLow(back: Bits, forward: Bits, w: nat)
    requires |back| == |forward| && FitsIn(back, w) && Flip(back[..w]) == forward[..w]
    ensures back == Reflected(forward, w)
  {
    forall i | 0 <= i < w
      ensures back[i] == forward[w - 1 - i]
    {
      assert Flip(back[..w])[w - 1 - i] == back[i] && forward[..w][w - 1 - i] == forward[w - 1 - i];
    }
  }

  // ----- The CRC -----

  /** The initial value and the data, in the order in which a CRC takes their bits. */
  function Start(p: Parameters): (r: Bits)
    requires p.Valid()
    ensures |r| == p.width
  {
    if p.reflectInput then Flip(p.initialValue[..p.width]) else p.initialValue[..p.width]
  }

  function Ordered(p: Parameters, data: seq<Byte>): seq<Byte> {
    if p.reflectInput then MirrorAll(data) else data
  }

  /** rest is the remainder of the data, started with the initial value, for the generator. */
  ghost predicate IsRest(p: Parameters, data: seq<Byte>, rest: Bits)
    requires p.Valid()
  {
    Leaves(Dividend(Start(p), Ordered(p, data)), Generator(p), rest)
  }

  /** What a CRC is: the remainder, reversed if the output is reflected, plus the final word. */
  ghost predicate IsCrc(p: Parameters, data: seq<Byte>, crc: Bits)
    requires p.Valid() && |crc| == p.Digits()
  {
    && FitsIn(crc, p.width)
    && exists rest: Bits :: |rest| == p.width && IsRest(p, data, rest)
         && crc[..p.width] == Xor(if p.reflectOutput then Flip(rest) else rest, p.finalXOR[..p.width])
  }

  /** Which end of the remainder comes first after Finalize. */
  lemma FinalizeTurns(p: Parameters, r: Bits, rest: Bits)
    requires p.Valid() && |r| == p.Digits() && rest == (if p.reflectInput then Flip(r[..p.width]) else r[..p.width])
    ensures FitsIn(Finalize(p, r), p.width)
    ensures Finalize(p, r)[..p.width]
         == Xor(if p.reflectOutput then Flip(rest) else rest, p.finalXOR[..p.width])
  {
    var w := p.width;
    FlipTwice(r[..w]);
    TurnedStart(r, w);
    MaskedSum(if Turned(p) then Reflected(r, w) else r, p.finalXOR, w);
  }

  lemma MaskedSum(a: Bits, b: Bits, w: nat)
    requires |a| == |b| && w <= |a|
    ensures FitsIn(Mask(Xor(a, b), w), w) && Mask(Xor(a, b), w)[..w] == Xor(a[..w], b[..w])
  {
  }

  /** Unless a reflected CRC starts with a word wider than itself, Calculate returns the CRC. */
  lemma CalculateIsCrc(p: Parameters, data: seq<Byte>)
    requires p.Valid() && (p.reflectInput ==> FitsIn(p.initialValue, p.width))
    ensures IsCrc(p, data, Calculate(p, data))
  {
    var w, r := p.width, Remainder(p, data, p.initialValue);
    var rest := if p.reflectInput then Flip(r[..w]) else r[..w];
    if p.reflectInput {
      ReflectedDividesFitting(p, data, p.initialValue);
    } else {
      ForwardDivides(p, data, p.initialValue);
    }
    assert IsRest(p, data, rest);
    FinalizeTurns(p, r, rest);
  }

  lemma CrcIsUnique(p: Parameters, data: seq<Byte>, crc: Bits, other: Bits)
    requires p.Valid() && |crc| == |other| == p.Digits() && IsCrc(p, data, crc) && IsCrc(p, data, other)
    ensures crc[..p.width] == other[..p.width]
  {
    var w := p.width;
    var a: Bits :| |a| == w && IsRest(p, data, a)
                   && crc[..w] == Xor(if p.reflectOutput then Flip(a) else a, p.finalXOR[..w]);
    var b: Bits :| |b| == w && IsRest(p, data, b)
                   && other[..w] == Xor(if p.reflectOutput then Flip(b) else b, p.finalXOR[..w]);
    RestIsUnique(Dividend(Start(p), Ordered(p, data)), Generator(p), a, b);
  }

  /** Some data for which the bits above the width change the remainder. */
  lemma WideMatters(p: Parameters, masked: Bits) returns (data: seq<Byte>)
    requires p.Valid() && CHAR_BIT <= p.width && p.reflectInput && !FitsIn(p.initialValue, p.width)
    requires masked == Mask(p.initialValue, p.width)
    ensures Finalize(p, Remainder(p, data, p.initialValue)) != Finalize(p, Remainder(p, data, masked))
  {
    var w, init := p.width, p.initialValue;
    var i :| w <= i < p.Digits() && init[i];
    assert init[..w] == masked[..w];
    var b := FirstDifference(init, masked, w, i);
    var n := EnoughBytes(b, w);
    data := ZeroBytes(n);
    Separates(p, init, masked, b, n);
    ReflectedRemainder(p, data, init);
    ReflectedRemainder(p, data, masked);
    FinalizeSeparates(p, Remainder(p, data, init), Remainder(p, data, masked));
  }

  /** For that data a wide initial value does not give the CRC. */
  lemma WideStart(p: Parameters) returns (data: seq<Byte>)
    requires p.Valid() && CHAR_BIT <= p.width && p.reflectInput && !FitsIn(p.initialValue, p.width)
    ensures !IsCrc(p, data, Calculate(p, data))
  {
    var masked := Mask(p.initialValue, p.width);
    var narrow := p.(initialValue := masked);
    data := WideMatters(p, masked);
    SameWords(narrow, p, data, masked);
    CalculateIsCrc(narrow, data);
    if IsCrc(p, data, Calculate(p, data)) {
      SameStart(p, narrow, data, Calculate(p, data));
      CrcIsUnique(narrow, data, Calculate(p, data), Calculate(narrow, data));
      FittingEqual(Calculate(p, data), Calculate(narrow, data), p.width);
    }
  }

  lemma FittingEqual(a: Bits, b: Bits, w: nat)
    requires |a| == |b| && FitsIn(a, w) && FitsIn(b, w) && a[..w] == b[..w]
    ensures a == b
  {
    assert forall i :: 0 <= i < w ==> a[i] == a[..w][i] && b[i] == b[..w][i];
  }

  lemma SameByte(p: Parameters, narrow: Parameters, r: Bits, x: Byte)
    requires p.Valid() && narrow.Valid() && |r| == p.Digits() && p == narrow.(initialValue := p.initialValue)
    ensures BitwiseByte(narrow, r, x) == BitwiseByte(p, r, x)
  {
    assert AddByte(narrow, r, x) == AddByte(p, r, x) && LoopPolynomial(narrow) == LoopPolynomial(p);
  }

  /** The initial value matters to the remainder only as its start. */
  lemma {:induction false} SameBytes(p: Parameters, narrow: Parameters, data: seq<Byte>, r: Bits)
    requires p.Valid() && narrow.Valid() && |r| == p.Digits() && p == narrow.(initialValue := p.initialValue)
    ensures BitwiseBytes(narrow, data, r) == BitwiseBytes(p, data, r)
  {
    if data != [] {
      var init, last := data[..|data| - 1], data[|data| - 1];
      SameBytes(p, narrow, init, r);
      SameByte(p, narrow, BitwiseBytes(p, init, r), last);
    }
  }

  lemma FinalizeSame(p: Parameters, narrow: Parameters, r: Bits)
    requires p.Valid() && narrow.Valid() && |r| == p.Digits() && p == narrow.(initialValue := p.initialValue)
    ensures Finalize(narrow, r) == Finalize(p, r)
  {
  }

  lemma SameWords(narrow: Parameters, p: Parameters, data: seq<Byte>, masked: Bits)
    requires p.Valid() && narrow.Valid() && |masked| == p.Digits() && narrow == p.(initialValue := masked)
    ensures Calculate(narrow, data) == Finalize(p, Remainder(p, data, masked))
  {
    assert narrow.Lift() == p.Lift() && narrow.Digits() == p.Digits();
    SameBytes(p, narrow, data, Shl(masked, p.Lift()));
    assert Remainder(narrow, data, masked) == Remainder(p, data, masked);
    FinalizeSame(p, narrow, Remainder(p, data, masked));
  }

  lemma SameStart(p: Parameters, narrow: Parameters, data: seq<Byte>, crc: Bits)
    requires p.Valid() && narrow.Valid() && narrow == p.(initialValue := narrow.initialValue) && |crc| == p.Digits()
    requires narrow.initialValue[..p.width] == p.initialValue[..p.width] && IsCrc(p, data, crc)
    ensures IsCrc(narrow, data, crc)
  {
    var w := p.width;
    var rest: Bits :| |rest| == w && IsRest(p, data, rest)
                      && crc[..w] == Xor(if p.reflectOutput then Flip(rest) else rest, p.finalXOR[..w]);
    assert Start(narrow) == Start(p) && Generator(narrow) == Generator(p) && Ordered(narrow, data) == Ordered(p, data);
    assert IsRest(narrow, data, rest);
  }

  /**
   * For a CRC of at least a byte: Calculate returns the CRC of all data exactly when the initial value
   * of a reflected CRC fits the width.
   */
  lemma CalculateIsCrcIff(p: Parameters)
    requires p.Valid() && CHAR_BIT <= p.width
    ensures (forall data: seq<Byte> :: IsCrc(p, data, Calculate(p, data)))
       <==> (p.reflectInput ==> FitsIn(p.initialValue, p.width))
  {
    if p.reflectInput && !FitsIn(p.initialValue, p.width) {
      var data := WideStart(p);
    } else {
      forall data: seq<Byte>
        ensures IsCrc(p, data, Calculate(p, data))
      {
        CalculateIsCrc(p, data);
      }
    }
  }
}
