/**
 * The CRC code of core/Utilities/CRC.h: the bit-by-bit and the table-driven remainder, the three
 * bit orders they distinguish, finalisation and multi-part computation. Everything is generic in
 * the number of digits of CRCType and in CRCWidth.
 */
module Crc {
  import opened CrcBits

  const CHAR_BIT := 8

  /** CRC::Parameters, with CRCWidth; the three words have as many digits as CRCType. */
  datatype Parameters = Parameters(
    width: nat,
    polynomial: Bits,
    initialValue: Bits,
    finalXOR: Bits,
    reflectInput: bool,
    reflectOutput: bool)
  {
    function Digits(): nat {
      |polynomial|
    }

    /** CRCType has at least the eight digits of a byte and at least CRCWidth digits. */
    predicate Valid() {
      && 1 <= width <= Digits() && CHAR_BIT <= Digits()
      && |initialValue| == |finalXOR| == Digits()
    }

    /** SHIFT of the branch for CRCs shorter than a byte; 0 in the other branches. */
    function Lift(): nat {
      if !reflectInput && width < CHAR_BIT then CHAR_BIT - width else 0
    }

    /** The bits of the register that decide the result in the branches that shift left. */
    function Span(): nat {
      width + Lift()
    }
  }

  // ----- One bit -----

  function ShiftRight(poly: Bits, r: Bits): (s: Bits)
    requires |poly| == |r| > 0
    ensures |s| == |r|
  {
    if r[0] then Xor(Shr(r, 1), poly) else Shr(r, 1)
  }

  /** top: the index of the bit tested before the shift. */
  function ShiftLeft(poly: Bits, top: nat, r: Bits): (s: Bits)
    requires top < |r| == |poly|
    ensures |s| == |r|
  {
    if r[top] then Xor(Shl(r, 1), poly) else Shl(r, 1)
  }

  function ShiftsRight(poly: Bits, k: nat, r: Bits): (s: Bits)
    requires |poly| == |r| > 0
    ensures |s| == |r|
  {
    if k == 0 then r else ShiftRight(poly, ShiftsRight(poly, k - 1, r))
  }

  function ShiftsLeft(poly: Bits, top: nat, k: nat, r: Bits): (s: Bits)
    requires top < |r| == |poly|
    ensures |s| == |r|
  {
    if k == 0 then r else ShiftLeft(poly, top, ShiftsLeft(poly, top, k - 1, r))
  }

  // ----- One byte -----

  /** The polynomial as the inner loop uses it. */
  function LoopPolynomial(p: Parameters): (q: Bits)
    requires p.Valid()
    ensures |q| == p.Digits()
  {
    if p.reflectInput then Reflected(p.polynomial, p.width) else Shl(p.polynomial, p.Lift())
  }

  /** remainder ^= byte, moved to the end of the register where bits leave it. */
  function AddByte(p: Parameters, r: Bits, x: Byte): (s: Bits)
    requires p.Valid() && |r| == p.Digits()
    ensures |s| == |r|
  {
    var word := Extend(ToBits(x, CHAR_BIT), |r|);
    Xor(r, if p.reflectInput then word else Shl(word, p.Span() - CHAR_BIT))
  }

  function BitwiseByte(p: Parameters, r: Bits, x: Byte): (s: Bits)
    requires p.Valid() && |r| == p.Digits()
    ensures |s| == |r|
  {
    var word := AddByte(p, r, x);
    if p.reflectInput then ShiftsRight(LoopPolynomial(p), CHAR_BIT, word)
    else ShiftsLeft(LoopPolynomial(p), p.Span() - 1, CHAR_BIT, word)
  }

  function BitwiseBytes(p: Parameters, data: seq<Byte>, r: Bits): (s: Bits)
    requires p.Valid() && |r| == p.Digits()
    ensures |s| == |r|
  {
    if data == [] then r else BitwiseByte(p, BitwiseBytes(p, data[..|data| - 1], r), data[|data| - 1])
  }

  /** CalculateRemainder(data, size, parameters, remainder) */
  function Remainder(p: Parameters, data: seq<Byte>, r: Bits): (s: Bits)
    requires p.Valid() && |r| == p.Digits()
    ensures |s| == |r|
  {
    Shr(BitwiseBytes(p, data, Shl(r, p.Lift())), p.Lift())
  }

  // ----- The lookup table -----

  function TableEntry(p: Parameters, x: Byte): (e: Bits)
    requires p.Valid()
    ensures |e| == p.Digits()
  {
    Shl(Mask(Remainder(p, [x], Zeros(p.Digits())), p.width), p.Lift())
  }

  function Entries(p: Parameters): Byte -> Bits
    requires p.Valid()
  {
    (x: Byte) => TableEntry(p, x)
  }

  ghost predicate Tabulates(entry: Byte -> Bits, table: seq<Bits>) {
    |table| <= 256 && forall x: Byte :: x < |table| ==> table[x] == entry(x)
  }

  ghost predicate IsTable(p: Parameters, table: seq<Bits>) {
    p.Valid() && |table| == 256 && Tabulates(Entries(p), table)
  }

  /** The table index: the byte that is about to leave the register, combined with the input. */
  function Index(p: Parameters, r: Bits, x: Byte): Byte
    requires p.Valid() && |r| == p.Digits()
  {
    var from := if p.reflectInput then 0 else p.Span() - CHAR_BIT;
    ToByte(AddByte(p, r, x)[from..from + CHAR_BIT])
  }

  function TableByte(p: Parameters, table: seq<Bits>, r: Bits, x: Byte): (s: Bits)
    requires p.Valid() && |r| == p.Digits() && |table| == 256 && (forall e :: e in table ==> |e| == |r|)
    ensures |s| == |r|
  {
    var entry := table[Index(p, r, x)];
    if p.reflectInput then Xor(Shr(r, CHAR_BIT), entry)
    else if p.width >= CHAR_BIT then Xor(Shl(r, CHAR_BIT), entry)
    else entry
  }

  function TableBytes(p: Parameters, table: seq<Bits>, data: seq<Byte>, r: Bits): (s: Bits)
    requires p.Valid() && |r| == p.Digits() && |table| == 256 && (forall e :: e in table ==> |e| == |r|)
    ensures |s| == |r|
  {
    if data == [] then r else TableByte(p, table, TableBytes(p, table, data[..|data| - 1], r), data[|data| - 1])
  }

  /** CalculateRemainder(data, size, lookupTable, remainder) */
  function TableRemainder(p: Parameters, table: seq<Bits>, data: seq<Byte>, r: Bits): (s: Bits)
    requires p.Valid() && |r| == p.Digits() && |table| == 256 && (forall e :: e in table ==> |e| == |r|)
    ensures |s| == |r|
  {
    Shr(TableBytes(p, table, data, Shl(r, p.Lift())), p.Lift())
  }

  // ----- Linearity over GF(2) -----

  lemma ShiftRightLinear(poly: Bits, a: Bits, b: Bits)
    requires |poly| == |a| == |b| > 0
    ensures ShiftRight(poly, Xor(a, b)) == Xor(ShiftRight(poly, a), ShiftRight(poly, b))
  {
  }

  lemma ShiftLeftLinear(poly: Bits, top: nat, a: Bits, b: Bits)
    requires top < |poly| == |a| == |b|
    ensures ShiftLeft(poly, top, Xor(a, b)) == Xor(ShiftLeft(poly, top, a), ShiftLeft(poly, top, b))
  {
  }

  lemma {:induction false} ShiftsRightLinear(poly: Bits, k: nat, a: Bits, b: Bits)
    requires |poly| == |a| == |b| > 0
    ensures ShiftsRight(poly, k, Xor(a, b)) == Xor(ShiftsRight(poly, k, a), ShiftsRight(poly, k, b))
  {
    if k > 0 {
      ShiftsRightLinear(poly, k - 1, a, b);
      ShiftRightLinear(poly, ShiftsRight(poly, k - 1, a), ShiftsRight(poly, k - 1, b));
    }
  }

  lemma {:induction false} ShiftsLeftLinear(poly: Bits, top: nat, k: nat, a: Bits, b: Bits)
    requires top < |poly| == |a| == |b|
    ensures ShiftsLeft(poly, top, k, Xor(a, b)) == Xor(ShiftsLeft(poly, top, k, a), ShiftsLeft(poly, top, k, b))
  {
    if k > 0 {
      ShiftsLeftLinear(poly, top, k - 1, a, b);
      ShiftLeftLinear(poly, top, ShiftsLeft(poly, top, k - 1, a), ShiftsLeft(poly, top, k - 1, b));
    }
  }

  // ----- Bits that do not meet the tested position are only shifted -----

  lemma {:induction false} ShiftsRightClear(poly: Bits, k: nat, a: Bits)
    requires |poly| == |a| > 0 && k <= |a| && forall i :: 0 <= i < k ==> !a[i]
    ensures ShiftsRight(poly, k, a) == Shr(a, k)
  {
    if k > 0 {
      ShiftsRightClear(poly, k - 1, a);
      assert Shr(Shr(a, k - 1), 1) == Shr(a, k);
      assert Shr(a, k - 1)[0] == a[k - 1];
    } else {
      assert Shr(a, 0) == a;
    }
  }

  lemma {:induction false} ShiftsLeftClear(poly: Bits, top: nat, k: nat, a: Bits)
    requires top < |poly| == |a| && k <= top + 1 && forall i :: top + 1 - k <= i <= top ==> !a[i]
    ensures ShiftsLeft(poly, top, k, a) == Shl(a, k)
  {
    if k > 0 {
      ShiftsLeftClear(poly, top, k - 1, a);
      assert Shl(Shl(a, k - 1), 1) == Shl(a, k);
      assert Shl(a, k - 1)[top] == a[top + 1 - k];
    } else {
      assert Shl(a, 0) == a;
    }
  }

  // ----- Bits above the tested position never come back -----

  lemma {:induction false} ShiftsLeftLow(poly: Bits, top: nat, k: nat, a: Bits, b: Bits)
    requires top < |poly| == |a| == |b| && a[..top + 1] == b[..top + 1]
    ensures ShiftsLeft(poly, top, k, a)[..top + 1] == ShiftsLeft(poly, top, k, b)[..top + 1]
  {
    if k > 0 {
      ShiftsLeftLow(poly, top, k - 1, a, b);
      ShiftLeftLow(poly, top, ShiftsLeft(poly, top, k - 1, a), ShiftsLeft(poly, top, k - 1, b));
    }
  }

  lemma ShiftLeftLow(poly: Bits, top: nat, a: Bits, b: Bits)
    requires top < |poly| == |a| == |b| && a[..top + 1] == b[..top + 1]
    ensures ShiftLeft(poly, top, a)[..top + 1] == ShiftLeft(poly, top, b)[..top + 1]
  {
    assert forall i :: 0 <= i <= top ==> a[i] == a[..top + 1][i] && b[i] == b[..top + 1][i];
  }

  // ----- What a table entry is -----

  /** The word for the byte x at the end of the register where bits leave it. */
  function ByteWord(p: Parameters, x: Byte): (s: Bits)
    requires p.Valid()
    ensures |s| == p.Digits()
  {
    var word := Extend(ToBits(x, CHAR_BIT), p.Digits());
    if p.reflectInput then word else Shl(word, p.Span() - CHAR_BIT)
  }

  /** Eight rounds of the inner loop. */
  function Rounds(p: Parameters, a: Bits): (s: Bits)
    requires p.Valid() && |a| == p.Digits()
    ensures |s| == |a|
  {
    if p.reflectInput then ShiftsRight(LoopPolynomial(p), CHAR_BIT, a)
    else ShiftsLeft(LoopPolynomial(p), p.Span() - 1, CHAR_BIT, a)
  }

  lemma EntryUnfolds(p: Parameters, x: Byte)
    requires p.Valid()
    ensures TableEntry(p, x) == Shl(Mask(Shr(Rounds(p, ByteWord(p, x)), p.Lift()), p.width), p.Lift())
  {
    var zero := Zeros(p.Digits());
    assert Shl(zero, p.Lift()) == zero;
    assert AddByte(p, zero, x) == ByteWord(p, x) by { XorZeros(ByteWord(p, x)); }
    assert [x][..0] == [];
    assert BitwiseBytes(p, [x], zero) == Rounds(p, ByteWord(p, x));
  }

  /** Shifting right, no bit stays above the width once the bits that started there have left. */
  lemma {:induction false} ShiftsRightFits(poly: Bits, k: nat, a: Bits, w: nat, m: nat)
    requires |poly| == |a| > 0 && FitsIn(poly, w) && forall i :: m <= i < |a| ==> !a[i]
    ensures forall i :: w <= i < |a| && m <= i + k ==> !ShiftsRight(poly, k, a)[i]
  {
    if k > 0 {
      ShiftsRightFits(poly, k - 1, a, w, m);
    }
  }

  lemma ReflectedEntry(p: Parameters, x: Byte)
    requires p.Valid() && p.reflectInput
    ensures TableEntry(p, x) == Rounds(p, ByteWord(p, x))
  {
    EntryUnfolds(p, x);
    var full := Rounds(p, ByteWord(p, x));
    ReflectedTwice(p.polynomial, p.width);
    ShiftsRightFits(LoopPolynomial(p), CHAR_BIT, ByteWord(p, x), p.width, CHAR_BIT);
    assert Shr(full, 0) == full && Mask(full, p.width) == full && Shl(full, 0) == full;
  }

  /** Shifting left by a polynomial with s low zeros leaves s low zeros after s rounds. */
  lemma {:induction false} ShiftsLeftLowZeros(poly: Bits, top: nat, k: nat, a: Bits, s: nat)
    requires top < |poly| == |a| && s <= |a| && forall i :: 0 <= i < s ==> !poly[i]
    ensures forall i :: 0 <= i < s && i < k ==> !ShiftsLeft(poly, top, k, a)[i]
  {
    if k > 0 {
      ShiftsLeftLowZeros(poly, top, k - 1, a, s);
    }
  }

  lemma ForwardEntry(p: Parameters, x: Byte)
    requires p.Valid() && !p.reflectInput
    ensures TableEntry(p, x)[..p.Span()] == Rounds(p, ByteWord(p, x))[..p.Span()]
  {
    EntryUnfolds(p, x);
    var full, lift := Rounds(p, ByteWord(p, x)), p.Lift();
    ShiftsLeftLowZeros(LoopPolynomial(p), p.Span() - 1, CHAR_BIT, ByteWord(p, x), lift);
    MaskShift(full, lift, p.width);
  }

  lemma MaskShift(a: Bits, lift: nat, w: nat)
    requires lift + w <= |a| && forall i :: 0 <= i < lift ==> !a[i]
    ensures Shl(Mask(Shr(a, lift), w), lift)[..lift + w] == a[..lift + w]
  {
    var low := Shl(Mask(Shr(a, lift), w), lift);
    forall i | 0 <= i < lift + w
      ensures low[i] == a[i]
    {
      if i >= lift {
        assert low[i] == Mask(Shr(a, lift), w)[i - lift] == Shr(a, lift)[i - lift];
      }
    }
  }

  // ----- One byte through the table -----

  /** AddByte splits into the byte that leaves the register and the rest. */
  lemma SplitRight(p: Parameters, r: Bits, x: Byte)
    requires p.Valid() && p.reflectInput && |r| == p.Digits()
    ensures var a := AddByte(p, r, x);
            && a == Xor(Zeros(CHAR_BIT) + a[CHAR_BIT..], ByteWord(p, Index(p, r, x)))
            && Shr(Zeros(CHAR_BIT) + a[CHAR_BIT..], CHAR_BIT) == Shr(r, CHAR_BIT)
  {
    var a := AddByte(p, r, x);
    assert ToBits(Index(p, r, x), CHAR_BIT) == a[..CHAR_BIT];
    assert Shr(a, CHAR_BIT) == Shr(r, CHAR_BIT);
  }

  lemma ReflectedByte(p: Parameters, table: seq<Bits>, r: Bits, x: Byte)
    requires IsTable(p, table) && p.reflectInput && |r| == p.Digits()
    ensures forall e :: e in table ==> |e| == |r|
    ensures TableByte(p, table, r, x) == BitwiseByte(p, r, x)
  {
    var a, q := AddByte(p, r, x), LoopPolynomial(p);
    var high, low := Zeros(CHAR_BIT) + a[CHAR_BIT..], ByteWord(p, Index(p, r, x));
    SplitRight(p, r, x);
    ShiftsRightLinear(q, CHAR_BIT, high, low);
    ShiftsRightClear(q, CHAR_BIT, high);
    ReflectedEntry(p, Index(p, r, x));
  }

  /** The low part of the register without the byte that leaves it. */
  function Below(a: Bits, m: nat): (r: Bits)
    requires CHAR_BIT <= m <= |a|
    ensures |r| == |a|
  {
    a[..m - CHAR_BIT] + Zeros(CHAR_BIT) + a[m..]
  }

  lemma SplitLeft(p: Parameters, r: Bits, x: Byte)
    requires p.Valid() && !p.reflectInput && |r| == p.Digits()
    ensures var a, m := AddByte(p, r, x), p.Span();
            && a == Xor(Below(a, m), ByteWord(p, Index(p, r, x)))
            && Shl(Below(a, m), CHAR_BIT)[..m] == Shl(r, CHAR_BIT)[..m]
  {
    var a, m := AddByte(p, r, x), p.Span();
    assert ToBits(Index(p, r, x), CHAR_BIT) == a[m - CHAR_BIT..m];
    SplitWord(a, m, a[m - CHAR_BIT..m]);
    BelowLow(a, r, m);
  }

  lemma SplitWord(a: Bits, m: nat, byte: Bits)
    requires CHAR_BIT <= m <= |a| && byte == a[m - CHAR_BIT..m]
    ensures a == Xor(Below(a, m), Shl(Extend(byte, |a|), m - CHAR_BIT))
  {
  }

  lemma BelowLow(a: Bits, r: Bits, m: nat)
    requires CHAR_BIT <= m <= |a| == |r| && forall i :: 0 <= i < m - CHAR_BIT ==> a[i] == r[i]
    ensures Shl(Below(a, m), CHAR_BIT)[..m] == Shl(r, CHAR_BIT)[..m]
  {
  }

  /** Equal low parts of the register lead to equal low parts after one byte. */
  lemma ForwardByte(p: Parameters, table: seq<Bits>, t: Bits, r: Bits, x: Byte)
    requires IsTable(p, table) && !p.reflectInput && |t| == |r| == p.Digits()
    requires t[..p.Span()] == r[..p.Span()]
    ensures forall e :: e in table ==> |e| == |r|
    ensures TableByte(p, table, t, x)[..p.Span()] == BitwiseByte(p, r, x)[..p.Span()]
  {
    ForwardByteSame(p, table, t, x);
    var m := p.Span();
    AddByteLow(p, t, r, x);
    ShiftsLeftLow(LoopPolynomial(p), m - 1, CHAR_BIT, AddByte(p, t, x), AddByte(p, r, x));
  }

  lemma AddByteLow(p: Parameters, t: Bits, r: Bits, x: Byte)
    requires p.Valid() && !p.reflectInput && |t| == |r| == p.Digits() && t[..p.Span()] == r[..p.Span()]
    ensures AddByte(p, t, x)[..p.Span()] == AddByte(p, r, x)[..p.Span()]
  {
    var m := p.Span();
    assert forall i :: 0 <= i < m ==> t[i] == t[..m][i] && r[i] == r[..m][i];
  }

  lemma ShiftsLeftSplit(poly: Bits, top: nat, k: nat, low: Bits, high: Bits)
    requires top < |poly| == |low| == |high| && k <= top + 1
    requires forall i :: top + 1 - k <= i <= top ==> !low[i]
    ensures ShiftsLeft(poly, top, k, Xor(low, high)) == Xor(Shl(low, k), ShiftsLeft(poly, top, k, high))
  {
    ShiftsLeftLinear(poly, top, k, low, high);
    ShiftsLeftClear(poly, top, k, low);
  }

  lemma BelowClear(a: Bits, m: nat)
    requires CHAR_BIT <= m <= |a|
    ensures forall i :: m - CHAR_BIT <= i < m ==> !Below(a, m)[i]
  {
  }

  /** The bit-by-bit byte, split by linearity. */
  lemma BitwiseByteSplit(p: Parameters, r: Bits, x: Byte)
    requires p.Valid() && !p.reflectInput && |r| == p.Digits()
    ensures var low, high := Below(AddByte(p, r, x), p.Span()), ByteWord(p, Index(p, r, x));
            && BitwiseByte(p, r, x) == Xor(Shl(low, CHAR_BIT), Rounds(p, high))
            && Shl(low, CHAR_BIT)[..p.Span()] == Shl(r, CHAR_BIT)[..p.Span()]
  {
    var low, high := Below(AddByte(p, r, x), p.Span()), ByteWord(p, Index(p, r, x));
    SplitLeft(p, r, x);
    BelowClear(AddByte(p, r, x), p.Span());
    ShiftsLeftSplit(LoopPolynomial(p), p.Span() - 1, CHAR_BIT, low, high);
  }

  /** The byte through the table; a narrow CRC has nothing left of r in its low bits. */
  lemma TableByteLow(p: Parameters, table: seq<Bits>, r: Bits, x: Byte)
    requires IsTable(p, table) && !p.reflectInput && |r| == p.Digits()
    ensures forall e :: e in table ==> |e| == |r|
    ensures TableByte(p, table, r, x)[..p.Span()]
         == Xor(Shl(r, CHAR_BIT), TableEntry(p, Index(p, r, x)))[..p.Span()]
  {
    TableSizes(p, table);
    var entry := table[Index(p, r, x)];
    assert entry == TableEntry(p, Index(p, r, x));
    if p.width < CHAR_BIT {
      ShiftedOut(r, entry);
    }
  }

  lemma ShiftedOut(r: Bits, e: Bits)
    requires |r| == |e| >= CHAR_BIT
    ensures Xor(Shl(r, CHAR_BIT), e)[..CHAR_BIT] == e[..CHAR_BIT]
  {
  }

  lemma ForwardByteSame(p: Parameters, table: seq<Bits>, r: Bits, x: Byte)
    requires IsTable(p, table) && !p.reflectInput && |r| == p.Digits()
    ensures forall e :: e in table ==> |e| == |r|
    ensures TableByte(p, table, r, x)[..p.Span()] == BitwiseByte(p, r, x)[..p.Span()]
  {
    var low, high := Below(AddByte(p, r, x), p.Span()), ByteWord(p, Index(p, r, x));
    TableByteLow(p, table, r, x);
    BitwiseByteSplit(p, r, x);
    ForwardEntry(p, Index(p, r, x));
    CombineLow(Shl(low, CHAR_BIT), Shl(r, CHAR_BIT), Rounds(p, high), TableEntry(p, Index(p, r, x)), p.Span());
  }

  lemma CombineLow(a: Bits, a': Bits, b: Bits, b': Bits, m: nat)
    requires |a| == |a'| == |b| == |b'| && m <= |a| && a[..m] == a'[..m] && b[..m] == b'[..m]
    ensures Xor(a, b)[..m] == Xor(a', b')[..m]
  {
    assert forall i :: 0 <= i < m ==> a[i] == a[..m][i] && a'[i] == a'[..m][i] && b[i] == b[..m][i] && b'[i] == b'[..m][i];
  }

  // ----- Whole byte strings -----

  /** Shifting right, table and bitwise computation agree in every bit. */
  lemma {:induction false} ReflectedBytes(p: Parameters, table: seq<Bits>, data: seq<Byte>, r: Bits)
    requires IsTable(p, table) && p.reflectInput && |r| == p.Digits()
    ensures forall e :: e in table ==> |e| == |r|
    ensures TableBytes(p, table, data, r) == BitwiseBytes(p, data, r)
  {
    TableSizes(p, table);
    if data != [] {
      ReflectedBytes(p, table, data[..|data| - 1], r);
      ReflectedByte(p, table, BitwiseBytes(p, data[..|data| - 1], r), data[|data| - 1]);
    }
  }

  lemma TableSizes(p: Parameters, table: seq<Bits>)
    requires IsTable(p, table)
    ensures forall e :: e in table ==> |e| == p.Digits()
  {
    forall e | e in table ensures |e| == p.Digits() {
      var x :| 0 <= x < |table| && table[x] == e;
      var b: Byte := x;
      assert table[b] == Entries(p)(b);
    }
  }

  /** Shifting left, they agree in the bits that decide the result. */
  lemma {:induction false} ForwardBytes(p: Parameters, table: seq<Bits>, data: seq<Byte>, t: Bits, r: Bits)
    requires IsTable(p, table) && !p.reflectInput && |t| == |r| == p.Digits() && t[..p.Span()] == r[..p.Span()]
    ensures forall e :: e in table ==> |e| == |r|
    ensures TableBytes(p, table, data, t)[..p.Span()] == BitwiseBytes(p, data, r)[..p.Span()]
  {
    TableSizes(p, table);
    if data != [] {
      var init, last := data[..|data| - 1], data[|data| - 1];
      ForwardBytes(p, table, init, t, r);
      ForwardByte(p, table, TableBytes(p, table, init, t), BitwiseBytes(p, init, r), last);
    }
  }

  lemma ShrLow(a: Bits, b: Bits, lift: nat, w: nat)
    requires |a| == |b| && lift + w <= |a| && a[..lift + w] == b[..lift + w]
    ensures Mask(Shr(a, lift), w) == Mask(Shr(b, lift), w)
  {
    assert forall i :: 0 <= i < lift + w ==> a[i] == a[..lift + w][i] && b[i] == b[..lift + w][i];
  }

  /**
   * The table-driven remainder equals the bit-by-bit remainder modulo the width mask, for every
   * byte string, every starting remainder and every parameter set, reflected or not.
   */
  lemma TableAgreesWithBitwise(p: Parameters, table: seq<Bits>, data: seq<Byte>, r: Bits)
    requires IsTable(p, table) && |r| == p.Digits()
    ensures forall e :: e in table ==> |e| == |r|
    ensures Mask(TableRemainder(p, table, data, r), p.width) == Mask(Remainder(p, data, r), p.width)
    ensures p.reflectInput ==> TableRemainder(p, table, data, r) == Remainder(p, data, r)
  {
    TableSizes(p, table);
    var lifted := Shl(r, p.Lift());
    if p.reflectInput {
      ReflectedBytes(p, table, data, lifted);
    } else {
      ForwardBytes(p, table, data, lifted, lifted);
      ShrLow(TableBytes(p, table, data, lifted), BitwiseBytes(p, data, lifted), p.Lift(), p.width);
    }
  }

  // ----- Finalisation -----

  predicate Turned(p: Parameters) {
    p.reflectInput != p.reflectOutput
  }

  function Finalize(p: Parameters, r: Bits): (c: Bits)
    requires p.Valid() && |r| == p.Digits()
    ensures |c| == |r|
  {
    Mask(Xor(if Turned(p) then Reflected(r, p.width) else r, p.finalXOR), p.width)
  }

  function UndoFinalize(p: Parameters, c: Bits): (r: Bits)
    requires p.Valid() && |c| == p.Digits()
    ensures |r| == |c|
  {
    var x := Xor(Mask(c, p.width), p.finalXOR);
    if Turned(p) then Reflected(x, p.width) else x
  }

  /** Only the low width bits of a remainder matter to its CRC. */
  lemma FinalizeLow(p: Parameters, a: Bits, b: Bits)
    requires p.Valid() && |a| == |b| == p.Digits() && Mask(a, p.width) == Mask(b, p.width)
    ensures Finalize(p, a) == Finalize(p, b)
  {
    assert forall i :: 0 <= i < p.width ==> a[i] == Mask(a, p.width)[i] && b[i] == Mask(b, p.width)[i];
  }

  /** The bits of the round trip through Finalize and UndoFinalize. */
  lemma UndoBits(p: Parameters, r: Bits, i: nat)
    requires p.Valid() && |r| == p.Digits() && i < |r|
    ensures UndoFinalize(p, Finalize(p, r))[i]
         == if i < p.width then r[i] else !Turned(p) && p.finalXOR[i]
  {
    var w, fin := p.width, Finalize(p, r);
    assert forall j :: 0 <= j < w ==> Mask(fin, w)[j] == fin[j];
    if Turned(p) && i < w {
      assert fin[w - 1 - i] == (Reflected(r, w)[w - 1 - i] != p.finalXOR[w - 1 - i]);
    }
  }

  /**
   * The comment on UndoFinalize says the two are always inverse. Exactly when they are: the bits
   * above the width are those the undoing puts there.
   */
  lemma UndoInvertsIff(p: Parameters, r: Bits)
    requires p.Valid() && |r| == p.Digits()
    ensures UndoFinalize(p, Finalize(p, r)) == r
       <==> forall i :: p.width <= i < |r| ==> r[i] == (!Turned(p) && p.finalXOR[i])
    ensures UndoFinalize(p, Finalize(p, r))[..p.width] == r[..p.width]
  {
    var back := UndoFinalize(p, Finalize(p, r));
    forall i | 0 <= i < |r| ensures back[i] == if i < p.width then r[i] else !Turned(p) && p.finalXOR[i] {
      UndoBits(p, r, i);
    }
    if forall i :: p.width <= i < |r| ==> r[i] == (!Turned(p) && p.finalXOR[i]) {
      assert back == r;
    }
  }

  lemma FinalizeInvertsIff(p: Parameters, c: Bits)
    requires p.Valid() && |c| == p.Digits()
    ensures Finalize(p, UndoFinalize(p, c)) == c <==> FitsIn(c, p.width)
  {
    var w, back := p.width, Finalize(p, UndoFinalize(p, c));
    forall i | 0 <= i < |c| ensures back[i] == (i < w && c[i]) {
      FinalizeBit(p, c, i);
    }
    assert FitsIn(c, w) ==> back == c;
  }

  lemma FinalizeBit(p: Parameters, c: Bits, i: nat)
    requires p.Valid() && |c| == p.Digits() && i < |c|
    ensures Finalize(p, UndoFinalize(p, c))[i] == (i < p.width && c[i])
  {
    var w := p.width;
    if i < w && Turned(p) {
      var x := Xor(Mask(c, w), p.finalXOR);
      assert Reflected(Reflected(x, w), w)[i] == Reflected(x, w)[w - 1 - i] == x[i];
    }
  }

  /** Neither holds always: an 8-bit CRC in 16 digits, and a word with a bit above the width. */
  lemma UndoExample()
    ensures var p := Parameters(8, Zeros(16), Zeros(16), Zeros(16), false, false);
            var word := Zeros(16)[8 := true];
            UndoFinalize(p, Finalize(p, word)) != word && Finalize(p, UndoFinalize(p, word)) != word
  {
    var p := Parameters(8, Zeros(16), Zeros(16), Zeros(16), false, false);
    var word := Zeros(16)[8 := true];
    assert word[8];
    UndoInvertsIff(p, word);
    FinalizeInvertsIff(p, word);
  }

  // ----- Multi-part computation -----

  /** The four Calculate overloads. */
  function Calculate(p: Parameters, data: seq<Byte>): (c: Bits)
    requires p.Valid()
    ensures |c| == p.Digits()
  {
    Finalize(p, Remainder(p, data, p.initialValue))
  }

  function Continue(p: Parameters, data: seq<Byte>, crc: Bits): (c: Bits)
    requires p.Valid() && |crc| == p.Digits()
    ensures |c| == p.Digits()
  {
    Finalize(p, Remainder(p, data, UndoFinalize(p, crc)))
  }

  function TableCalculate(p: Parameters, table: seq<Bits>, data: seq<Byte>): (c: Bits)
    requires p.Valid() && |table| == 256 && (forall e :: e in table ==> |e| == p.Digits())
    ensures |c| == p.Digits()
  {
    Finalize(p, TableRemainder(p, table, data, p.initialValue))
  }

  function TableContinue(p: Parameters, table: seq<Bits>, data: seq<Byte>, crc: Bits): (c: Bits)
    requires p.Valid() && |crc| == p.Digits() && |table| == 256 && (forall e :: e in table ==> |e| == p.Digits())
    ensures |c| == p.Digits()
  {
    Finalize(p, TableRemainder(p, table, data, UndoFinalize(p, crc)))
  }

  lemma {:induction false} BytesAppend(p: Parameters, d1: seq<Byte>, d2: seq<Byte>, r: Bits)
    requires p.Valid() && |r| == p.Digits()
    ensures BitwiseBytes(p, d1 + d2, r) == BitwiseBytes(p, d2, BitwiseBytes(p, d1, r))
    decreases d2
  {
    if d2 == [] {
      assert d1 + d2 == d1;
    } else {
      var init, last := d2[..|d2| - 1], d2[|d2| - 1];
      assert (d1 + d2)[..|d1 + d2| - 1] == d1 + init;
      BytesAppend(p, d1, init, r);
    }
  }

  lemma {:induction false} BytesLow(p: Parameters, data: seq<Byte>, t: Bits, r: Bits)
    requires p.Valid() && !p.reflectInput && |t| == |r| == p.Digits() && t[..p.Span()] == r[..p.Span()]
    ensures BitwiseBytes(p, data, t)[..p.Span()] == BitwiseBytes(p, data, r)[..p.Span()]
  {
    if data != [] {
      var init, last := data[..|data| - 1], data[|data| - 1];
      BytesLow(p, init, t, r);
      var t', r' := BitwiseBytes(p, init, t), BitwiseBytes(p, init, r);
      AddByteLow(p, t', r', last);
      ShiftsLeftLow(LoopPolynomial(p), p.Span() - 1, CHAR_BIT, AddByte(p, t', last), AddByte(p, r', last));
    }
  }

  lemma {:induction false} BytesLowZeros(p: Parameters, data: seq<Byte>, r: Bits)
    requires p.Valid() && !p.reflectInput && |r| == p.Digits() && forall i :: 0 <= i < p.Lift() ==> !r[i]
    ensures forall i :: 0 <= i < p.Lift() ==> !BitwiseBytes(p, data, r)[i]
  {
    if data != [] {
      var init, last := data[..|data| - 1], data[|data| - 1];
      ShiftsLeftLowZeros(LoopPolynomial(p), p.Span() - 1, CHAR_BIT,
                         AddByte(p, BitwiseBytes(p, init, r), last), p.Lift());
    }
  }

  lemma {:induction false} BytesFit(p: Parameters, data: seq<Byte>, r: Bits)
    requires p.Valid() && p.reflectInput && |r| == p.Digits() && FitsIn(r, p.width)
    ensures FitsIn(BitwiseBytes(p, data, r), p.width)
  {
    if data != [] {
      var init, last := data[..|data| - 1], data[|data| - 1];
      BytesFit(p, init, r);
      ReflectedTwice(p.polynomial, p.width);
      ShiftsRightFits(LoopPolynomial(p), CHAR_BIT, AddByte(p, BitwiseBytes(p, init, r), last), p.width,
                      if p.width < CHAR_BIT then CHAR_BIT else p.width);
    }
  }

  /** Shifting left: lifting the first remainder gives back the register it came from. */
  lemma RegisterAgain(p: Parameters, d1: seq<Byte>, r: Bits, u: Bits)
    requires p.Valid() && !p.reflectInput && |r| == |u| == p.Digits()
    requires u[..p.width] == Remainder(p, d1, r)[..p.width]
    ensures Shl(u, p.Lift())[..p.Span()] == BitwiseBytes(p, d1, Shl(r, p.Lift()))[..p.Span()]
  {
    BytesLowZeros(p, d1, Shl(r, p.Lift()));
    LiftBack(BitwiseBytes(p, d1, Shl(r, p.Lift())), u, p.Lift(), p.width);
  }

  /** Shifting left: resuming from any word with the same low bits as the first remainder. */
  lemma ResumeLeft(p: Parameters, d1: seq<Byte>, d2: seq<Byte>, r: Bits, u: Bits)
    requires p.Valid() && !p.reflectInput && |r| == |u| == p.Digits()
    requires u[..p.width] == Remainder(p, d1, r)[..p.width]
    ensures Mask(Remainder(p, d2, u), p.width) == Mask(Remainder(p, d1 + d2, r), p.width)
  {
    var lift, w := p.Lift(), p.width;
    var reg := BitwiseBytes(p, d1, Shl(r, lift));
    RegisterAgain(p, d1, r, u);
    BytesAppend(p, d1, d2, Shl(r, lift));
    BytesLow(p, d2, Shl(u, lift), reg);
    ShrLow(BitwiseBytes(p, d2, Shl(u, lift)), BitwiseBytes(p, d2, reg), lift, w);
  }

  lemma LiftBack(reg: Bits, u: Bits, lift: nat, w: nat)
    requires |reg| == |u| && lift + w <= |u| && u[..w] == Shr(reg, lift)[..w]
    requires forall i :: 0 <= i < lift ==> !reg[i]
    ensures Shl(u, lift)[..lift + w] == reg[..lift + w]
  {
    assert forall i :: 0 <= i < w ==> u[i] == u[..w][i] && Shr(reg, lift)[..w][i] == reg[lift + i];
  }

  /** The words that end up in a reflected register are as wide as the CRC. */
  ghost predicate WidthFitting(p: Parameters) {
    p.reflectInput ==> FitsIn(p.initialValue, p.width) && (p.reflectOutput ==> FitsIn(p.finalXOR, p.width))
  }

  lemma ResumeFromCrc(p: Parameters, d1: seq<Byte>, d2: seq<Byte>)
    requires p.Valid() && WidthFitting(p)
    ensures Mask(Remainder(p, d2, UndoFinalize(p, Calculate(p, d1))), p.width)
         == Mask(Remainder(p, d1 + d2, p.initialValue), p.width)
  {
    var first := Remainder(p, d1, p.initialValue);
    UndoInvertsIff(p, first);
    if p.reflectInput {
      assert forall w: Bits :: |w| > 0 ==> Shl(w, 0) == w && Shr(w, 0) == w;
      BytesFit(p, d1, p.initialValue);
      BytesAppend(p, d1, d2, p.initialValue);
    } else {
      ResumeLeft(p, d1, d2, p.initialValue, UndoFinalize(p, Calculate(p, d1)));
    }
  }

  /** Multi-part equals one-shot, bit by bit and through the table, and the two agree. */
  lemma MultiPartIsOneShot(p: Parameters, table: seq<Bits>, d1: seq<Byte>, d2: seq<Byte>)
    requires IsTable(p, table) && WidthFitting(p)
    ensures forall e :: e in table ==> |e| == p.Digits()
    ensures Continue(p, d2, Calculate(p, d1)) == Calculate(p, d1 + d2)
    ensures TableContinue(p, table, d2, TableCalculate(p, table, d1)) == TableCalculate(p, table, d1 + d2)
    ensures TableCalculate(p, table, d1 + d2) == Calculate(p, d1 + d2)
  {
    TableSizes(p, table);
    ResumeFromCrc(p, d1, d2);
    FinalizeLow(p, Remainder(p, d2, UndoFinalize(p, Calculate(p, d1))), Remainder(p, d1 + d2, p.initialValue));
    TableCrcAgrees(p, table, d1, p.initialValue);
    TableCrcAgrees(p, table, d1 + d2, p.initialValue);
    TableCrcAgrees(p, table, d2, UndoFinalize(p, Calculate(p, d1)));
  }

  // ----- Exactly which parameters allow it -----

  /** Shifting right by a polynomial of width w moves the bits above w down unchanged. */
  lemma {:induction false} ShiftsRightHigh(poly: Bits, k: nat, a: Bits, w: nat)
    requires |poly| == |a| > 0 && FitsIn(poly, w)
    ensures forall i :: w <= i < |a| ==> ShiftsRight(poly, k, a)[i] == (i + k < |a| && a[i + k])
  {
    if k > 0 {
      ShiftsRightHigh(poly, k - 1, a, w);
      var b := ShiftsRight(poly, k - 1, a);
      forall i | w <= i < |a|
        ensures ShiftRight(poly, b)[i] == (i + k < |a| && a[i + k])
      {
        assert Shr(b, 1)[i] == (i + 1 < |a| && b[i + 1]);
      }
    }
  }

  /** The lowest bit in which two words differ is bit b. */
  ghost predicate DifferFrom(r: Bits, u: Bits, b: nat) {
    |r| == |u| && b < |r| && r[b] != u[b] && forall j :: 0 <= j < b ==> r[j] == u[j]
  }

  lemma ShiftMoves(poly: Bits, r: Bits, u: Bits, b: nat)
    requires DifferFrom(r, u, b) && 0 < b && |poly| == |r|
    ensures DifferFrom(ShiftRight(poly, r), ShiftRight(poly, u), b - 1)
  {
    forall i | 0 <= i < b
      ensures (ShiftRight(poly, r)[i] == ShiftRight(poly, u)[i]) == (r[i + 1] == u[i + 1])
    {
      assert Shr(r, 1)[i] == r[i + 1] && Shr(u, 1)[i] == u[i + 1];
    }
  }

  lemma {:induction false} ShiftsMove(poly: Bits, k: nat, r: Bits, u: Bits, b: nat)
    requires DifferFrom(r, u, b) && k <= b && |poly| == |r|
    ensures DifferFrom(ShiftsRight(poly, k, r), ShiftsRight(poly, k, u), b - k)
  {
    if k > 0 {
      ShiftsMove(poly, k - 1, r, u, b);
      ShiftMoves(poly, ShiftsRight(poly, k - 1, r), ShiftsRight(poly, k - 1, u), b - k + 1);
    }
  }

  lemma AddKeeps(p: Parameters, r: Bits, u: Bits, x: Byte, b: nat)
    requires p.Valid() && |r| == p.Digits() && DifferFrom(r, u, b)
    ensures DifferFrom(AddByte(p, r, x), AddByte(p, u, x), b)
  {
  }

  lemma ByteMoves(p: Parameters, r: Bits, u: Bits, x: Byte, b: nat, r': Bits, u': Bits)
    requires p.Valid() && p.reflectInput && |r| == p.Digits() && DifferFrom(r, u, b) && CHAR_BIT <= b
    requires r' == BitwiseByte(p, r, x) && u' == BitwiseByte(p, u, x)
    ensures DifferFrom(r', u', b - CHAR_BIT)
  {
    AddKeeps(p, r, u, x, b);
    ShiftsMove(LoopPolynomial(p), CHAR_BIT, AddByte(p, r, x), AddByte(p, u, x), b);
  }

  lemma OneMoreMoves(p: Parameters, n: nat, r: Bits, u: Bits, b: nat)
    requires p.Valid() && p.reflectInput && |r| == |u| == p.Digits() && 0 < n && CHAR_BIT <= b
    requires DifferFrom(BitwiseBytes(p, ZeroBytes(n - 1), r), BitwiseBytes(p, ZeroBytes(n - 1), u), b)
    ensures DifferFrom(BitwiseBytes(p, ZeroBytes(n), r), BitwiseBytes(p, ZeroBytes(n), u), b - CHAR_BIT)
  {
    OneMoreZero(p, n, r);
    OneMoreZero(p, n, u);
    ByteMoves(p, BitwiseBytes(p, ZeroBytes(n - 1), r), BitwiseBytes(p, ZeroBytes(n - 1), u), 0, b,
              BitwiseBytes(p, ZeroBytes(n), r), BitwiseBytes(p, ZeroBytes(n), u));
  }

  /** Every byte moves the lowest difference of two reflected registers down by eight bits. */
  lemma {:induction false} BytesMove(p: Parameters, n: nat, r: Bits, u: Bits, b: nat, k: nat)
    requires p.Valid() && p.reflectInput && |r| == p.Digits() && DifferFrom(r, u, b) && k == CHAR_BIT * n <= b
    ensures DifferFrom(BitwiseBytes(p, ZeroBytes(n), r), BitwiseBytes(p, ZeroBytes(n), u), b - k)
    decreases n
  {
    if n > 0 {
      BytesMove(p, n - 1, r, u, b, k - CHAR_BIT);
      OneMoreMoves(p, n, r, u, b - (k - CHAR_BIT));
    } else {
      NoZeros(p, r);
      NoZeros(p, u);
    }
  }

  lemma NoZeros(p: Parameters, r: Bits)
    requires p.Valid() && |r| == p.Digits()
    ensures BitwiseBytes(p, ZeroBytes(0), r) == r
  {
    assert ZeroBytes(0) == [];
  }

  lemma OneMoreZero(p: Parameters, n: nat, r: Bits)
    requires p.Valid() && |r| == p.Digits() && 0 < n
    ensures BitwiseBytes(p, ZeroBytes(n), r) == BitwiseByte(p, BitwiseBytes(p, ZeroBytes(n - 1), r), 0)
  {
    assert ZeroBytes(n)[..n - 1] == ZeroBytes(n - 1);
  }

  lemma FirstDifference(r: Bits, u: Bits, w: nat, i: nat) returns (b: nat)
    requires w <= |r| == |u| && r[..w] == u[..w] && w <= i < |r| && r[i] != u[i]
    ensures w <= b && DifferFrom(r, u, b)
  {
    assert forall j :: 0 <= j < w ==> r[j] == r[..w][j] == u[..w][j] == u[j];
    b := w;
    while r[b] == u[b]
      invariant w <= b <= i && forall j :: 0 <= j < b ==> r[j] == u[j]
      decreases i - b
    {
      b := b + 1;
    }
  }

  function ZeroBytes(n: nat): (d: seq<Byte>)
    ensures |d| == n
  {
    seq(n, _ => 0)
  }

  /** Registers that differ above the width only are told apart by enough further bytes. */
  lemma Separates(p: Parameters, r: Bits, u: Bits, b: nat, n: nat)
    requires p.Valid() && p.reflectInput && CHAR_BIT <= p.width && |r| == p.Digits()
    requires DifferFrom(r, u, b) && b < p.width + CHAR_BIT * n && CHAR_BIT * n <= b
    ensures BitwiseBytes(p, ZeroBytes(n), r)[..p.width] != BitwiseBytes(p, ZeroBytes(n), u)[..p.width]
  {
    BytesMove(p, n, r, u, b, CHAR_BIT * n);
    LowDiffers(BitwiseBytes(p, ZeroBytes(n), r), BitwiseBytes(p, ZeroBytes(n), u), b - CHAR_BIT * n, p.width);
  }

  lemma EnoughBytes(b: nat, w: nat) returns (n: nat)
    requires CHAR_BIT <= w <= b
    ensures b < w + CHAR_BIT * n && CHAR_BIT * n <= b
  {
    n := (b - w) / CHAR_BIT + 1;
  }

  lemma LowDiffers(r: Bits, u: Bits, b: nat, w: nat)
    requires DifferFrom(r, u, b) && b < w <= |r|
    ensures r[..w] != u[..w]
  {
    assert r[..w][b] != u[..w][b];
  }

  /** What UndoFinalize leaves above the width. */
  function Above(p: Parameters, i: nat): bool
    requires p.Valid() && i < p.Digits()
  {
    !Turned(p) && p.finalXOR[i]
  }

  /** If the parameters do not fit, some remainder differs above the width from what is recovered. */
  lemma WrongAbove(p: Parameters) returns (d: seq<Byte>, i: nat)
    requires p.Valid() && CHAR_BIT <= p.width && !WidthFitting(p)
    ensures p.width <= i < p.Digits() && BitwiseBytes(p, d, p.initialValue)[i] != Above(p, i)
  {
    if exists j :: p.width <= j < p.Digits() && p.initialValue[j] != Above(p, j) {
      d := [];
      i :| p.width <= i < p.Digits() && p.initialValue[i] != Above(p, i);
    } else {
      d := [0];
      i := TopAbove(p);
      OneByteHigh(p, p.initialValue, 0);
      assert [0 as Byte][..0] == [];
    }
  }

  /** The highest bit that is recovered although it does not fit. */
  lemma TopAbove(p: Parameters) returns (i: nat)
    requires p.Valid() && !WidthFitting(p)
    requires forall j :: p.width <= j < p.Digits() ==> p.initialValue[j] == Above(p, j)
    ensures p.width <= i < p.Digits() && Above(p, i) && forall j :: i < j < p.Digits() ==> !Above(p, j)
  {
    var low := SomeAbove(p);
    i := p.Digits() - 1;
    while !Above(p, i)
      invariant low <= i < p.Digits() && forall j :: i < j < p.Digits() ==> !Above(p, j)
      decreases i
    {
      i := i - 1;
    }
  }

  lemma SomeAbove(p: Parameters) returns (i: nat)
    requires p.Valid() && !WidthFitting(p)
    requires forall j :: p.width <= j < p.Digits() ==> p.initialValue[j] == Above(p, j)
    ensures p.width <= i < p.Digits() && Above(p, i)
  {
    if !FitsIn(p.initialValue, p.width) {
      i :| p.width <= i < p.Digits() && p.initialValue[i];
    } else {
      i :| p.width <= i < p.Digits() && p.finalXOR[i];
    }
  }

  lemma OneByteHigh(p: Parameters, r: Bits, x: Byte)
    requires p.Valid() && p.reflectInput && CHAR_BIT <= p.width && |r| == p.Digits()
    ensures forall i :: p.width <= i < |r| ==> BitwiseByte(p, r, x)[i] == (i + CHAR_BIT < |r| && r[i + CHAR_BIT])
  {
    ReflectedTwice(p.polynomial, p.width);
    ShiftsRightHigh(LoopPolynomial(p), CHAR_BIT, AddByte(p, r, x), p.width);
  }

  lemma FinalizeSeparates(p: Parameters, r: Bits, u: Bits)
    requires p.Valid() && |r| == |u| == p.Digits() && r[..p.width] != u[..p.width]
    ensures Finalize(p, r) != Finalize(p, u)
  {
    UndoInvertsIff(p, r);
    UndoInvertsIff(p, u);
  }

  lemma ReflectedRemainder(p: Parameters, data: seq<Byte>, r: Bits)
    requires p.Valid() && p.reflectInput && |r| == p.Digits()
    ensures Remainder(p, data, r) == BitwiseBytes(p, data, r)
  {
    assert Shl(r, 0) == r;
    var s := BitwiseBytes(p, data, r);
    assert Shr(s, 0) == s;
  }

  /** Two parts whose multi-part CRC is not the CRC of the whole. */
  lemma WrongParts(p: Parameters) returns (d1: seq<Byte>, d2: seq<Byte>)
    requires p.Valid() && CHAR_BIT <= p.width && !WidthFitting(p)
    ensures Continue(p, d2, Calculate(p, d1)) != Calculate(p, d1 + d2)
  {
    var i;
    d1, i := WrongAbove(p);
    var r := BitwiseBytes(p, d1, p.initialValue);
    ReflectedRemainder(p, d1, p.initialValue);
    var u := UndoFinalize(p, Finalize(p, r));
    UndoInvertsIff(p, r);
    UndoBits(p, r, i);
    var b := FirstDifference(r, u, p.width, i);
    var n := EnoughBytes(b, p.width);
    d2 := ZeroBytes(n);
    Separates(p, r, u, b, n);
    BytesAppend(p, d1, d2, p.initialValue);
    ReflectedRemainder(p, d2, u);
    ReflectedRemainder(p, d1 + d2, p.initialValue);
    FinalizeSeparates(p, BitwiseBytes(p, d2, u), BitwiseBytes(p, d2, r));
  }

  lemma PartsAgree(p: Parameters, d1: seq<Byte>, d2: seq<Byte>)
    requires p.Valid() && WidthFitting(p)
    ensures Continue(p, d2, Calculate(p, d1)) == Calculate(p, d1 + d2)
  {
    ResumeFromCrc(p, d1, d2);
    FinalizeLow(p, Remainder(p, d2, UndoFinalize(p, Calculate(p, d1))), Remainder(p, d1 + d2, p.initialValue));
  }

  /**
   * For a CRC of at least a byte the multi-part promise holds for all data exactly when the
   * parameters fit the width.
   */
  lemma MultiPartIff(p: Parameters)
    requires p.Valid() && CHAR_BIT <= p.width
    ensures (forall d1: seq<Byte>, d2: seq<Byte> :: Continue(p, d2, Calculate(p, d1)) == Calculate(p, d1 + d2))
       <==> WidthFitting(p)
  {
    if WidthFitting(p) {
      forall d1: seq<Byte>, d2: seq<Byte>
        ensures Continue(p, d2, Calculate(p, d1)) == Calculate(p, d1 + d2)
      {
        PartsAgree(p, d1, d2);
      }
    } else {
      var d1, d2 := WrongParts(p);
    }
  }

  lemma TableCrcAgrees(p: Parameters, table: seq<Bits>, data: seq<Byte>, r: Bits)
    requires IsTable(p, table) && |r| == p.Digits()
    ensures forall e :: e in table ==> |e| == p.Digits()
    ensures Finalize(p, TableRemainder(p, table, data, r)) == Finalize(p, Remainder(p, data, r))
  {
    TableAgreesWithBitwise(p, table, data, r);
    FinalizeLow(p, TableRemainder(p, table, data, r), Remainder(p, data, r));
  }

  // ----- The loops of the source -----

  /** The branch for reflected input. */
  method RemainderRight(p: Parameters, data: seq<Byte>, start: Bits) returns (remainder: Bits)
    requires p.Valid() && p.reflectInput && |start| == p.Digits()
    ensures remainder == BitwiseBytes(p, data, start)
  {
    var polynomial := Reflect(p.polynomial, p.width);
    remainder := start;
    for n := 0 to |data|
      invariant remainder == BitwiseBytes(p, data[..n], start)
    {
      assert data[..n + 1][..n] == data[..n];
      remainder := Xor(remainder, Extend(ToBits(data[n], CHAR_BIT), |remainder|));
      ghost var word := remainder;
      for i := 0 to CHAR_BIT
        invariant |remainder| == |word| && remainder == ShiftsRight(polynomial, i, word)
      {
        remainder := if remainder[0] then Xor(Shr(remainder, 1), polynomial) else Shr(remainder, 1);
      }
    }
    assert data[..|data|] == data;
  }

  /** The two branches that shift left; for CRCs shorter than a byte everything is lifted first. */
  method RemainderLeft(p: Parameters, data: seq<Byte>, start: Bits) returns (remainder: Bits)
    requires p.Valid() && !p.reflectInput && |start| == p.Digits()
    ensures remainder == BitwiseBytes(p, data, start)
  {
    var polynomial := Shl(p.polynomial, p.Lift());
    var top, shift := p.Span() - 1, p.Span() - CHAR_BIT;
    remainder := start;
    for n := 0 to |data|
      invariant remainder == BitwiseBytes(p, data[..n], start)
    {
      assert data[..n + 1][..n] == data[..n];
      remainder := Xor(remainder, Shl(Extend(ToBits(data[n], CHAR_BIT), |remainder|), shift));
      ghost var word := remainder;
      for i := 0 to CHAR_BIT
        invariant |remainder| == |word| && remainder == ShiftsLeft(polynomial, top, i, word)
      {
        remainder := if remainder[top] then Xor(Shl(remainder, 1), polynomial) else Shl(remainder, 1);
      }
    }
    assert data[..|data|] == data;
  }

  method CalculateRemainder(p: Parameters, data: seq<Byte>, start: Bits) returns (remainder: Bits)
    requires p.Valid() && |start| == p.Digits()
    ensures remainder == Remainder(p, data, start)
  {
    if p.reflectInput {
      assert Shl(start, 0) == start;
      remainder := RemainderRight(p, data, start);
      assert Shr(remainder, 0) == remainder;
    } else {
      remainder := RemainderLeft(p, data, Shl(start, p.Lift()));
      remainder := Shr(remainder, p.Lift());
    }
  }

  method MakeEntry(p: Parameters, byte: Byte) returns (crc: Bits)
    requires p.Valid()
    ensures crc == Entries(p)(byte)
  {
    crc := CalculateRemainder(p, [byte], Zeros(p.Digits()));
    crc := Mask(crc, p.width);
    if !p.reflectInput && p.width < CHAR_BIT {
      crc := Shl(crc, CHAR_BIT - p.width);
    } else {
      assert Shl(crc, 0) == crc;
    }
  }

  /** InitTable: one remainder for each byte, until the byte wraps back to 0. */
  method InitTable(p: Parameters) returns (table: array<Bits>)
    requires p.Valid()
    ensures fresh(table) && IsTable(p, table[..])
  {
    table := new Bits[256](_ => []);
    var byte: Byte := 0;
    ghost var n := 0;
    while true
      invariant n < 256 && byte == n && table.Length == 256 && Tabulates(Entries(p), table[..n])
      decreases 256 - n
    {
      StoreEntry(p, table, byte);
      n := n + 1;
      byte := (byte + 1) % 256;
      if byte == 0 {
        break;
      }
    }
    assert table[..n] == table[..];
  }

  method StoreEntry(p: Parameters, table: array<Bits>, byte: Byte)
    requires p.Valid() && table.Length == 256 && Tabulates(Entries(p), table[..byte])
    modifies table
    ensures Tabulates(Entries(p), table[..byte + 1])
  {
    var crc := MakeEntry(p, byte);
    ghost var done := table[..byte];
    table[byte] := crc;
    TabulateMore(Entries(p), done, crc);
    assert table[..byte + 1] == done + [crc];
  }

  lemma TabulateMore(entry: Byte -> Bits, table: seq<Bits>, next: Bits)
    requires |table| < 256 && Tabulates(entry, table) && next == entry(|table|)
    ensures Tabulates(entry, table + [next])
  {
  }

  /** SHIFT of the branch for CRCs of at least a byte; 0 in the other branches. */
  function IndexShift(p: Parameters): nat
    requires p.Valid()
  {
    if !p.reflectInput && p.width >= CHAR_BIT then p.width - CHAR_BIT else 0
  }

  /** Shifting the register down and adding the byte there is adding it at the top and cutting it out. */
  lemma IndexBits(r: Bits, word: Bits, shift: nat)
    requires |word| == |r| && shift + CHAR_BIT <= |r|
    ensures Xor(Shr(r, shift), word)[..CHAR_BIT] == Xor(r, Shl(word, shift))[shift..shift + CHAR_BIT]
  {
    var low, high := Xor(Shr(r, shift), word)[..CHAR_BIT], Xor(r, Shl(word, shift))[shift..shift + CHAR_BIT];
    forall i | 0 <= i < CHAR_BIT
      ensures low[i] == high[i]
    {
      assert Shr(r, shift)[i] == r[shift + i] && Shl(word, shift)[shift + i] == word[i];
    }
  }

  /** The index as the source computes it: (remainder >> SHIFT) ^ byte, cut to a byte. */
  method TableIndex(p: Parameters, r: Bits, x: Byte) returns (index: Byte)
    requires p.Valid() && |r| == p.Digits()
    ensures index == Index(p, r, x)
  {
    var word := Extend(ToBits(x, CHAR_BIT), |r|);
    var shifted := Xor(Shr(r, IndexShift(p)), word);
    index := ToByte(shifted[..CHAR_BIT]);
    IndexBits(r, word, IndexShift(p));
    assert Shl(word, 0) == word;
  }

  /** One byte through the table does what eight rounds of the bit loop do to the bits that count. */
  method TableRound(p: Parameters, table: array<Bits>, ghost entries: seq<Bits>, r: Bits, x: Byte) returns (s: Bits)
    requires IsTable(p, entries) && entries == table[..] && |r| == p.Digits()
    ensures forall e :: e in entries ==> |e| == |r|
    ensures s == TableByte(p, entries, r, x)
    ensures p.reflectInput ==> s == BitwiseByte(p, r, x)
    ensures !p.reflectInput ==> s[..p.Span()] == BitwiseByte(p, r, x)[..p.Span()]
  {
    TableSizes(p, entries);
    var index := TableIndex(p, r, x);
    var entry := table[index];
    assert entry == entries[index];
    if p.reflectInput {
      s := Xor(Shr(r, CHAR_BIT), entry);
      ReflectedByte(p, entries, r, x);
    } else {
      if p.width >= CHAR_BIT {
        s := Xor(Shl(r, CHAR_BIT), entry);
      } else {
        s := entry;
      }
      ForwardByteSame(p, entries, r, x);
    }
  }

  method CalculateRemainderByTable(p: Parameters, table: array<Bits>, ghost entries: seq<Bits>, data: seq<Byte>, start: Bits)
    returns (remainder: Bits)
    requires IsTable(p, entries) && entries == table[..] && |start| == p.Digits()
    ensures forall e :: e in entries ==> |e| == p.Digits()
    ensures remainder == TableRemainder(p, entries, data, start)
  {
    TableSizes(p, entries);
    remainder := TableLoop(p, table, entries, data, Shl(start, p.Lift()));
    remainder := Shr(remainder, p.Lift());
  }

  method TableLoop(p: Parameters, table: array<Bits>, ghost entries: seq<Bits>, data: seq<Byte>, lifted: Bits)
    returns (remainder: Bits)
    requires IsTable(p, entries) && entries == table[..] && |lifted| == p.Digits()
    ensures forall e :: e in entries ==> |e| == |lifted|
    ensures remainder == TableBytes(p, entries, data, lifted)
  {
    TableSizes(p, entries);
    remainder := lifted;
    for n := 0 to |data|
      invariant remainder == TableBytes(p, entries, data[..n], lifted)
    {
      remainder := TableRound(p, table, entries, remainder, data[n]);
      TableOneMore(p, entries, data, n, lifted);
    }
    assert data[..|data|] == data;
  }

  lemma TableOneMore(p: Parameters, table: seq<Bits>, data: seq<Byte>, n: nat, r: Bits)
    requires p.Valid() && |r| == p.Digits() && |table| == 256 && (forall e :: e in table ==> |e| == |r|) && n < |data|
    ensures TableBytes(p, table, data[..n + 1], r) == TableByte(p, table, TableBytes(p, table, data[..n], r), data[n])
  {
    assert data[..n + 1][..n] == data[..n];
  }
}
