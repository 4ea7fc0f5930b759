/**
 * MemoryManager1::allocate of core/Utilities/JITLLVM.cpp: a bump allocator for one 256 MiB section
 * whose memory is committed on demand, in 2 MiB pages except that the first page is committed in
 * quarters of 512 KiB. The module proves exactly when a granted block is sound.
 */
module SectionAllocator {
  import opened Alignment

  /** c_max_size, c_page_size and page_quarter. */
  const MAX: U64 := 0x1000_0000
  const PAGE: U64 := 0x20_0000
  const QUARTER: U64 := 0x8_0000

  /** x - 1 in 64-bit arithmetic: 0 wraps to the largest value, which lies in no section. */
  function Prev(x: nat): nat {
    if x == 0 then TWO64 - 1 else x - 1
  }

  function Min(x: int, y: int): int {
    if x < y then x else y
  }

  // ----- Committing memory, counted in quarter pages -----

  predicate InRange(q: nat, lo: nat, hi: nat) {
    lo <= q * QUARTER && q * QUARTER < hi
  }

  /** The quarters a commit of the offsets from lo up to hi, multiples of QUARTER, makes usable. */
  function Quarters(lo: nat, hi: nat): set<nat> {
    set q: nat | q < hi && InRange(q, lo, hi)
  }

  /** The quarter-page rule for the first page applies. */
  predicate FirstStage(oldp: U64, align: U64, newp: U64) {
    oldp < PAGE && align < QUARTER && Prev(Min(newp, PAGE)) / QUARTER != Prev(oldp) / QUARTER
  }

  predicate SecondStage(oldp: U64, newp: U64) {
    Prev(newp) / PAGE != Prev(oldp) / PAGE
  }

  /** psize: the bytes from the next unit boundary after oldp to the unit boundary after top. */
  function SpanSize(oldp: U64, top: U64, unit: U64): U64
    requires 0 < unit
  {
    Align((top - Align(oldp, unit)) % TWO64, unit)
  }

  /** The quarters one stage commits. */
  function Span(oldp: U64, top: U64, unit: U64): set<nat>
    requires 0 < unit
  {
    var at := Align(oldp, unit) % MAX;
    Quarters(at, at + SpanSize(oldp, top, unit))
  }

  /** From where the second stage goes on after the first one. */
  function AfterFirst(oldp: U64, align: U64, newp: U64): U64 {
    if FirstStage(oldp, align, newp)
    then (Align(oldp, QUARTER) + SpanSize(oldp, Min(newp, PAGE), QUARTER)) % TWO64
    else oldp
  }

  /** The memory that is committed after a call that moved the position from oldp to newp. */
  function CommittedAfter(committed: set<nat>, oldp: U64, align: U64, newp: U64): set<nat> {
    var one := if FirstStage(oldp, align, newp) then committed + Span(oldp, Min(newp, PAGE), QUARTER) else committed;
    var next := AfterFirst(oldp, align, newp);
    if SecondStage(next, newp) then one + Span(next, newp, PAGE) else one
  }

  // ----- What the commits achieve -----

  /** Every quarter that meets the addresses from lo up to hi is committed. */
  ghost predicate Covered(committed: set<nat>, lo: nat, hi: nat) {
    forall q: nat :: lo < (q + 1) * QUARTER && q * QUARTER < hi ==> q in committed
  }

  /** The unit in which the memory just below pos was committed. */
  function UnitAt(pos: nat): nat {
    if pos <= PAGE then QUARTER else PAGE
  }

  function RoundUp(x: nat, unit: nat): nat
    requires unit == QUARTER || unit == PAGE
  {
    (x + unit - 1) / unit * unit
  }

  /** Memory from pos up to the next unit boundary is already committed: later calls rely on it. */
  ghost predicate Prepared(committed: set<nat>, pos: nat) {
    Covered(committed, pos, RoundUp(pos, UnitAt(pos)))
  }

  /** From here on a call commits memory itself; what lies below must have been committed before. */
  function Boundary(pos: nat, align: nat): nat {
    if pos < PAGE && align < QUARTER then RoundUp(pos, QUARTER) else RoundUp(pos, PAGE)
  }

  /**
   * What is committed of the first page while no commit fails. If the first block had an alignment
   * of at least a quarter page, all of it; otherwise nothing from the next quarter boundary on.
   */
  ghost predicate FirstPage(committed: set<nat>, pos: nat, whole: bool) {
    forall q: nat :: q < 4 && (whole || RoundUp(pos, QUARTER) <= q * QUARTER) ==> (q in committed <==> whole)
  }

  /**
   * The case the quarter-page rule forgets: a block with an alignment of at least a quarter page
   * that starts inside a partly used first page, when that page was not committed as a whole by the
   * first block. Nothing is committed for its part in that page.
   */
  predicate Hazard(pos: nat, align: nat, start: nat, whole: bool) {
    0 < pos < PAGE && QUARTER <= align && start < PAGE && !whole
  }

  /** Rounding with the two units is plain rounding up. */
  lemma AlignUnit(x: U64, unit: U64)
    requires (unit == QUARTER || unit == PAGE) && x <= 4 * MAX
    ensures Align(x, unit) == RoundUp(x, unit)
    ensures x <= RoundUp(x, unit) < x + unit && RoundUp(x, unit) % unit == 0
  {
    Unwrapped(x + (unit - 1));
    RoundingDown(x + (unit - 1), unit);
  }

  lemma CommittedQuarters(committed: set<nat>, lo: nat, hi: nat)
    requires lo % QUARTER == 0
    ensures Covered(committed + Quarters(lo, hi), lo, hi)
  {
    forall q: nat | lo < (q + 1) * QUARTER && q * QUARTER < hi ensures q in committed + Quarters(lo, hi) {
      assert InRange(q, lo, hi) && q < hi;
    }
  }

  lemma CoveredJoin(committed: set<nat>, lo: nat, mid: nat, hi: nat)
    requires Covered(committed, lo, mid) && Covered(committed, mid, hi)
    ensures Covered(committed, lo, hi)
  {
  }

  // ----- The two stages in closed form -----

  lemma NoQuarters(lo: nat, hi: nat)
    requires hi <= lo
    ensures Quarters(lo, hi) == {}
  {
  }

  lemma SpanSizeIs(oldp: U64, top: U64, unit: U64, pagea: U64)
    requires (unit == QUARTER || unit == PAGE) && pagea == RoundUp(oldp, unit) < top <= MAX
    ensures Align(oldp, unit) == pagea && pagea % unit == 0
    ensures SpanSize(oldp, top, unit) == RoundUp(top, unit) - pagea
  {
    AlignUnit(oldp, unit);
    AlignUnit(top - pagea, unit);
    RoundUpShift(top, pagea, unit);
    Unwrapped(top - pagea);
  }

  lemma SpanIs(oldp: U64, top: U64, unit: U64, pagea: U64, end: U64)
    requires (unit == QUARTER || unit == PAGE) && pagea == RoundUp(oldp, unit) < top <= MAX
    requires end == RoundUp(top, unit)
    ensures Align(oldp, unit) == pagea && SpanSize(oldp, top, unit) == end - pagea
    ensures Span(oldp, top, unit) == Quarters(pagea, end)
  {
    SpanSizeIs(oldp, top, unit, pagea);
    SpanFrom(oldp, top, unit, pagea, end);
  }

  lemma SpanFrom(oldp: U64, top: U64, unit: U64, pagea: nat, end: nat)
    requires 0 < unit && Align(oldp, unit) == pagea < MAX && SpanSize(oldp, top, unit) == end - pagea
    ensures Span(oldp, top, unit) == Quarters(pagea, end)
  {
    WithinSection(pagea);
  }

  lemma WithinSection(x: nat)
    requires x < MAX
    ensures x % MAX == x
  {
  }

  lemma QuarterStage(oldp: U64, newp: U64)
    requires 0 < newp <= 2 * MAX && oldp <= RoundUp(newp, QUARTER)
    ensures Prev(newp) / QUARTER != Prev(oldp) / QUARTER <==> RoundUp(oldp, QUARTER) < newp
  {
  }

  lemma PageStage(oldp: U64, newp: U64)
    requires 0 < newp <= 2 * MAX && oldp <= RoundUp(newp, PAGE)
    ensures Prev(newp) / PAGE != Prev(oldp) / PAGE <==> RoundUp(oldp, PAGE) < newp
  {
  }

  /** The unit below newp differs from the unit below oldp just when a unit boundary lies between. */
  lemma StageMeaning(oldp: U64, newp: U64, unit: U64)
    requires (unit == QUARTER || unit == PAGE) && 0 < newp <= 2 * MAX && oldp <= RoundUp(newp, unit)
    ensures Prev(newp) / unit != Prev(oldp) / unit <==> RoundUp(oldp, unit) < newp
  {
    if unit == QUARTER {
      QuarterStage(oldp, newp);
    } else {
      PageStage(oldp, newp);
    }
  }

  lemma RoundUpShift(x: nat, base: nat, unit: nat)
    requires (unit == QUARTER || unit == PAGE) && base % unit == 0 && base <= x
    ensures base + RoundUp(x - base, unit) == RoundUp(x, unit)
  {
  }

  /** The first stage commits from the next quarter boundary to the end of the part in page 0. */
  lemma FirstStageIs(committed: set<nat>, oldp: U64, align: U64, newp: U64)
    requires oldp < PAGE && align < QUARTER && oldp < newp <= MAX
    ensures var one := if FirstStage(oldp, align, newp) then committed + Span(oldp, Min(newp, PAGE), QUARTER) else committed;
            one == committed + Quarters(RoundUp(oldp, QUARTER), RoundUp(Min(newp, PAGE), QUARTER))
  {
    var top := Min(newp, PAGE);
    StageMeaning(oldp, top, QUARTER);
    if RoundUp(oldp, QUARTER) < top {
      SpanIs(oldp, top, QUARTER, RoundUp(oldp, QUARTER), RoundUp(top, QUARTER));
    } else {
      NoQuarters(RoundUp(oldp, QUARTER), RoundUp(top, QUARTER));
    }
  }

  lemma QuarterAbove(x: nat)
    ensures RoundUp(x, QUARTER) % QUARTER == 0
    ensures x == 0 ==> RoundUp(x, QUARTER) == 0
    ensures 0 < x <= PAGE ==> 0 < RoundUp(x, QUARTER) <= PAGE
  {
  }

  lemma WrapFree(x: nat)
    requires x < TWO64
    ensures x % TWO64 == x
  {
  }

  lemma AfterFirstEnd(oldp: U64, align: U64, newp: U64, pagea: U64, end: U64)
    requires FirstStage(oldp, align, newp) && pagea <= end
    requires Align(oldp, QUARTER) == pagea && SpanSize(oldp, Min(newp, PAGE), QUARTER) == end - pagea
    ensures AfterFirst(oldp, align, newp) == end
  {
    WrapFree(end);
  }

  lemma AfterFirstIs(oldp: U64, align: U64, newp: U64, pagea: U64, end: U64)
    requires oldp < PAGE && align < QUARTER && oldp < newp <= MAX
    requires pagea == RoundUp(oldp, QUARTER) && end == RoundUp(Min(newp, PAGE), QUARTER)
    ensures 0 < AfterFirst(oldp, align, newp) <= PAGE
  {
    var top := Min(newp, PAGE);
    StageMeaning(oldp, top, QUARTER);
    QuarterAbove(oldp);
    QuarterAbove(top);
    if pagea < top {
      SpanIs(oldp, top, QUARTER, pagea, end);
      QuarterReaches(top);
      AfterFirstEnd(oldp, align, newp, pagea, end);
    }
  }

  lemma QuarterReaches(x: nat)
    ensures x <= RoundUp(x, QUARTER)
  {
  }

  /** The second stage commits from the next page boundary to the page boundary after newp. */
  lemma SecondStageIs(one: set<nat>, next: U64, newp: U64)
    requires 0 < newp <= MAX && next <= RoundUp(newp, PAGE)
    ensures (if SecondStage(next, newp) then one + Span(next, newp, PAGE) else one)
         == one + Quarters(RoundUp(next, PAGE), RoundUp(newp, PAGE))
  {
    StageMeaning(next, newp, PAGE);
    if RoundUp(next, PAGE) < newp {
      SpanIs(next, newp, PAGE, RoundUp(next, PAGE), RoundUp(newp, PAGE));
    } else {
      NoQuarters(RoundUp(next, PAGE), RoundUp(newp, PAGE));
    }
  }

  lemma PageAbove(x: nat)
    requires 0 < x
    ensures PAGE <= RoundUp(x, PAGE) && (x <= PAGE ==> RoundUp(x, PAGE) == PAGE)
  {
  }

  lemma SmallStages(committed: set<nat>, oldp: U64, align: U64, newp: U64, a: U64, b: U64)
    requires oldp < PAGE && align < QUARTER && oldp < newp <= MAX
    requires a == RoundUp(oldp, QUARTER) && b == RoundUp(Min(newp, PAGE), QUARTER)
    ensures CommittedAfter(committed, oldp, align, newp)
         == committed + Quarters(a, b) + Quarters(PAGE, RoundUp(newp, PAGE))
  {
    FirstStageIs(committed, oldp, align, newp);
    AfterFirstIs(oldp, align, newp, a, b);
    var next := AfterFirst(oldp, align, newp);
    PageAbove(next);
    PageAbove(newp);
    SecondStageIs(committed + Quarters(a, b), next, newp);
  }

  lemma SmallAlignment(committed: set<nat>, oldp: U64, align: U64, newp: U64)
    requires oldp < PAGE && align < QUARTER && oldp < newp <= MAX
    ensures CommittedAfter(committed, oldp, align, newp)
         == committed + Quarters(RoundUp(oldp, QUARTER), RoundUp(Min(newp, PAGE), QUARTER))
                      + Quarters(PAGE, RoundUp(newp, PAGE))
  {
    SmallStages(committed, oldp, align, newp, RoundUp(oldp, QUARTER), RoundUp(Min(newp, PAGE), QUARTER));
  }

  lemma NoFirstStage(committed: set<nat>, oldp: U64, align: U64, newp: U64)
    requires (PAGE <= oldp || QUARTER <= align) && oldp < newp <= MAX
    ensures CommittedAfter(committed, oldp, align, newp)
         == committed + Quarters(RoundUp(oldp, PAGE), RoundUp(newp, PAGE))
  {
    SecondStageIs(committed, oldp, newp);
  }

  // ----- Which blocks end up committed -----

  lemma CoveredByUnion(a: set<nat>, b: set<nat>, lo: nat, hi: nat)
    requires Covered(a, lo, hi)
    ensures Covered(a + b, lo, hi)
  {
  }

  lemma CoveredPart(committed: set<nat>, lo: nat, hi: nat, lo': nat, hi': nat)
    requires Covered(committed, lo, hi) && lo <= lo' && hi' <= hi
    ensures Covered(committed, lo', hi')
  {
  }

  /** The first page, in quarters. */
  lemma SmallIsCovered(committed: set<nat>, oldp: U64, align: U64, newp: U64)
    requires oldp < PAGE && align < QUARTER && oldp < newp <= MAX && Prepared(committed, oldp)
    ensures var after := CommittedAfter(committed, oldp, align, newp);
            Covered(after, oldp, newp) && Prepared(after, newp)
  {
    SmallAlignment(committed, oldp, align, newp);
    FirstPagePrepared(committed, oldp, newp);
  }

  lemma FirstPagePrepared(committed: set<nat>, oldp: nat, newp: nat)
    requires oldp < PAGE && oldp < newp && Prepared(committed, oldp)
    ensures var after := committed + Quarters(RoundUp(oldp, QUARTER), RoundUp(Min(newp, PAGE), QUARTER))
                                   + Quarters(PAGE, RoundUp(newp, PAGE));
            Covered(after, oldp, newp) && Prepared(after, newp)
  {
    QuarterAbove(oldp);
    FirstPageCovered(committed, oldp, newp, RoundUp(oldp, QUARTER), RoundUp(Min(newp, PAGE), QUARTER), RoundUp(newp, PAGE));
  }

  lemma FirstPageCovered(committed: set<nat>, oldp: nat, newp: nat, a: nat, b: nat, c: nat)
    requires oldp < newp && Covered(committed, oldp, a) && a % QUARTER == 0
    requires b == RoundUp(Min(newp, PAGE), QUARTER) && c == RoundUp(newp, PAGE)
    ensures var after := committed + Quarters(a, b) + Quarters(PAGE, c);
            Covered(after, oldp, newp) && Prepared(after, newp)
  {
    var one := committed + Quarters(a, b);
    var after := one + Quarters(PAGE, c);
    CoveredByUnion(committed, Quarters(a, b), oldp, a);
    CommittedQuarters(committed, a, b);
    CoveredJoin(one, oldp, a, b);
    CoveredByUnion(one, Quarters(PAGE, c), oldp, b);
    var end := RoundUp(newp, UnitAt(newp));
    if newp <= PAGE {
      Reaches(after, oldp, newp, b, end);
    } else {
      CommittedQuarters(one, PAGE, c);
      CoveredJoin(after, oldp, PAGE, c);
      Reaches(after, oldp, newp, c, end);
    }
  }

  lemma Reaches(after: set<nat>, oldp: nat, newp: nat, top: nat, end: nat)
    requires Covered(after, oldp, top) && oldp < newp && end == RoundUp(newp, UnitAt(newp)) == top
    ensures Covered(after, oldp, newp) && Prepared(after, newp)
  {
    CoveredPart(after, oldp, top, oldp, newp);
    CoveredPart(after, oldp, top, newp, top);
  }

  /** Whole pages: a fresh section, or one whose first page is used up. */
  lemma PagesAreCovered(committed: set<nat>, oldp: U64, align: U64, newp: U64)
    requires (oldp == 0 && QUARTER <= align) || PAGE <= oldp
    requires oldp < newp <= MAX && Prepared(committed, oldp)
    ensures var after := CommittedAfter(committed, oldp, align, newp);
            Covered(after, oldp, newp) && Prepared(after, newp)
  {
    NoFirstStage(committed, oldp, align, newp);
    PreparedPages(committed, oldp);
    WholePages(committed, oldp, RoundUp(oldp, PAGE), RoundUp(newp, PAGE), newp);
  }

  lemma PreparedPages(committed: set<nat>, oldp: nat)
    requires (oldp == 0 || PAGE <= oldp) && Prepared(committed, oldp)
    ensures Covered(committed, oldp, RoundUp(oldp, PAGE)) && RoundUp(oldp, PAGE) % QUARTER == 0
  {
  }

  lemma WholePages(committed: set<nat>, oldp: nat, a: nat, c: nat, newp: nat)
    requires Covered(committed, oldp, a) && a % QUARTER == 0 && oldp <= newp && c == RoundUp(newp, PAGE)
    ensures Covered(committed + Quarters(a, c), oldp, newp) && Prepared(committed + Quarters(a, c), newp)
  {
    var after := committed + Quarters(a, c);
    CoveredByUnion(committed, Quarters(a, c), oldp, a);
    CommittedQuarters(committed, a, c);
    CoveredJoin(after, oldp, a, c);
    CoveredPart(after, oldp, c, oldp, newp);
    CoveredPart(after, oldp, c, newp, RoundUp(newp, UnitAt(newp)));
  }

  lemma PreparedBeyond(committed: set<nat>, newp: nat)
    requires newp % QUARTER == 0 && Covered(committed, PAGE, RoundUp(newp, PAGE))
    ensures Prepared(committed, newp)
  {
    if newp > PAGE {
      CoveredPart(committed, PAGE, RoundUp(newp, PAGE), newp, RoundUp(newp, PAGE));
    } else {
      RoundedAlready(newp);
      EmptyRange(committed, newp, newp / QUARTER);
    }
  }

  lemma EmptyRange(committed: set<nat>, x: nat, k: nat)
    requires x == k * QUARTER
    ensures Covered(committed, x, x)
  {
  }

  lemma RoundedAlready(x: nat)
    requires x % QUARTER == 0
    ensures RoundUp(x, QUARTER) == x
  {
    var k := x / QUARTER;
    QuotientOf(k, QUARTER - 1, QUARTER);
  }

  /** Adding everything from a on leaves open only what lies below a. */
  lemma CoveredIff(committed: set<nat>, added: set<nat>, start: nat, end: nat, a: nat)
    requires a % QUARTER == 0
    requires forall q: nat :: a <= q * QUARTER && q * QUARTER < end ==> q in added
    requires forall q: nat :: q in added ==> a <= q * QUARTER
    ensures Covered(committed + added, start, end) <==> Covered(committed, start, Min(end, a))
  {
    if Covered(committed + added, start, end) {
      forall q: nat | start < (q + 1) * QUARTER && q * QUARTER < Min(end, a)
        ensures q in committed
      {
        assert q in committed + added;
      }
    }
  }

  lemma InQuarters(q: nat, lo: nat, hi: nat)
    ensures q in Quarters(lo, hi) <==> lo <= q * QUARTER && q * QUARTER < hi
  {
    assert InRange(q, lo, hi) <==> lo <= q * QUARTER && q * QUARTER < hi;
  }

  /** What the first stage and the second stage add together, from the quarter boundary a on. */
  lemma SmallAdds(a: nat, b: nat, c: nat, newp: nat, q: nat)
    requires b == RoundUp(Min(newp, PAGE), QUARTER) && c == RoundUp(newp, PAGE) && a <= PAGE
    ensures q in Quarters(a, b) + Quarters(PAGE, c) ==> a <= q * QUARTER
    ensures a <= q * QUARTER && q * QUARTER < newp ==> q in Quarters(a, b) + Quarters(PAGE, c)
  {
    InQuarters(q, a, b);
    InQuarters(q, PAGE, c);
  }

  lemma SmallIsCoveredIff(committed: set<nat>, oldp: U64, align: U64, newp: U64, start: nat, end: nat)
    requires oldp < PAGE && align < QUARTER && oldp <= start < end <= newp <= MAX
    ensures Covered(CommittedAfter(committed, oldp, align, newp), start, end)
       <==> Covered(committed, start, Min(end, RoundUp(oldp, QUARTER)))
  {
    var a, b, c := RoundUp(oldp, QUARTER), RoundUp(Min(newp, PAGE), QUARTER), RoundUp(newp, PAGE);
    SmallAlignment(committed, oldp, align, newp);
    QuarterAbove(oldp);
    var added := Quarters(a, b) + Quarters(PAGE, c);
    assert committed + Quarters(a, b) + Quarters(PAGE, c) == committed + added;
    forall q: nat
      ensures q in added ==> a <= q * QUARTER
      ensures a <= q * QUARTER && q * QUARTER < end ==> q in added
    {
      SmallAdds(a, b, c, newp, q);
    }
    CoveredIff(committed, added, start, end, a);
  }

  lemma PagesCoveredIff(committed: set<nat>, oldp: U64, align: U64, newp: U64, start: nat, end: nat)
    requires (PAGE <= oldp || QUARTER <= align) && oldp <= start < end <= newp <= MAX
    ensures Covered(CommittedAfter(committed, oldp, align, newp), start, end)
       <==> Covered(committed, start, Min(end, RoundUp(oldp, PAGE)))
  {
    var a, c := RoundUp(oldp, PAGE), RoundUp(newp, PAGE);
    NoFirstStage(committed, oldp, align, newp);
    PageMultiple(oldp);
    PageReaches(newp);
    forall q: nat
      ensures q in Quarters(a, c) ==> a <= q * QUARTER
      ensures a <= q * QUARTER && q * QUARTER < end ==> q in Quarters(a, c)
    {
      InQuarters(q, a, c);
    }
    CoveredIff(committed, Quarters(a, c), start, end, a);
  }

  lemma PageMultiple(x: nat)
    ensures RoundUp(x, PAGE) % QUARTER == 0
  {
    var k := (x + PAGE - 1) / PAGE;
    assert k * PAGE == (4 * k) * QUARTER;
    MultipleOf(4 * k, QUARTER);
  }

  lemma PageReaches(x: nat)
    ensures x <= RoundUp(x, PAGE)
  {
  }

  /**
   * The commits of one call, whatever was committed before, so also after a failed commit: the
   * block is committed afterwards exactly when its part below the boundary was committed before.
   */
  lemma GrantIsCoveredIff(committed: set<nat>, oldp: U64, align: U64, newp: U64, start: nat, end: nat)
    requires oldp <= start < end <= newp <= MAX
    ensures Covered(CommittedAfter(committed, oldp, align, newp), start, end)
       <==> Covered(committed, start, Min(end, Boundary(oldp, align)))
  {
    if oldp < PAGE && align < QUARTER {
      SmallIsCoveredIff(committed, oldp, align, newp, start, end);
    } else {
      PagesCoveredIff(committed, oldp, align, newp, start, end);
    }
  }

  // ----- What holds while no commit fails -----

  /** The next call again finds the memory up to its unit boundary committed. */
  lemma GrantPrepares(committed: set<nat>, oldp: U64, align: U64, newp: U64)
    requires Prepared(committed, oldp) && oldp < newp <= MAX
    requires QUARTER <= align ==> newp % QUARTER == 0
    ensures Prepared(CommittedAfter(committed, oldp, align, newp), newp)
  {
    if 0 < oldp < PAGE && QUARTER <= align {
      NoFirstStage(committed, oldp, align, newp);
      PageAbove(oldp);
      CommittedQuarters(committed, PAGE, RoundUp(newp, PAGE));
      PreparedBeyond(committed + Quarters(PAGE, RoundUp(newp, PAGE)), newp);
    } else if oldp < PAGE && align < QUARTER {
      SmallIsCovered(committed, oldp, align, newp);
    } else {
      PagesAreCovered(committed, oldp, align, newp);
    }
  }

  lemma SmallFirstPage(committed: set<nat>, oldp: U64, align: U64, newp: U64, whole: bool)
    requires oldp < PAGE && align < QUARTER && oldp < newp <= MAX && FirstPage(committed, oldp, whole)
    ensures FirstPage(CommittedAfter(committed, oldp, align, newp), newp, whole)
  {
    var a, b, c := RoundUp(oldp, QUARTER), RoundUp(Min(newp, PAGE), QUARTER), RoundUp(newp, PAGE);
    SmallAlignment(committed, oldp, align, newp);
    forall q: nat | q < 4 && (whole || RoundUp(newp, QUARTER) <= q * QUARTER)
      ensures q in committed + Quarters(a, b) + Quarters(PAGE, c) <==> whole
    {
      InQuarters(q, a, b);
      InQuarters(q, PAGE, c);
      Monotone(oldp, newp);
      Monotone(Min(newp, PAGE), newp);
    }
  }

  lemma Monotone(x: nat, y: nat)
    requires x <= y
    ensures RoundUp(x, QUARTER) <= RoundUp(y, QUARTER)
  {
  }

  lemma PagesFirstPage(committed: set<nat>, oldp: U64, align: U64, newp: U64, whole: bool)
    requires (PAGE <= oldp || QUARTER <= align) && oldp < newp <= MAX && FirstPage(committed, oldp, whole)
    ensures FirstPage(CommittedAfter(committed, oldp, align, newp), newp, whole || oldp == 0)
  {
    var a, c := RoundUp(oldp, PAGE), RoundUp(newp, PAGE);
    NoFirstStage(committed, oldp, align, newp);
    PageAbove(newp);
    assert oldp == 0 ==> a == 0;
    if 0 < oldp {
      PageAbove(oldp);
    }
    forall q: nat | q < 4 && (whole || oldp == 0 || RoundUp(newp, QUARTER) <= q * QUARTER)
      ensures q in committed + Quarters(a, c) <==> whole || oldp == 0
    {
      InQuarters(q, a, c);
      Monotone(oldp, newp);
    }
  }

  /** How the flag moves on: the first block decides. */
  function WholeAfter(pos: nat, align: nat, whole: bool): bool {
    if pos == 0 then QUARTER <= align else whole
  }

  lemma GrantFirstPage(committed: set<nat>, oldp: U64, align: U64, newp: U64, whole: bool)
    requires oldp < newp <= MAX && FirstPage(committed, oldp, whole) && (oldp == 0 ==> !whole)
    ensures FirstPage(CommittedAfter(committed, oldp, align, newp), newp, WholeAfter(oldp, align, whole))
  {
    if oldp < PAGE && align < QUARTER {
      SmallFirstPage(committed, oldp, align, newp, whole);
    } else {
      PagesFirstPage(committed, oldp, align, newp, whole);
    }
  }

  lemma QuarterOf(start: nat, q: nat)
    requires q * QUARTER <= start < (q + 1) * QUARTER && start < PAGE
    ensures q < 4
  {
  }

  /** With a large alignment in the first page, what is needed was committed before just if all was. */
  lemma LargeNeedsWhole(committed: set<nat>, pos: nat, start: nat, end: nat, whole: bool)
    requires pos <= start < end && start % QUARTER == 0 && start < PAGE && FirstPage(committed, pos, whole)
    ensures Covered(committed, start, Min(end, PAGE)) <==> whole
  {
    var q := start / QUARTER;
    assert start == q * QUARTER;
    QuarterOf(start, q);
    RoundedIsLeast(pos, q);
    assert q in committed <==> whole;
  }

  lemma RoundedIsLeast(x: nat, q: nat)
    requires x <= q * QUARTER
    ensures RoundUp(x, QUARTER) <= q * QUARTER
  {
  }

  /** While no commit fails, the exact condition needs no knowledge of the committed memory. */
  lemma BoundaryIff(committed: set<nat>, pos: nat, align: nat, start: nat, end: nat, whole: bool)
    requires Prepared(committed, pos) && FirstPage(committed, pos, whole) && pos <= start < end
    requires QUARTER <= align ==> start % QUARTER == 0
    ensures Covered(committed, start, Min(end, Boundary(pos, align))) <==> !Hazard(pos, align, start, whole)
  {
    if 0 < pos < PAGE && QUARTER <= align {
      PageAbove(pos);
      if start < PAGE {
        LargeNeedsWhole(committed, pos, start, end, whole);
      }
    } else {
      BoundaryPrepared(committed, pos, align);
      CoveredPart(committed, pos, Boundary(pos, align), start, Min(end, Boundary(pos, align)));
    }
  }

  lemma BoundaryPrepared(committed: set<nat>, pos: nat, align: nat)
    requires Prepared(committed, pos) && !(0 < pos < PAGE && QUARTER <= align)
    ensures Covered(committed, pos, Boundary(pos, align))
  {
    if pos == 0 {
      BoundaryOfZero(align);
      NothingToCover(committed);
    } else if pos >= PAGE {
      PreparedPages(committed, pos);
    }
  }

  lemma BoundaryOfZero(align: nat)
    ensures Boundary(0, align) == 0
  {
  }

  lemma NothingToCover(committed: set<nat>)
    ensures Covered(committed, 0, 0)
  {
  }

  // ----- The allocator -----

  datatype Block = Block(start: nat, size: nat) {
    function End(): nat { start + size }
  }

  datatype Outcome =
    | Unsupported
    | Exhausted
    | CommitFailed
    | Allocated(start: nat)

  predicate Disjoint(a: Block, b: Block) {
    a.End() <= b.start || b.End() <= a.start
  }

  /** Inside the section, apart from all blocks granted before, and backed by committed memory. */
  ghost predicate Sound(b: Block, earlier: seq<Block>, committed: set<nat>) {
    && b.End() <= MAX
    && (forall i :: 0 <= i < |earlier| ==> Disjoint(earlier[i], b))
    && Covered(committed, b.start, b.End())
  }

  /** The blocks lie one after another below pos. */
  ghost predicate Ordered(blocks: seq<Block>, pos: nat) {
    && (forall i :: 0 <= i < |blocks| ==> 0 < blocks[i].size && blocks[i].End() <= pos)
    && forall i, j :: 0 <= i < j < |blocks| ==> blocks[i].End() <= blocks[j].start
  }

  /** What holds in addition while no commit has failed. */
  ghost predicate Intact(committed: set<nat>, blocks: seq<Block>, pos: nat, whole: bool) {
    && Ordered(blocks, pos) && Prepared(committed, pos) && FirstPage(committed, pos, whole)
    && (blocks == [] <==> pos == 0) && (blocks != [] ==> blocks[0].start == 0) && (pos == 0 ==> !whole)
  }

  /** align as allocate uses it. */
  function Effective(align: U64): U64 {
    if align == 0 then 16 else align
  }

  lemma {:induction false} PowersDivide(a: nat, b: nat)
    requires PowerOfTwo(a) && PowerOfTwo(b) && b <= a
    ensures a % b == 0
  {
    if b > 1 {
      PowersDivide(a / 2, b / 2);
      var k := a / 2 / (b / 2);
      assert a / 2 == k * (b / 2);
      assert a == k * b;
      MultipleOf(k, b);
    }
  }

  lemma MultiplesApart(x: nat, y: nat, a: nat)
    requires 0 < a && x % a == 0 && y % a == 0 && x < y
    ensures x + a <= y
  {
    var i, j := x / a, y / a;
    assert x == i * a && y == j * a;
    assert (j - i) * a == y - x;
    Magnitude(j - i, a);
  }

  lemma MultipleOfMultiple(x: nat, a: nat, b: nat)
    requires 0 < a && 0 < b && x % a == 0 && a % b == 0
    ensures x % b == 0
  {
    var i, k := x / a, a / b;
    assert x == i * a && a == k * b;
    assert x == (i * k) * b;
    MultipleOf(i * k, b);
  }

  /** A size whose rounding wraps rounds to 0, which the size check refuses. */
  lemma WrappedSize(size: U64, a: U64)
    requires 0 < a <= PAGE && TWO64 < size + a
    ensures Align(size, a) == 0
  {
    var x := (size + (a - 1)) % TWO64;
    assert x == size + (a - 1) - TWO64 && x < a;
    RoundingDown(x, a);
    MultiplesApartZero(x / a * a, a);
  }

  lemma MultiplesApartZero(x: nat, a: nat)
    requires 0 < a && x % a == 0 && x < a
    ensures x == 0
  {
  }

  lemma SupportedSize(size: U64, a: U64)
    requires 0 < a <= PAGE && 0 < size <= Align(size, a)
    ensures Align(size, a) % a == 0 && Align(size, a) < size + a
  {
    if TWO64 < size + a {
      WrappedSize(size, a);
    }
    AlignSpec(size, a);
  }

  lemma StartInSection(pos: U64, a: U64, start: U64)
    requires pos <= MAX && PowerOfTwo(a) && a <= PAGE && start == Align(pos, a)
    ensures pos <= start <= MAX && start % a == 0 && MAX % a == 0
  {
    AlignSpec(pos, a);
    SectionIsPower();
    PowersDivide(MAX, a);
    if MAX < start {
      MultiplesApart(MAX, start, a);
    }
  }

  /** Where a supported request from a position inside the section comes to lie. */
  lemma Layout(pos: U64, size: U64, a: U64, start: U64, sizea: U64)
    requires pos <= MAX && PowerOfTwo(a) && a <= PAGE && 0 < size <= sizea <= MAX
    requires start == Align(pos, a) && sizea == Align(size, a)
    ensures pos <= start <= MAX && start % a == 0
    ensures start + sizea > MAX ==> start == MAX || MAX < start + size
    ensures QUARTER <= a ==> start % QUARTER == 0 && (start + sizea) % QUARTER == 0
  {
    SupportedSize(size, a);
    StartInSection(pos, a, start);
    LayoutEnd(start, size, sizea, a);
  }

  lemma SectionIsPower()
    ensures PowerOfTwo(MAX) && PowerOfTwo(QUARTER)
  {
    Pow2Eight(4);
    Pow2Eight(12);
    Pow2Eight(20);
    Pow2IsPower(28);
    Pow2Eight(3);
    Pow2Eight(11);
    Pow2IsPower(19);
  }

  lemma SumOfMultiples(x: nat, y: nat, a: nat)
    requires 0 < a && x % a == 0 && y % a == 0
    ensures (x + y) % a == 0
  {
    var i, k := x / a, y / a;
    assert x == i * a && y == k * a;
    assert x + y == (i + k) * a;
    MultipleOf(i + k, a);
  }

  lemma LayoutEnd(start: nat, size: nat, sizea: nat, a: nat)
    requires PowerOfTwo(a) && MAX % a == 0 && start % a == 0 && sizea % a == 0
    requires start <= MAX && size <= sizea < size + a
    ensures start + sizea > MAX ==> start == MAX || MAX < start + size
    ensures QUARTER <= a ==> start % QUARTER == 0 && (start + sizea) % QUARTER == 0
  {
    SumOfMultiples(start, sizea, a);
    if start + sizea > MAX {
      MultiplesApart(MAX, start + sizea, a);
    }
    if QUARTER <= a {
      LargeMultiples(start, start + sizea, a);
    }
  }

  lemma LargeMultiples(x: nat, y: nat, a: nat)
    requires PowerOfTwo(a) && QUARTER <= a && x % a == 0 && y % a == 0
    ensures x % QUARTER == 0 && y % QUARTER == 0
  {
    SectionIsPower();
    PowersDivide(a, QUARTER);
    MultipleOfMultiple(x, a, QUARTER);
    MultipleOfMultiple(y, a, QUARTER);
  }

  /**
   * One granted request that ends inside the section, whatever was committed before: the block is
   * sound exactly when its part below the boundary was committed before.
   */
  lemma GrantIsSoundIff(committed: set<nat>, blocks: seq<Block>, pos: U64, a: U64, olda: U64, size: U64, newp: U64)
    requires Ordered(blocks, pos) && 0 < size && pos <= olda && olda + size <= newp <= MAX
    ensures olda % MAX == olda
    ensures Sound(Block(olda, size), blocks, CommittedAfter(committed, pos, a, newp))
       <==> Covered(committed, olda, Min(olda + size, Boundary(pos, a)))
    ensures Ordered(blocks + [Block(olda, size)], newp)
  {
    GrantIsCoveredIff(committed, pos, a, newp, olda, olda + size);
  }

  /**
   * One granted request while no commit has failed: the block, taken modulo the section size as the
   * code does, is sound exactly when it ends inside the section and is not the hazard.
   */
  lemma IntactIsSoundIff(
    committed: set<nat>, blocks: seq<Block>, pos: U64, a: U64, olda: U64, size: U64, newp: U64, whole: bool)
    requires pos <= MAX && Intact(committed, blocks, pos, whole) && 0 < size
    requires pos <= olda <= MAX && olda + size <= newp <= 2 * MAX
    requires newp > MAX ==> olda == MAX || MAX < olda + size
    requires QUARTER <= a ==> olda % QUARTER == 0 && newp % QUARTER == 0
    requires pos == 0 ==> olda == 0
    ensures var b, after := Block(olda % MAX, size), CommittedAfter(committed, pos, a, newp);
            && (Sound(b, blocks, after) <==> newp <= MAX && !Hazard(pos, a, b.start, whole))
            && (newp <= MAX ==> Intact(after, blocks + [b], newp, WholeAfter(pos, a, whole)))
  {
    if newp <= MAX {
      GrantIsSoundIff(committed, blocks, pos, a, olda, size, newp);
      BoundaryIff(committed, pos, a, olda, olda + size, whole);
      GrantPrepares(committed, pos, a, newp);
      GrantFirstPage(committed, pos, a, newp, whole);
    } else {
      PastSection(blocks, pos, olda, size, CommittedAfter(committed, pos, a, newp));
    }
  }

  lemma StartAligned(olda: nat, start: nat, a: nat)
    requires 0 < a && olda <= MAX && olda % a == 0 && start == olda % MAX
    ensures start % a == 0
  {
    if olda < MAX {
      assert start == olda;
    } else {
      assert start == 0;
    }
  }

  lemma PastSection(blocks: seq<Block>, pos: nat, olda: nat, size: nat, after: set<nat>)
    requires 0 < size && pos <= olda <= MAX && (pos == 0 ==> olda == 0)
    requires blocks == [] ==> pos == 0
    requires blocks != [] ==> blocks[0].start == 0 && 0 < blocks[0].size
    requires olda == MAX || MAX < olda + size
    ensures !Sound(Block(olda % MAX, size), blocks, after)
  {
    if olda == MAX {
      assert !Disjoint(blocks[0], Block(0, size));
    }
  }

  /** The size and alignment check at the start of allocate. */
  predicate Supported(size: U64, a: U64)
    requires 0 < a
  {
    size != 0 && a <= PAGE && size <= Align(size, a) <= MAX
  }

  /** The position after a supported request. */
  function NewPosition(pos: U64, size: U64, a: U64): nat
    requires 0 < a
  {
    Align(pos, a) + Align(size, a)
  }

  /** The request would need a second section. */
  predicate Spent(pos: nat, newp: nat) {
    Prev(newp) / MAX != Prev(pos) / MAX && Prev(newp) / MAX > 1
  }

  /** Whether a call gets the memory it asks the system for. */
  predicate CommitOk(oldp: U64, align: U64, newp: U64, firstOk: bool, secondOk: bool) {
    && (FirstStage(oldp, align, newp) ==> firstOk)
    && (SecondStage(AfterFirst(oldp, align, newp), newp) ==> secondOk)
  }

  function CommittedNow(
    committed: set<nat>, oldp: U64, align: U64, newp: U64, firstOk: bool, secondOk: bool): set<nat>
  {
    if CommitOk(oldp, align, newp, firstOk, secondOk) then CommittedAfter(committed, oldp, align, newp)
    else if FirstStage(oldp, align, newp) && firstOk then committed + Span(oldp, Min(newp, PAGE), QUARTER)
    else committed
  }

  /** intact: no commit has failed; whole: the first block had an alignment of at least a quarter page. */
  class Section {
    var pos: U64
    var committed: set<nat>
    ghost var blocks: seq<Block>
    ghost var intact: bool
    ghost var whole: bool

    /** What every call keeps. Past the end of the section nothing is claimed any more. */
    ghost predicate Valid()
      reads this
    {
      && pos <= 2 * MAX
      && (pos <= MAX ==> Ordered(blocks, pos))
      && (pos <= MAX && intact ==> Intact(committed, blocks, pos, whole))
    }

    constructor ()
      ensures Valid() && pos == 0 && committed == {} && blocks == [] && intact && !whole
    {
      pos, committed, blocks, intact, whole := 0, {}, [], true, false;
    }

    /** The commits of one call; the flags say whether the system grants the first and the second. */
    method Commit(oldp: U64, align: U64, newp: U64, firstOk: bool, secondOk: bool) returns (ok: bool)
      requires oldp < newp <= 2 * MAX
      modifies this`committed
      ensures ok == CommitOk(oldp, align, newp, firstOk, secondOk)
      ensures committed == CommittedNow(old(committed), oldp, align, newp, firstOk, secondOk)
      ensures old(committed) <= committed
    {
      var from := oldp;
      if from < PAGE && align < QUARTER && Prev(Min(newp, PAGE)) / QUARTER != Prev(from) / QUARTER {
        ok, from := CommitSpan(from, Min(newp, PAGE), QUARTER, firstOk);
        if !ok {
          return;
        }
      }
      ok := true;
      if Prev(newp) / PAGE != Prev(from) / PAGE {
        ok, from := CommitSpan(from, newp, PAGE, secondOk);
      }
    }

    /** One stage: from the next unit boundary up to the boundary after top. */
    method CommitSpan(from: U64, top: U64, unit: U64, granted: bool) returns (ok: bool, next: U64)
      requires 0 < unit
      modifies this`committed
      ensures ok == granted
      ensures committed == if ok then old(committed) + Span(from, top, unit) else old(committed)
      ensures next == if ok then (Align(from, unit) + SpanSize(from, top, unit)) % TWO64 else from
    {
      var pagea := Align(from, unit);
      var psize := Align((top - pagea) % TWO64, unit);
      if !granted {
        return false, from;
      }
      committed := committed + Quarters(pagea % MAX, pagea % MAX + psize);
      return true, (pagea + psize) % TWO64;
    }

    /**
     * One call. A refused request changes nothing; a failed commit leaves the position advanced. A
     * granted block is aligned. If it ends inside the section it is sound exactly when its part
     * below the boundary was committed before, also after failed commits. While no commit has
     * failed that means exactly: it ends inside the section and the call is not the hazard, which
     * a caller can tell from the position and the first request.
     */
    method Allocate(size: U64, align: U64, firstOk: bool, secondOk: bool) returns (r: Outcome)
      requires Valid()
      requires align == 0 || PowerOfTwo(align)
      modifies this
      ensures Valid()
      ensures r.Unsupported? <==> !(0 < size <= MAX && Effective(align) <= PAGE)
      ensures !r.Unsupported? ==> (r.Exhausted? <==> 2 * MAX < NewPosition(old(pos), size, Effective(align)))
      ensures r.Unsupported? || r.Exhausted? ==> unchanged(this)
      ensures r.CommitFailed? || r.Allocated? ==>
                && pos == NewPosition(old(pos), size, Effective(align))
                && (r.Allocated? <==> CommitOk(old(pos), Effective(align), pos, firstOk, secondOk))
                && committed == CommittedNow(old(committed), old(pos), Effective(align), pos, firstOk, secondOk)
                && old(committed) <= committed
      ensures r.CommitFailed? ==> !intact && blocks == old(blocks)
      ensures r.Allocated? ==>
                && r.start == Align(old(pos), Effective(align)) % MAX
                && blocks == old(blocks) + [Block(r.start, size)]
                && intact == old(intact) && whole == WholeAfter(old(pos), Effective(align), old(whole))
                && (old(pos) <= MAX ==> r.start % Effective(align) == 0)
                && (pos <= MAX ==>
                      (Sound(Block(r.start, size), old(blocks), committed) <==>
                         Covered(old(committed), r.start, Min(r.start + size, Boundary(old(pos), Effective(align))))))
                && (old(pos) <= MAX && old(intact) ==>
                      (Sound(Block(r.start, size), old(blocks), committed) <==>
                         pos <= MAX && !Hazard(old(pos), Effective(align), r.start, old(whole))))
    {
      var a := if align == 0 then 16 else align;
      var sizea := Align(size, a);
      assert PowerOfTwo(16);
      SupportedIff(size, a);
      if size == 0 || a > PAGE || sizea > MAX || sizea < size {
        return Unsupported;
      }
      Ahead(pos, size, a);
      SpentIff(pos, NewPosition(pos, size, a));
      r := Grant(size, a, firstOk, secondOk);
    }

    /** The rest of the call, for a supported request. */
    method Grant(size: U64, a: U64, firstOk: bool, secondOk: bool) returns (r: Outcome)
      requires Valid()
      requires PowerOfTwo(a) && Supported(size, a)
      modifies this
      ensures Valid() && !r.Unsupported?
      ensures r.Exhausted? <==> Spent(old(pos), NewPosition(old(pos), size, a))
      ensures r.Exhausted? ==> unchanged(this)
      ensures !r.Exhausted? ==>
                && pos == NewPosition(old(pos), size, a)
                && (r.Allocated? <==> CommitOk(old(pos), a, pos, firstOk, secondOk))
                && committed == CommittedNow(old(committed), old(pos), a, pos, firstOk, secondOk)
                && old(committed) <= committed
      ensures r.CommitFailed? ==> !intact && blocks == old(blocks)
      ensures r.Allocated? ==>
                && r.start == Align(old(pos), a) % MAX
                && blocks == old(blocks) + [Block(r.start, size)]
                && intact == old(intact) && whole == WholeAfter(old(pos), a, old(whole))
                && (old(pos) <= MAX ==> r.start % a == 0)
                && (pos <= MAX ==>
                      (Sound(Block(r.start, size), old(blocks), committed) <==>
                         Covered(old(committed), r.start, Min(r.start + size, Boundary(old(pos), a)))))
                && (old(pos) <= MAX && old(intact) ==>
                      (Sound(Block(r.start, size), old(blocks), committed) <==>
                         pos <= MAX && !Hazard(old(pos), a, r.start, old(whole))))
    {
      var oldp := pos;
      var olda, newp := Place(oldp, size, a);
      if Prev(newp) / MAX != Prev(oldp) / MAX && Prev(newp) / MAX > 1 {
        return Exhausted;
      }
      NotSpent(oldp, newp);
      pos := newp;
      var ok := Commit(oldp, a, newp, firstOk, secondOk);
      if !ok {
        intact := false;
        return CommitFailed;
      }
      var start := olda % MAX;
      r := Allocated(start);
      Account(old(committed), oldp, a, olda, size, newp);
    }

    /** The history after a successful call. */
    ghost method Account(before: set<nat>, oldp: U64, a: U64, olda: U64, size: U64, newp: U64)
      requires pos == newp && committed == CommittedAfter(before, oldp, a, newp)
      requires 0 < size && 0 < a && oldp <= olda && olda + size <= newp <= 2 * MAX && olda % a == 0
      requires oldp <= MAX ==>
                 && olda <= MAX && (newp > MAX ==> olda == MAX || MAX < olda + size)
                 && (QUARTER <= a ==> olda % QUARTER == 0 && newp % QUARTER == 0)
                 && (oldp == 0 ==> olda == 0)
                 && Ordered(blocks, oldp) && (intact ==> Intact(before, blocks, oldp, whole))
      modifies this`blocks, this`whole
      ensures Valid()
      ensures blocks == old(blocks) + [Block(olda % MAX, size)] && whole == WholeAfter(oldp, a, old(whole))
      ensures var b := Block(olda % MAX, size);
              && (oldp <= MAX ==> b.start % a == 0)
              && (newp <= MAX ==>
                    (Sound(b, old(blocks), committed) <==>
                       Covered(before, b.start, Min(b.End(), Boundary(oldp, a)))))
              && (oldp <= MAX && intact ==>
                    (Sound(b, old(blocks), committed) <==> newp <= MAX && !Hazard(oldp, a, b.start, old(whole))))
    {
      if oldp <= MAX {
        StartAligned(olda, olda % MAX, a);
        if intact {
          IntactIsSoundIff(before, blocks, oldp, a, olda, size, newp, whole);
        }
      }
      if newp <= MAX {
        GrantIsSoundIff(before, blocks, oldp, a, olda, size, newp);
      }
      blocks, whole := blocks + [Block(olda % MAX, size)], WholeAfter(oldp, a, whole);
    }
  }

  lemma NotSpent(oldp: nat, newp: nat)
    requires !Spent(oldp, newp) && oldp <= 2 * MAX && oldp < newp <= 4 * MAX
    ensures newp <= 2 * MAX
  {
  }

  /** Where a supported request comes to lie: aligned, at or after pos and ending at or before newp. */
  ghost predicate Placed(pos: nat, size: nat, a: nat, olda: nat, newp: nat) {
    && pos <= olda < pos + a && olda + size <= newp < olda + size + a && newp <= 3 * MAX + PAGE
    && 0 < a && olda % a == 0
    && (pos == 0 ==> olda == 0)
    && (pos <= MAX ==> olda <= MAX && newp <= 2 * MAX && (newp > MAX ==> olda == MAX || MAX < olda + size))
    && (pos <= MAX && QUARTER <= a ==> olda % QUARTER == 0 && newp % QUARTER == 0)
  }

  lemma PlaceStart(pos: U64, a: U64, olda: U64)
    requires pos <= 2 * MAX && 0 < a <= PAGE && olda == Align(pos, a)
    ensures pos <= olda < pos + a && olda % a == 0 && (pos == 0 ==> olda == 0)
  {
    AlignSpec(pos, a);
  }

  /** The first test, without rounding: any size up to the section and any alignment up to a page. */
  lemma SupportedIff(size: U64, a: U64)
    requires PowerOfTwo(a)
    ensures Supported(size, a) <==> 0 < size <= MAX && a <= PAGE
  {
    if a <= PAGE && size <= MAX {
      SectionIsPower();
      PowersDivide(MAX, a);
      AlignIsLeast(size, a, MAX);
      AlignSpec(size, a);
    } else if a <= PAGE {
      RoundingDown((size + (a - 1)) % TWO64, a);
      if size + a <= TWO64 {
        AlignSpec(size, a);
      }
    }
  }

  /** A supported request moves the position, but not far past the second section. */
  lemma Ahead(pos: U64, size: U64, a: U64)
    requires pos <= 2 * MAX && 0 < a <= PAGE && 0 < size <= MAX
    ensures 0 < NewPosition(pos, size, a) <= 4 * MAX
  {
    PlaceStart(pos, a, Align(pos, a));
    PlaceSize(size, a, Align(size, a));
  }

  /** The second test: the position would leave the second section. */
  lemma SpentIff(pos: nat, newp: nat)
    requires pos <= 2 * MAX && 0 < newp <= 4 * MAX
    ensures Spent(pos, newp) <==> 2 * MAX < newp
  {
  }

  lemma PlaceSpec(pos: U64, size: U64, a: U64, olda: U64, sizea: U64)
    requires pos <= 2 * MAX && PowerOfTwo(a) && a <= PAGE && 0 < size <= sizea <= MAX
    requires olda == Align(pos, a) && sizea == Align(size, a)
    ensures Placed(pos, size, a, olda, olda + sizea)
  {
    PlaceStart(pos, a, olda);
    PlaceSize(size, a, sizea);
    if pos <= MAX {
      Layout(pos, size, a, olda, sizea);
    }
  }

  lemma PlaceSize(size: U64, a: U64, sizea: U64)
    requires size <= MAX && 0 < a <= PAGE && sizea == Align(size, a)
    ensures size <= sizea < size + a
  {
    AlignSpec(size, a);
  }

  /** olda and newp of allocate, for a request that passed the size and alignment check. */
  method Place(pos: U64, size: U64, a: U64) returns (olda: U64, newp: U64)
    requires pos <= 2 * MAX && PowerOfTwo(a) && Supported(size, a)
    ensures olda == Align(pos, a) && newp == NewPosition(pos, size, a)
    ensures Placed(pos, size, a, olda, newp)
  {
    olda := Align(pos, a);
    var sizea := Align(size, a);
    PlaceSpec(pos, size, a, olda, sizea);
    newp := olda + sizea;
  }

  // ----- Two runs that end with a block nobody can use -----

  lemma NotCovered(committed: set<nat>, lo: nat, hi: nat, q: nat)
    requires lo < (q + 1) * QUARTER && q * QUARTER < hi && q !in committed
    ensures !Covered(committed, lo, hi)
  {
  }

  lemma AlignedUnit(x: U64, a: U64)
    requires 0 < x <= a <= PAGE
    ensures Align(x, a) == a && Align(0, a) == 0
  {
    AlignSpec(x, a);
    AlignSpec(0, a);
    if Align(x, a) < a {
      MultiplesApartZero(Align(x, a), a);
    } else if a < Align(x, a) {
      MultiplesApart(a, Align(x, a), a);
    }
  }

  /**
   * The hazard is real: a small block, then one with an alignment between a quarter and a whole
   * page, and the second one gets memory nobody committed.
   */
  method HazardRun(size: U64, a: U64, size': U64, a': U64) returns (s: Section, small: Outcome, large: Outcome)
    requires PowerOfTwo(a) && PowerOfTwo(a') && a < QUARTER <= a' < PAGE
    requires Supported(size, a) && Align(size, a) <= a' && Supported(size', a') && Align(size', a') <= MAX - PAGE
    ensures small == Allocated(0) && large == Allocated(a')
    ensures s.intact && !Sound(Block(a', size'), [Block(0, size)], s.committed)
  {
    s := new Section();
    AlignedUnit(a, a);
    NotSpentWithin(0, Align(size, a));
    small := s.Allocate(size, a, true, true);
    AlignedUnit(s.pos, a');
    WithinSection(a');
    NotSpentWithin(s.pos, a' + Align(size', a'));
    large := s.Allocate(size', a', true, true);
  }

  lemma NotSpentWithin(pos: nat, newp: nat)
    requires 0 < newp <= MAX
    ensures !Spent(pos, newp)
  {
  }

  lemma FirstQuarter(s: U64, a: U64)
    requires 0 < s <= QUARTER && a < QUARTER
    ensures FirstStage(0, a, s)
  {
    assert Prev(s) / QUARTER == 0;
  }

  /** A second small block in the first quarter makes no commit of its own. */
  lemma SecondInQuarter(committed: set<nat>, s: U64, t: U64, a: U64)
    requires 0 < s < t <= QUARTER && a < QUARTER
    ensures CommittedAfter(committed, s, a, t) == committed
    ensures Boundary(s, a) == QUARTER
  {
    SmallAlignment(committed, s, a, t);
    QuarterTop(s);
    QuarterTop(t);
    PageAbove(t);
    NoQuarters(QUARTER, QUARTER);
    NoQuarters(PAGE, PAGE);
  }

  lemma QuarterTop(x: nat)
    requires 0 < x <= QUARTER
    ensures RoundUp(x, QUARTER) == QUARTER
  {
  }

  /**
   * A failed commit leaves the position advanced: when the very first commit fails, a second small
   * block in the same quarter commits nothing and is granted without memory behind it.
   */
  method FailedCommitRun(size: U64, a: U64) returns (s: Section, first: Outcome, second: Outcome)
    requires PowerOfTwo(a) && a < QUARTER && Supported(size, a) && 2 * Align(size, a) <= QUARTER
    ensures first == CommitFailed && second == Allocated(Align(size, a))
    ensures s.committed == {} && !Sound(Block(Align(size, a), size), [], s.committed)
  {
    s, first := FailFirst(size, a);
    SecondRequest(size, a, s.pos);
    second := s.Allocate(size, a, true, true);
    assert s.committed == {};
  }

  /** The first request of a section, whose commit fails. */
  method FailFirst(size: U64, a: U64) returns (s: Section, r: Outcome)
    requires PowerOfTwo(a) && a < QUARTER && Supported(size, a) && 2 * Align(size, a) <= QUARTER
    ensures fresh(s) && s.Valid() && r == CommitFailed
    ensures s.pos == Align(size, a) && s.committed == {} && s.blocks == []
  {
    FirstRequest(size, a, Align(size, a));
    s := new Section();
    r := s.Allocate(size, a, false, true);
  }

  lemma FirstRequest(size: U64, a: U64, step: U64)
    requires 0 < a < QUARTER && Supported(size, a) && step == Align(size, a) <= QUARTER
    ensures Align(0, a) == 0 && !Spent(0, step) && FirstStage(0, a, step)
  {
    AlignedUnit(a, a);
    NotSpentWithin(0, step);
    FirstQuarter(step, a);
  }

  lemma SecondRequest(size: U64, a: U64, step: U64)
    requires 0 < a < QUARTER && Supported(size, a) && step == Align(size, a) && 2 * step <= QUARTER
    ensures Align(step, a) == step && step % MAX == step && !Spent(step, 2 * step)
    ensures NewPosition(step, size, a) == 2 * step && Effective(a) == a
    ensures CommittedAfter({}, step, a, 2 * step) == {} && Boundary(step, a) == QUARTER
    ensures !Covered({}, step, Min(step + size, QUARTER))
  {
    SupportedSize(size, a);
    AlignSpec(step, a);
    NotSpentWithin(step, 2 * step);
    WithinSection(step);
    SecondInQuarter({}, step, 2 * step, a);
    NotCovered({}, step, Min(step + size, QUARTER), 0);
  }
}
