/**
 * address_range and address_range_vector of core/Utilities/address_range.h: a vector of inclusive
 * ranges, some of them invalid and free for reuse, that stands for a set of addresses. The module
 * proves what merge and exclude do to that set, and exactly where address wrap-around spoils it.
 */
module AddressRanges {

  /** Both ends inclusive. The addresses are 0 to max, the largest value of the unsigned type. */
  datatype Range = Range(start: nat, end: nat) {
    predicate IsValid() {
      start <= end
    }

    predicate Has(x: nat) {
      start <= x <= end
    }

    predicate Overlaps(other: Range) {
      start <= other.end && other.start <= end
    }

    /** valid, and other is valid: the smallest range around both. */
    function MinMax(other: Range): Range {
      Range(if start <= other.start then start else other.start, if end <= other.end then other.end else end)
    }
  }

  function Invalid(max: nat): Range {
    Range(max, 0)
  }

  /** end + 1 and start - 1 in the unsigned type. */
  function NextAddress(max: nat, r: Range): nat {
    if r.end == max then 0 else r.end + 1
  }

  function PrevAddress(max: nat, r: Range): nat {
    if r.start == 0 then max else r.start - 1
  }

  predicate Touches(max: nat, a: Range, b: Range) {
    a.Overlaps(b) || b.start == NextAddress(max, a) || b.end == PrevAddress(max, a)
  }

  /** Overlapping or side by side, without wrap-around. */
  predicate Meets(a: Range, b: Range) {
    a.start <= b.end + 1 && b.start <= a.end + 1
  }

  ghost predicate Fits(max: nat, data: seq<Range>) {
    forall i :: 0 <= i < |data| ==> data[i].start <= max && data[i].end <= max
  }

  /** The set of addresses a vector stands for. */
  ghost predicate Covers(data: seq<Range>, x: nat) {
    exists i :: 0 <= i < |data| && data[i].Has(x)
  }

  /** What check_consistency tests. */
  ghost predicate Consistent(max: nat, data: seq<Range>) {
    forall i, j :: 0 <= i < j < |data| && data[i].IsValid() && data[j].IsValid() ==> !Touches(max, data[i], data[j])
  }

  // ----- Touching, point by point -----

  /** Equal or next to each other on the circle of addresses 0 to max. */
  predicate Adjacent(max: nat, x: nat, y: nat) {
    x == y || x + 1 == y || y + 1 == x || (x == max && y == 0) || (x == 0 && y == max)
  }

  lemma TouchesIffAdjacent(max: nat, a: Range, b: Range)
    requires a.IsValid() && b.IsValid() && a.end <= max && b.end <= max
    ensures Touches(max, a, b) <==> exists x, y :: a.Has(x) && b.Has(y) && Adjacent(max, x, y)
    ensures Touches(max, a, b) <==> Touches(max, b, a)
  {
    if a.Overlaps(b) {
      var x := if a.start <= b.start then b.start else a.start;
      assert a.Has(x) && b.Has(x) && Adjacent(max, x, x);
    } else if b.start == NextAddress(max, a) {
      assert a.Has(a.end) && b.Has(b.start) && Adjacent(max, a.end, b.start);
    } else if b.end == PrevAddress(max, a) {
      assert a.Has(a.start) && b.Has(b.end) && Adjacent(max, a.start, b.end);
    }
  }

  /** A part of a range touches nothing the whole range does not touch. */
  lemma PartTouchesLess(max: nat, part: Range, whole: Range, other: Range)
    requires part.IsValid() && other.IsValid() && whole.end <= max && other.end <= max
    requires whole.start <= part.start && part.end <= whole.end
    requires !Touches(max, whole, other) || !Touches(max, other, whole)
    ensures !Touches(max, part, other) && !Touches(max, other, part)
  {
    TouchesIffAdjacent(max, whole, other);
    TouchesIffAdjacent(max, part, other);
    if Touches(max, part, other) {
      var x, y :| part.Has(x) && other.Has(y) && Adjacent(max, x, y);
      assert whole.Has(x);
      assert false;
    }
  }

  // ----- merge: what the loop leaves behind -----

  /** The ranges among the first n that merge joins with r. */
  ghost predicate Joined(max: nat, was: seq<Range>, r: Range, i: nat)
    requires i < |was|
  {
    was[i].IsValid() && Touches(max, was[i], r)
  }

  /**
   * After n entries: the entry at found has grown to the smallest range around r and all joined
   * entries so far; the other joined entries are invalid; everything else is as it was.
   */
  ghost predicate MergedUpTo(max: nat, was: seq<Range>, now: seq<Range>, r: Range, n: nat, found: nat) {
    && |now| == |was| && n <= |was| && found < n && Joined(max, was, r, found)
    && now[found].IsValid()
    && (forall i :: 0 <= i < |was| && i != found ==>
          now[i] == if i < n && Joined(max, was, r, i) then Invalid(max) else was[i])
    && now[found].start <= r.start && r.end <= now[found].end
    && (forall i :: 0 <= i < n && Joined(max, was, r, i) ==>
          now[found].start <= was[i].start && was[i].end <= now[found].end)
    && (now[found].start == r.start || exists i :: 0 <= i < n && Joined(max, was, r, i) && now[found].start == was[i].start)
    && (now[found].end == r.end || exists i :: 0 <= i < n && Joined(max, was, r, i) && now[found].end == was[i].end)
  }

  /** The same with a possibly missing first match: found is -1 as long as nothing was joined. */
  ghost predicate JoinedUpTo(max: nat, was: seq<Range>, now: seq<Range>, r: Range, n: nat, found: int) {
    && n <= |was| && -1 <= found
    && (found == -1 ==> now == was && forall i :: 0 <= i < n ==> !Joined(max, was, r, i))
    && (found != -1 ==> MergedUpTo(max, was, now, r, n, found))
  }

  /** Some entry is joined although only the wrap-around makes it touch r. */
  ghost predicate WrapsOnto(max: nat, was: seq<Range>, r: Range) {
    exists i :: 0 <= i < |was| && Joined(max, was, r, i) && !Meets(was[i], r)
  }

  lemma MergeFirst(max: nat, was: seq<Range>, r: Range, n: nat)
    requires n < |was| && r.IsValid() && Joined(max, was, r, n)
    requires forall i :: 0 <= i < n ==> !Joined(max, was, r, i)
    ensures MergedUpTo(max, was, was[n := was[n].MinMax(r)], r, n + 1, n)
  {
  }

  lemma MergeSkip(max: nat, was: seq<Range>, now: seq<Range>, r: Range, n: nat, found: nat)
    requires n < |was| && !Joined(max, was, r, n) && MergedUpTo(max, was, now, r, n, found)
    ensures MergedUpTo(max, was, now, r, n + 1, found)
  {
  }

  lemma MergeMore(max: nat, was: seq<Range>, now: seq<Range>, r: Range, n: nat, found: nat)
    requires n < |was| && Joined(max, was, r, n) && MergedUpTo(max, was, now, r, n, found)
    ensures now[n] == was[n]
    ensures MergedUpTo(max, was, now[found := now[found].MinMax(now[n])][n := Invalid(max)], r, n + 1, found)
  {
    var after := now[found := now[found].MinMax(now[n])][n := Invalid(max)];
    assert Joined(max, was, r, n);
    assert after[found].start == now[found].start || after[found].start == was[n].start;
    assert after[found].end == now[found].end || after[found].end == was[n].end;
  }

  /** Without a wrap-around the grown entry is the union of r and the joined entries. */
  lemma GrownIsUnion(max: nat, was: seq<Range>, now: seq<Range>, r: Range, found: nat, x: nat)
    requires r.IsValid() && MergedUpTo(max, was, now, r, |was|, found) && !WrapsOnto(max, was, r)
    ensures now[found].Has(x) <==> r.Has(x) || exists i :: 0 <= i < |was| && Joined(max, was, r, i) && was[i].Has(x)
  {
    if now[found].Has(x) && !r.Has(x) {
      if x < r.start {
        var i :| 0 <= i < |was| && Joined(max, was, r, i) && now[found].start == was[i].start;
        assert Meets(was[i], r);
        assert was[i].Has(x);
      } else {
        var i :| 0 <= i < |was| && Joined(max, was, r, i) && now[found].end == was[i].end;
        assert Meets(was[i], r);
        assert was[i].Has(x);
      }
    }
  }

  lemma MergedCovers(max: nat, was: seq<Range>, now: seq<Range>, r: Range, found: nat, x: nat)
    requires 0 < max && r.IsValid() && MergedUpTo(max, was, now, r, |was|, found) && !WrapsOnto(max, was, r)
    ensures Covers(now, x) <==> Covers(was, x) || r.Has(x)
  {
    GrownIsUnion(max, was, now, r, found, x);
    if Covers(now, x) {
      var i :| 0 <= i < |now| && now[i].Has(x);
      assert i != found ==> was[i].Has(x);
    }
    if Covers(was, x) {
      var i :| 0 <= i < |was| && was[i].Has(x);
      assert Joined(max, was, r, i) ==> now[found].Has(x);
      assert !Joined(max, was, r, i) && i != found ==> now[i].Has(x);
    }
    assert now[found].Has(x) ==> Covers(now, x);
  }

  /** Between two ranges that touch only around the wrap there is an address next to the first. */
  lemma GapBetween(max: nat, a: Range, b: Range) returns (x: nat)
    requires a.IsValid() && b.IsValid() && a.end <= max && b.end <= max
    requires Touches(max, a, b) && !Meets(a, b)
    ensures !a.Has(x) && !b.Has(x) && x <= max && (Touches(max, a, Range(x, x)))
    ensures a.MinMax(b).Has(x)
  {
    x := if a.start == 0 then a.end + 1 else a.start - 1;
  }

  /** A joined entry that only wraps onto r makes the result cover an address nobody had. */
  lemma WrappedCoversTooMuch(max: nat, was: seq<Range>, now: seq<Range>, r: Range, found: nat)
    requires 0 < max && Fits(max, was) && Consistent(max, was) && r.IsValid() && r.end <= max
    requires MergedUpTo(max, was, now, r, |was|, found) && WrapsOnto(max, was, r)
    ensures exists x: nat :: Covers(now, x) && !Covers(was, x) && !r.Has(x)
  {
    var i :| 0 <= i < |was| && Joined(max, was, r, i) && !Meets(was[i], r);
    var x := GapBetween(max, was[i], r);
    assert now[found].Has(x);
    NeighbourIsFree(max, was, i, x);
  }

  /** Nothing in a consistent vector has an address that touches an entry from outside. */
  lemma NeighbourIsFree(max: nat, was: seq<Range>, i: nat, x: nat)
    requires Fits(max, was) && Consistent(max, was) && i < |was| && was[i].IsValid()
    requires x <= max && !was[i].Has(x) && Touches(max, was[i], Range(x, x))
    ensures !Covers(was, x)
  {
    forall j | 0 <= j < |was|
      ensures !was[j].Has(x)
    {
      if was[j].Has(x) && was[j].IsValid() {
        TouchesIffAdjacent(max, was[i], was[j]);
        TouchesIffAdjacent(max, was[i], Range(x, x));
      }
    }
  }

  lemma MergedFits(max: nat, was: seq<Range>, now: seq<Range>, r: Range, found: nat)
    requires Fits(max, was) && r.IsValid() && r.end <= max && MergedUpTo(max, was, now, r, |was|, found)
    ensures Fits(max, now)
  {
  }

  lemma MergedConsistent(max: nat, was: seq<Range>, now: seq<Range>, r: Range, found: nat)
    requires 0 < max && Fits(max, was) && Consistent(max, was) && r.IsValid() && r.end <= max
    requires MergedUpTo(max, was, now, r, |was|, found) && !WrapsOnto(max, was, r)
    ensures Fits(max, now) && Consistent(max, now)
  {
    MergedFits(max, was, now, r, found);
    forall i, j | 0 <= i < j < |now| && now[i].IsValid() && now[j].IsValid()
      ensures !Touches(max, now[i], now[j])
    {
      if i == found {
        GrownApart(max, was, now, r, found, j);
      } else if j == found {
        GrownApart(max, was, now, r, found, i);
      } else {
        assert now[i] == was[i] && now[j] == was[j];
      }
    }
  }

  lemma GrownNotAdjacent(max: nat, was: seq<Range>, now: seq<Range>, r: Range, found: nat, j: nat, x: nat, y: nat)
    requires 0 < max && Fits(max, was) && Consistent(max, was) && r.IsValid() && r.end <= max
    requires MergedUpTo(max, was, now, r, |was|, found) && !WrapsOnto(max, was, r)
    requires j < |was| && was[j].IsValid() && !Joined(max, was, r, j) && now[found].Has(x) && was[j].Has(y)
    ensures !Adjacent(max, x, y)
  {
    GrownIsUnion(max, was, now, r, found, x);
    if r.Has(x) {
      TouchesIffAdjacent(max, r, was[j]);
    } else {
      var i :| 0 <= i < |was| && Joined(max, was, r, i) && was[i].Has(x);
      TouchesIffAdjacent(max, was[i], was[j]);
    }
  }

  lemma GrownApart(max: nat, was: seq<Range>, now: seq<Range>, r: Range, found: nat, j: nat)
    requires 0 < max && Fits(max, was) && Consistent(max, was) && r.IsValid() && r.end <= max
    requires MergedUpTo(max, was, now, r, |was|, found) && !WrapsOnto(max, was, r)
    requires j < |now| && j != found && now[j].IsValid()
    ensures !Touches(max, now[found], now[j]) && !Touches(max, now[j], now[found])
  {
    assert now[j] == was[j] && !Joined(max, was, r, j);
    MergedFits(max, was, now, r, found);
    TouchesIffAdjacent(max, now[found], was[j]);
    forall x, y | now[found].Has(x) && was[j].Has(y)
      ensures !Adjacent(max, x, y)
    {
      GrownNotAdjacent(max, was, now, r, found, j, x, y);
    }
  }

  /** Every valid entry is joined. */
  ghost predicate AllJoined(max: nat, was: seq<Range>, r: Range) {
    forall j :: 0 <= j < |was| && was[j].IsValid() ==> Joined(max, was, r, j)
  }

  lemma WrappedReachesEnds(max: nat, a: Range, b: Range)
    requires a.IsValid() && b.IsValid() && a.end <= max && b.end <= max
    requires Touches(max, a, b) && !Meets(a, b)
    ensures a.MinMax(b) == Range(0, max)
  {
  }

  /** A join around the wrap grows to the range of all addresses. */
  lemma WrappedIsAll(max: nat, was: seq<Range>, now: seq<Range>, r: Range, found: nat)
    requires 0 < max && Fits(max, was) && r.IsValid() && r.end <= max
    requires MergedUpTo(max, was, now, r, |was|, found) && WrapsOnto(max, was, r)
    ensures now[found] == Range(0, max)
  {
    var i :| 0 <= i < |was| && Joined(max, was, r, i) && !Meets(was[i], r);
    WrappedReachesEnds(max, was[i], r);
  }

  /** So afterwards the vector is consistent just when no valid entry was left out of the join. */
  lemma WrappedConsistentIff(max: nat, was: seq<Range>, now: seq<Range>, r: Range, found: nat)
    requires 0 < max && Fits(max, was) && r.IsValid() && r.end <= max
    requires MergedUpTo(max, was, now, r, |was|, found) && now[found] == Range(0, max)
    ensures Fits(max, now)
    ensures Consistent(max, now) <==> AllJoined(max, was, r)
  {
    forall j | 0 <= j < |was|
      ensures j != found && now[j].IsValid() <==> was[j].IsValid() && !Joined(max, was, r, j)
    {
    }
    if !AllJoined(max, was, r) {
      var j :| 0 <= j < |was| && was[j].IsValid() && !Joined(max, was, r, j);
      assert now[j] == was[j] && Touches(max, now[found], now[j]) && Touches(max, now[j], now[found]);
      assert j < found || found < j;
    }
  }

  /** No entry touches r: it takes a free slot or a new one. */
  lemma AddedCovers(was: seq<Range>, now: seq<Range>, r: Range, slot: nat, x: nat)
    requires now == (if slot < |was| then was[slot := r] else was + [r])
    requires slot < |was| ==> !was[slot].IsValid()
    ensures Covers(now, x) <==> Covers(was, x) || r.Has(x)
  {
    var at := if slot < |was| then slot else |was|;
    assert now[at] == r;
    if Covers(was, x) {
      var i :| 0 <= i < |was| && was[i].Has(x);
      assert now[i].Has(x);
    }
    if Covers(now, x) {
      var i :| 0 <= i < |now| && now[i].Has(x);
      assert i != at ==> was[i].Has(x);
    }
  }

  lemma AddedConsistent(max: nat, was: seq<Range>, now: seq<Range>, r: Range, slot: nat)
    requires Fits(max, was) && Consistent(max, was) && r.IsValid() && r.end <= max
    requires forall i :: 0 <= i < |was| ==> !Joined(max, was, r, i)
    requires now == (if slot < |was| then was[slot := r] else was + [r])
    requires slot < |was| ==> !was[slot].IsValid()
    ensures Fits(max, now) && Consistent(max, now)
  {
    forall i | 0 <= i < |was| && was[i].IsValid() ensures !Touches(max, was[i], r) && !Touches(max, r, was[i]) {
      assert !Joined(max, was, r, i);
      TouchesIffAdjacent(max, was[i], r);
    }
  }

  /** What merge promises about the new contents. */
  ghost predicate MergeExact(max: nat, was: seq<Range>, now: seq<Range>, r: Range) {
    && Fits(max, now)
    && (CoversUnion(was, now, r) <==> !WrapsOnto(max, was, r))
    && (Consistent(max, now) <==> !WrapsOnto(max, was, r) || AllJoined(max, was, r))
  }

  ghost predicate CoversUnion(was: seq<Range>, now: seq<Range>, r: Range) {
    forall x: nat :: Covers(now, x) <==> Covers(was, x) || r.Has(x)
  }

  lemma MergeOutcome(max: nat, was: seq<Range>, now: seq<Range>, r: Range, found: nat)
    requires 0 < max && Fits(max, was) && Consistent(max, was) && r.IsValid() && r.end <= max
    requires MergedUpTo(max, was, now, r, |was|, found)
    ensures MergeExact(max, was, now, r)
  {
    if WrapsOnto(max, was, r) {
      WrappedCoversTooMuch(max, was, now, r, found);
      WrappedIsAll(max, was, now, r, found);
      WrappedConsistentIff(max, was, now, r, found);
    } else {
      forall x: nat ensures Covers(now, x) <==> Covers(was, x) || r.Has(x) {
        MergedCovers(max, was, now, r, found, x);
      }
      MergedConsistent(max, was, now, r, found);
    }
  }

  lemma AddOutcome(max: nat, was: seq<Range>, now: seq<Range>, r: Range, slot: nat)
    requires Fits(max, was) && Consistent(max, was) && r.IsValid() && r.end <= max
    requires forall i :: 0 <= i < |was| ==> !Joined(max, was, r, i)
    requires now == (if slot < |was| then was[slot := r] else was + [r])
    requires slot < |was| ==> !was[slot].IsValid()
    ensures MergeExact(max, was, now, r)
  {
    forall x: nat ensures Covers(now, x) <==> Covers(was, x) || r.Has(x) {
      AddedCovers(was, now, r, slot, x);
    }
    AddedConsistent(max, was, now, r, slot);
  }

  // ----- exclude: what the loop leaves behind -----

  ghost predicate Within(part: Range, whole: Range) {
    whole.start <= part.start && part.end <= whole.end
  }

  /** Index i of the vector belongs to the part the loop has finished after n entries. */
  predicate Finished(size: nat, n: nat, i: nat) {
    i < n || size <= i
  }

  /** Each finished entry is a part of an old entry with nothing of r; the others are untouched. */
  ghost predicate EntriesOk(max: nat, was: seq<Range>, now: seq<Range>, r: Range, n: nat) {
    && n <= |was| <= |now|
    && (forall i :: n <= i < |was| ==> now[i] == was[i])
    && forall i :: 0 <= i < |now| && Finished(|was|, n, i) && now[i].IsValid() ==>
         now[i].end <= max && !now[i].Overlaps(r) && PartOfOld(was, now[i], n)
  }

  ghost predicate PartOfOld(was: seq<Range>, part: Range, n: nat)
    requires n <= |was|
  {
    exists o :: 0 <= o < n && was[o].IsValid() && Within(part, was[o])
  }

  /** Nothing outside r got lost. */
  ghost predicate KeepsRest(was: seq<Range>, now: seq<Range>, r: Range) {
    forall x: nat :: Covers(was, x) && !r.Has(x) ==> Covers(now, x)
  }

  /** The one case that ends inconsistent: r cuts the middle out of the range of all addresses. */
  ghost predicate SplitsAll(max: nat, was: seq<Range>, r: Range, n: nat) {
    && 0 < r.start && r.end < max
    && exists i :: 0 <= i < n && i < |was| && was[i] == Range(0, max)
  }

  ghost predicate ExcludedUpTo(max: nat, was: seq<Range>, now: seq<Range>, r: Range, n: nat) {
    && EntriesOk(max, was, now, r, n)
    && KeepsRest(was, now, r)
    && Fits(max, now)
    && (Consistent(max, now) <==> !SplitsAll(max, was, r, n))
  }

  ghost predicate ExcludeExact(max: nat, was: seq<Range>, now: seq<Range>, r: Range) {
    && Fits(max, now)
    && (forall x: nat :: Covers(now, x) <==> Covers(was, x) && !r.Has(x))
    && (Consistent(max, now) <==> !SplitsAll(max, was, r, |was|))
  }

  lemma ExcludeOutcome(max: nat, was: seq<Range>, now: seq<Range>, r: Range)
    requires r.IsValid() && ExcludedUpTo(max, was, now, r, |was|)
    ensures ExcludeExact(max, was, now, r)
  {
    forall x: nat | Covers(now, x) ensures Covers(was, x) && !r.Has(x) {
      var i :| 0 <= i < |now| && now[i].Has(x);
      assert Finished(|was|, |was|, i);
      var o :| 0 <= o < |was| && was[o].IsValid() && Within(now[i], was[o]);
      assert was[o].Has(x);
    }
  }

  /** A valid entry not yet looked at touches no other entry of the vector. */
  lemma OthersApart(max: nat, was: seq<Range>, now: seq<Range>, r: Range, n: nat, j: nat)
    requires Fits(max, was) && Consistent(max, was)
    requires n < |was| && EntriesOk(max, was, now, r, n)
    requires j < |now| && j != n && was[n].IsValid() && now[j].IsValid()
    ensures !Touches(max, was[n], now[j]) && !Touches(max, now[j], was[n])
  {
    if Finished(|was|, n, j) {
      var o :| 0 <= o < n && was[o].IsValid() && Within(now[j], was[o]);
      assert !Touches(max, was[o], was[n]);
      PartTouchesLess(max, now[j], was[o], was[n]);
    } else {
      assert now[j] == was[j];
      TouchesIffAdjacent(max, was[n], was[j]);
    }
  }

  /** The entry at n becomes p, which holds what r leaves of it. */
  ghost predicate Leaves(was: Range, r: Range, p: Range) {
    && (p.IsValid() ==> was.IsValid() && Within(p, was) && !p.Overlaps(r))
    && forall x: nat :: was.Has(x) && !r.Has(x) ==> p.Has(x)
  }

  lemma ReplacedEntries(max: nat, was: seq<Range>, now: seq<Range>, r: Range, n: nat, p: Range)
    requires Fits(max, was) && n < |was| && EntriesOk(max, was, now, r, n)
    requires Leaves(was[n], r, p)
    ensures EntriesOk(max, was, now[n := p], r, n + 1)
  {
    var after := now[n := p];
    forall i | 0 <= i < |after| && Finished(|was|, n + 1, i) && after[i].IsValid()
      ensures after[i].end <= max && !after[i].Overlaps(r) && PartOfOld(was, after[i], n + 1)
    {
      if i == n {
        assert Within(p, was[n]);
      } else {
        assert Finished(|was|, n, i);
        var o :| 0 <= o < n && was[o].IsValid() && Within(now[i], was[o]);
      }
    }
  }

  lemma ReplacedKeepsRest(was: seq<Range>, now: seq<Range>, r: Range, n: nat, p: Range)
    requires n < |was| <= |now| && now[n] == was[n] && KeepsRest(was, now, r) && Leaves(was[n], r, p)
    ensures KeepsRest(was, now[n := p], r)
  {
    forall x: nat | Covers(was, x) && !r.Has(x) ensures Covers(now[n := p], x) {
      var i :| 0 <= i < |now| && now[i].Has(x);
      assert now[n := p][i].Has(x);
    }
  }

  lemma ReplacedConsistent(max: nat, was: seq<Range>, now: seq<Range>, r: Range, n: nat, p: Range)
    requires Fits(max, was) && Consistent(max, was) && n < |was|
    requires EntriesOk(max, was, now, r, n) && Fits(max, now) && Consistent(max, now)
    requires Leaves(was[n], r, p)
    ensures Consistent(max, now[n := p])
  {
    forall j | 0 <= j < |now| && j != n && now[j].IsValid() && p.IsValid()
      ensures !Touches(max, p, now[j]) && !Touches(max, now[j], p)
    {
      OthersApart(max, was, now, r, n, j);
      PartTouchesLess(max, p, was[n], now[j]);
    }
  }

  /** A valid entry is not preceded by the range of all addresses, so nothing was split yet. */
  lemma NothingSplitYet(max: nat, was: seq<Range>, r: Range, n: nat)
    requires Fits(max, was) && Consistent(max, was) && n < |was| && was[n].IsValid()
    ensures !SplitsAll(max, was, r, n)
  {
    if SplitsAll(max, was, r, n) {
      var i :| 0 <= i < n && i < |was| && was[i] == Range(0, max);
      assert was[i].Overlaps(was[n]);
      assert false;
    }
  }

  /** One step of the loop that leaves at most one part of the entry. */
  lemma ReplaceEntry(max: nat, was: seq<Range>, now: seq<Range>, r: Range, n: nat, p: Range)
    requires Fits(max, was) && Consistent(max, was) && r.IsValid() && p.start <= max && p.end <= max
    requires n < |was| && ExcludedUpTo(max, was, now, r, n)
    requires Leaves(was[n], r, p) && (was[n] == p || was[n].IsValid())
    ensures ExcludedUpTo(max, was, now[n := p], r, n + 1)
  {
    ReplacedEntries(max, was, now, r, n, p);
    ReplacedKeepsRest(was, now, r, n, p);
    if was[n].IsValid() {
      NothingSplitYet(max, was, r, n);
      ReplacedConsistent(max, was, now, r, n, p);
      assert was[n].Has(0) && !r.Has(0) ==> p.Has(0);
      assert was[n].Has(max) && !r.Has(max) ==> p.Has(max);
      assert !SplitsAll(max, was, r, n + 1);
    } else {
      assert now[n := p] == now;
      assert SplitsAll(max, was, r, n + 1) <==> SplitsAll(max, was, r, n) by {
        assert was[n] != Range(0, max);
      }
    }
  }

  lemma LeaveEntry(max: nat, was: seq<Range>, now: seq<Range>, r: Range, n: nat)
    requires Fits(max, was) && Consistent(max, was) && r.IsValid()
    requires n < |was| && ExcludedUpTo(max, was, now, r, n)
    requires !was[n].IsValid() || !was[n].Overlaps(r)
    ensures ExcludedUpTo(max, was, now, r, n + 1)
  {
    ReplaceEntry(max, was, now, r, n, was[n]);
    assert now[n := was[n]] == now;
  }

  /** r sits inside the entry at n: its head stays there and its tail goes to a free or new slot. */
  lemma SplitEntry(max: nat, was: seq<Range>, now: seq<Range>, r: Range, n: nat, slot: nat)
    requires Fits(max, was) && Consistent(max, was) && r.IsValid()
    requires n < |was| && ExcludedUpTo(max, was, now, r, n)
    requires was[n].IsValid() && was[n].start < r.start && r.end < was[n].end
    requires slot < n || slot == |now|
    requires slot < n ==> !now[slot].IsValid()
    ensures ExcludedUpTo(max, was, Split(now, r, n, slot, was[n]), r, n + 1)
  {
    NothingSplitYet(max, was, r, n);
    SplitEntries(max, was, now, r, n, slot);
    SplitKeepsRest(was, now, r, n, slot);
    SplitConsistent(max, was, now, r, n, slot);
    if was[n] == Range(0, max) {
      assert SplitsAll(max, was, r, n + 1);
    } else {
      assert !SplitsAll(max, was, r, n + 1);
    }
  }

  function Head(e: Range, r: Range): Range
    requires 0 < r.start
  {
    Range(e.start, r.start - 1)
  }

  function Tail(e: Range, r: Range): Range {
    Range(r.end + 1, e.end)
  }

  function Split(now: seq<Range>, r: Range, n: nat, slot: nat, e: Range): seq<Range>
    requires n < |now| && slot <= |now| && 0 < r.start
  {
    var headed := now[n := Head(e, r)];
    if slot < |now| then headed[slot := Tail(e, r)] else headed + [Tail(e, r)]
  }

  lemma SplitEntries(max: nat, was: seq<Range>, now: seq<Range>, r: Range, n: nat, slot: nat)
    requires Fits(max, was) && r.IsValid() && n < |was| && EntriesOk(max, was, now, r, n)
    requires was[n].IsValid() && was[n].start < r.start && r.end < was[n].end
    requires slot < n || slot == |now|
    ensures EntriesOk(max, was, Split(now, r, n, slot, was[n]), r, n + 1)
  {
    var after := Split(now, r, n, slot, was[n]);
    forall i | 0 <= i < |after| && Finished(|was|, n + 1, i) && after[i].IsValid()
      ensures after[i].end <= max && !after[i].Overlaps(r) && PartOfOld(was, after[i], n + 1)
    {
      if i == n || i == slot {
        assert Within(after[i], was[n]);
      } else {
        assert Finished(|was|, n, i) && after[i] == now[i];
        var o :| 0 <= o < n && was[o].IsValid() && Within(now[i], was[o]);
      }
    }
  }

  lemma SplitKeepsRest(was: seq<Range>, now: seq<Range>, r: Range, n: nat, slot: nat)
    requires n < |was| <= |now| && now[n] == was[n] && KeepsRest(was, now, r)
    requires was[n].start < r.start && r.end < was[n].end
    requires slot < n || slot == |now|
    requires slot < n ==> !now[slot].IsValid()
    ensures KeepsRest(was, Split(now, r, n, slot, was[n]), r)
  {
    var after := Split(now, r, n, slot, was[n]);
    forall x: nat | Covers(was, x) && !r.Has(x) ensures Covers(after, x) {
      var i :| 0 <= i < |now| && now[i].Has(x);
      if i == n {
        assert after[n].Has(x) || after[slot].Has(x);
      } else {
        assert after[i].Has(x);
      }
    }
  }

  lemma SplitConsistent(max: nat, was: seq<Range>, now: seq<Range>, r: Range, n: nat, slot: nat)
    requires Fits(max, was) && Consistent(max, was) && r.IsValid() && n < |was|
    requires EntriesOk(max, was, now, r, n) && Fits(max, now) && Consistent(max, now)
    requires was[n].IsValid() && was[n].start < r.start && r.end < was[n].end
    requires slot < n || slot == |now|
    ensures Consistent(max, Split(now, r, n, slot, was[n])) <==> was[n] != Range(0, max)
  {
    var after := Split(now, r, n, slot, was[n]);
    var head, tail := Head(was[n], r), Tail(was[n], r);
    assert Touches(max, head, tail) <==> was[n] == Range(0, max);
    TouchesIffAdjacent(max, head, tail);
    forall j | 0 <= j < |now| && j != n && now[j].IsValid()
      ensures !Touches(max, head, now[j]) && !Touches(max, now[j], head)
      ensures !Touches(max, tail, now[j]) && !Touches(max, now[j], tail)
    {
      OthersApart(max, was, now, r, n, j);
      PartTouchesLess(max, head, was[n], now[j]);
      PartTouchesLess(max, tail, was[n], now[j]);
    }
    if was[n] == Range(0, max) {
      assert after[n] == head && after[slot] == tail;
    }
  }

  /**
   * The exceptions occur, for 16-bit addresses: a merge around the wrap that stays consistent, one
   * that does not, and an exclusion that splits the range of all addresses.
   */
  lemma WrapExamples()
    ensures var was, r := [Range(0xfff0, 0xffff)], Range(0, 5);
            WrapsOnto(0xffff, was, r) && AllJoined(0xffff, was, r)
    ensures var was, r := [Range(0, 5), Range(7, 8)], Range(10, 0xffff);
            Consistent(0xffff, was) && WrapsOnto(0xffff, was, r) && !AllJoined(0xffff, was, r)
    ensures SplitsAll(0xffff, [Range(0, 0xffff)], Range(5, 6), 1)
  {
    assert Joined(0xffff, [Range(0xfff0, 0xffff)], Range(0, 5), 0);
    var was := [Range(0, 5), Range(7, 8)];
    assert Joined(0xffff, was, Range(10, 0xffff), 0);
    assert was[1].IsValid() && !Joined(0xffff, was, Range(10, 0xffff), 1);
    assert [Range(0, 0xffff)][0] == Range(0, 0xffff);
  }

  class RangeVector {
    const max: nat
    var data: seq<Range>

    constructor (max: nat)
      ensures this.max == max && data == []
    {
      this.max := max;
      data := [];
    }

    method CheckConsistency() returns (ok: bool)
      ensures ok <==> Consistent(max, data)
    {
      for i := 0 to |data|
        invariant forall k, j :: 0 <= k < i && k < j < |data| && data[k].IsValid() && data[j].IsValid() ==>
                    !Touches(max, data[k], data[j])
      {
        if data[i].IsValid() {
          for j := i + 1 to |data|
            invariant forall k :: i < k < j && data[k].IsValid() ==> !Touches(max, data[i], data[k])
          {
            if data[j].IsValid() && Touches(max, data[i], data[j]) {
              return false;
            }
          }
        }
      }
      ok := true;
    }

    method Merge(r: Range)
      requires Fits(max, data) && r.start <= max && r.end <= max && 0 < max
      requires Consistent(max, data)
      modifies this`data
      ensures !r.IsValid() ==> data == old(data)
      ensures r.IsValid() ==> MergeExact(max, old(data), data, r)
    {
      if !r.IsValid() {
        return;
      }
      ghost var was := data;
      var found, invalid := Join(r);
      if found != -1 {
        MergeOutcome(max, was, data, r, found);
        return;
      }
      if invalid != -1 {
        data := data[invalid := r];
      } else {
        data := data + [r];
      }
      AddOutcome(max, was, data, r, if invalid != -1 then invalid else |was|);
    }

    /** The loop of merge: found is the entry that absorbed r, invalid a free slot; -1 for neither. */
    method Join(r: Range) returns (found: int, invalid: int)
      requires r.IsValid()
      modifies this`data
      ensures -1 <= found < |data| && -1 <= invalid < |data|
      ensures found == -1 ==> data == old(data) && forall i :: 0 <= i < |data| ==> !Joined(max, data, r, i)
      ensures found != -1 ==> MergedUpTo(max, old(data), data, r, |data|, found)
      ensures found == -1 && invalid != -1 ==> !data[invalid].IsValid()
    {
      ghost var was := data;
      found, invalid := -1, -1;
      var n := 0;
      while n < |data|
        invariant 0 <= n <= |data| == |was| && -1 <= found < n && -1 <= invalid < n
        invariant JoinedUpTo(max, was, data, r, n, found)
        invariant found == -1 && invalid != -1 ==> !data[invalid].IsValid()
      {
        if !data[n].IsValid() {
          invalid := n;
        }
        found := JoinEntry(r, n, found, was);
        n := n + 1;
      }
    }

    /** One entry of the loop of merge. */
    method JoinEntry(r: Range, n: nat, before: int, ghost was: seq<Range>) returns (found: int)
      requires r.IsValid() && n < |data| == |was| && -1 <= before < n && JoinedUpTo(max, was, data, r, n, before)
      modifies this`data
      ensures |data| == |was| && -1 <= found <= n && JoinedUpTo(max, was, data, r, n + 1, found)
      ensures found == -1 ==> before == -1 && data == old(data)
    {
      found := before;
      assert data[n] == was[n];
      if data[n].IsValid() && Touches(max, data[n], r) {
        if found != -1 {
          MergeMore(max, was, data, r, n, found);
          data := data[found := data[found].MinMax(data[n])][n := Invalid(max)];
        } else {
          MergeFirst(max, was, r, n);
          data := data[n := data[n].MinMax(r)];
          found := n;
        }
      } else if found != -1 {
        MergeSkip(max, was, data, r, n, found);
      }
    }

    method Exclude(r: Range)
      requires Fits(max, data) && r.start <= max && r.end <= max && 0 < max
      requires Consistent(max, data)
      modifies this`data
      ensures !r.IsValid() ==> data == old(data)
      ensures r.IsValid() ==> ExcludeExact(max, old(data), data, r)
    {
      if !r.IsValid() {
        return;
      }
      ghost var was := data;
      var invalid := -1;
      var size := |data|;
      var n := 0;
      while n < size
        invariant 0 <= n <= size == |was| <= |data| && -1 <= invalid < n
        invariant ExcludedUpTo(max, was, data, r, n)
        invariant invalid != -1 ==> !data[invalid].IsValid()
      {
        assert data[n] == was[n];
        if !data[n].IsValid() {
          LeaveEntry(max, was, data, r, n);
          invalid := n;
        } else if !data[n].Overlaps(r) {
          LeaveEntry(max, was, data, r, n);
        } else {
          invalid := Cut(r, n, invalid, was);
        }
        n := n + 1;
      }
      ExcludeOutcome(max, was, data, r);
    }

    /** One overlapping entry: drop it, truncate it, or split it, reusing the slot invalid if any. */
    method Cut(r: Range, n: nat, invalid: int, ghost was: seq<Range>) returns (free: int)
      requires 0 < max && r.IsValid() && r.end <= max && Fits(max, was) && Consistent(max, was)
      requires n < |was| <= |data| && -1 <= invalid < n
      requires ExcludedUpTo(max, was, data, r, n)
      requires invalid != -1 ==> !data[invalid].IsValid()
      requires data[n].IsValid() && data[n].Overlaps(r)
      modifies this`data
      ensures |was| <= |data| && -1 <= free <= n
      ensures ExcludedUpTo(max, was, data, r, n + 1)
      ensures free != -1 ==> !data[free].IsValid()
    {
      var existing := data[n];
      assert existing == was[n];
      var head, tail := r.Has(existing.start), r.Has(existing.end);
      free := invalid;
      if head && tail {
        ReplaceEntry(max, was, data, r, n, Invalid(max));
        data := data[n := Invalid(max)];
        free := n;
      } else if head {
        ReplaceEntry(max, was, data, r, n, Range(NextAddress(max, r), existing.end));
        data := data[n := existing.(start := NextAddress(max, r))];
      } else if tail {
        ReplaceEntry(max, was, data, r, n, Range(existing.start, PrevAddress(max, r)));
        data := data[n := existing.(end := PrevAddress(max, r))];
      } else {
        SplitEntry(max, was, data, r, n, if invalid != -1 then invalid else |data|);
        data := data[n := existing.(end := PrevAddress(max, r))];
        if invalid != -1 {
          data := data[invalid := Range(NextAddress(max, r), existing.end)];
          free := -1;
        } else {
          data := data + [Range(NextAddress(max, r), existing.end)];
        }
      }
    }
  }
}
