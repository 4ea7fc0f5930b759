/**
 * The stream of fs::make_gather in core/Utilities/File.cpp: it presents a list of files as one.
 * The module proves which lists it reads like their concatenation, and that it does so for reads
 * of every position and size.
 */
module GatherStream {

  // ----- Sequences of fragments -----

  function Min(x: int, y: int): int {
    if x < y then x else y
  }

  /** Size of the first n fragments. */
  function Sum<T>(files: seq<seq<T>>, n: nat): nat
    requires n <= |files|
  {
    if n == 0 then 0 else Sum(files, n - 1) + |files[n - 1]|
  }

  function Concat<T>(files: seq<seq<T>>): seq<T> {
    if files == [] then [] else Concat(files[..|files| - 1]) + files[|files| - 1]
  }

  /** What a read of size bytes at start gives: the slice, clipped at the end. */
  function Slice<T>(all: seq<T>, start: nat, size: nat): seq<T> {
    if start < |all| then all[start..Min(start + size, |all|)] else []
  }

  lemma SlicesCompose<T>(all: seq<T>, start: nat, m: nat, n: nat)
    ensures Slice(all, start, m) + Slice(all, start + |Slice(all, start, m)|, n) == Slice(all, start, m + n)
  {
  }

  // ----- The table of end offsets -----

  /**
   * The map ends after the first n fragments, in key order. The value stored with a key is the
   * number of keys before it, so it is the position here. A key already there is not stored again,
   * and since offsets never fall that can only be the last one.
   */
  function Ends<T>(files: seq<seq<T>>, n: nat): seq<nat>
    requires n <= |files|
  {
    if n == 0 then []
    else
      var ends := Ends(files, n - 1);
      if ends != [] && ends[|ends| - 1] == Sum(files, n) then ends else ends + [Sum(files, n)]
  }

  ghost predicate Increasing(ends: seq<nat>) {
    forall i, j :: 0 <= i < j < |ends| ==> ends[i] < ends[j]
  }

  lemma {:induction false} EndsShape<T>(files: seq<seq<T>>, n: nat)
    requires n <= |files|
    ensures Increasing(Ends(files, n)) && |Ends(files, n)| <= n
    ensures n > 0 ==> Ends(files, n) != [] && Ends(files, n)[|Ends(files, n)| - 1] == Sum(files, n)
  {
    if n > 0 {
      EndsShape(files, n - 1);
    }
  }

  /** upper_bound: the first key above pos. */
  function UpperBound(ends: seq<nat>, pos: nat): (k: nat)
    ensures k <= |ends|
    ensures forall i :: 0 <= i < k ==> ends[i] <= pos
    ensures k < |ends| ==> pos < ends[k]
  {
    UpperBoundFrom(ends, pos, 0)
  }

  function UpperBoundFrom(ends: seq<nat>, pos: nat, from: nat): (k: nat)
    requires from <= |ends|
    ensures from <= k <= |ends|
    ensures forall i :: from <= i < k ==> ends[i] <= pos
    ensures k < |ends| ==> pos < ends[k]
    decreases |ends| - from
  {
    if from == |ends| || pos < ends[from] then from else UpperBoundFrom(ends, pos, from + 1)
  }

  // ----- read_at -----

  /** read_at of one fragment; a negative offset is a huge one in 64 bits and reads nothing. */
  function Pread<T>(content: seq<T>, offset: int, count: nat): seq<T> {
    if offset < 0 then [] else Slice(content, offset, count)
  }

  /** One pass of the loop: what is read from the k-th fragment. */
  function Piece<T>(files: seq<seq<T>>, ends: seq<nat>, k: nat, pos: nat, count: nat): (got: seq<T>)
    requires k < |ends| <= |files|
    ensures |got| <= count
  {
    Pread(files[k], |files[k]| + pos - ends[k], count)
  }

  /**
   * The loop of read_at from the k-th key on: pos is the stream position, left the bytes to go and
   * out what is in the buffer.
   */
  function Gather<T>(files: seq<seq<T>>, ends: seq<nat>, k: nat, pos: nat, left: nat, out: seq<T>): seq<T>
    requires k <= |ends| <= |files| && Increasing(ends) && (k < |ends| ==> pos < ends[k])
    decreases |ends| - k
  {
    if k == |ends| then out
    else
      var count := Min(ends[k] - pos, left);
      var got := Piece(files, ends, k, pos, count);
      if |got| < count || left == count then out + got
      else Gather(files, ends, k + 1, pos + |got|, left - count, out + got)
  }

  /** read_at with the table ends and the total size end. */
  function ReadFrom<T>(files: seq<seq<T>>, ends: seq<nat>, end: nat, start: nat, size: nat): seq<T>
    requires |ends| <= |files| && Increasing(ends)
  {
    if start < end && 0 < size
    then Gather(files, ends, UpperBound(ends, start), start, Min(size, end - start), [])
    else []
  }

  function ReadAt<T>(files: seq<seq<T>>, start: nat, size: nat): seq<T> {
    EndsShape(files, |files|);
    ReadFrom(files, Ends(files, |files|), Sum(files, |files|), start, size)
  }

  // ----- Which lists of fragments work -----

  /** No non-empty fragment comes after an empty one, except after an empty very first one. */
  ghost predicate Indexable<T>(files: seq<seq<T>>) {
    forall i, j :: 0 < i < j < |files| && files[i] == [] ==> files[j] == []
  }

  /** The k-th key is the end of the k-th fragment. */
  ghost predicate IndexedAt<T>(files: seq<seq<T>>, ends: seq<nat>, k: nat)
    requires k < |ends| <= |files|
  {
    ends[k] == Sum(files, k + 1)
  }

  ghost predicate Indexed<T>(files: seq<seq<T>>, ends: seq<nat>, n: nat)
    requires n <= |ends| <= |files|
  {
    forall k :: 0 <= k < n ==> IndexedAt(files, ends, k)
  }

  lemma {:induction false} SumGrows<T>(files: seq<seq<T>>, m: nat, n: nat)
    requires m <= n <= |files|
    ensures Sum(files, m) <= Sum(files, n)
    ensures (forall i :: m <= i < n ==> files[i] == []) ==> Sum(files, n) == Sum(files, m)
    decreases n
  {
    if m < n {
      SumGrows(files, m, n - 1);
    }
  }

  lemma {:induction false} SumIsLength<T>(files: seq<seq<T>>, n: nat)
    requires n <= |files|
    ensures Sum(files, n) == |Concat(files[..n])|
    ensures n > 0 ==> Concat(files[..n]) == Concat(files[..n - 1]) + files[n - 1]
  {
    if n > 0 {
      assert files[..n][..n - 1] == files[..n - 1];
      SumIsLength(files, n - 1);
    }
  }

  /** Fragment k is the part of the concatenation between its two offsets. */
  lemma {:induction false} FragmentAt<T>(files: seq<seq<T>>, k: nat, n: nat)
    requires k < n <= |files|
    ensures Sum(files, k + 1) <= Sum(files, n) == |Concat(files[..n])|
    ensures Concat(files[..n])[Sum(files, k)..Sum(files, k + 1)] == files[k]
    decreases n
  {
    SumIsLength(files, n);
    SumIsLength(files, n - 1);
    if k < n - 1 {
      FragmentAt(files, k, n - 1);
      SliceBefore(Concat(files[..n - 1]), files[n - 1], Sum(files, k), Sum(files, k + 1));
    }
  }

  lemma SliceBefore<T>(a: seq<T>, b: seq<T>, lo: nat, hi: nat)
    requires lo <= hi <= |a|
    ensures (a + b)[lo..hi] == a[lo..hi]
  {
  }

  lemma IndexedExtended<T>(files: seq<seq<T>>, ends: seq<nat>, n: nat, longer: seq<nat>)
    requires n == |ends| < |files| && Indexed(files, ends, n) && longer == ends + [Sum(files, n + 1)]
    ensures Indexed(files, longer, n + 1)
  {
    forall k | 0 <= k < n + 1
      ensures IndexedAt(files, longer, k)
    {
      assert k < n ==> IndexedAt(files, ends, k);
    }
  }

  lemma {:induction false} IndexableIsIndexed<T>(files: seq<seq<T>>, n: nat)
    requires Indexable(files) && n <= |files|
    ensures |Ends(files, n)| <= n && Indexed(files, Ends(files, n), |Ends(files, n)|)
    ensures |Ends(files, n)| < n ==> forall i :: |Ends(files, n)| <= i < |files| ==> files[i] == []
  {
    if n > 0 {
      IndexableIsIndexed(files, n - 1);
      EndsShape(files, n - 1);
      var ends := Ends(files, n - 1);
      if |ends| < n - 1 {
        assert files[n - 1] == [];
      } else {
        IndexedExtended(files, ends, n - 1, ends + [Sum(files, n)]);
      }
    }
  }

  /** Fragment k is the part of all between its two offsets. */
  ghost predicate LaidOutAt<T>(files: seq<seq<T>>, all: seq<T>, k: nat)
    requires k < |files|
  {
    && Sum(files, k + 1) <= |all|
    && all[Sum(files, k)..Sum(files, k + 1)] == files[k]
  }

  ghost predicate LaidOut<T>(files: seq<seq<T>>, all: seq<T>) {
    |all| == Sum(files, |files|) && forall k :: 0 <= k < |files| ==> LaidOutAt(files, all, k)
  }

  lemma ConcatIsLaidOut<T>(files: seq<seq<T>>)
    ensures LaidOut(files, Concat(files))
  {
    assert files[..|files|] == files;
    SumIsLength(files, |files|);
    forall k | 0 <= k < |files| ensures LaidOutAt(files, Concat(files), k) {
      FragmentAt(files, k, |files|);
    }
  }

  lemma SliceOfPart<T>(all: seq<T>, part: seq<T>, base: nat, pos: nat, count: nat)
    requires base <= pos && pos + count <= base + |part| <= |all| && all[base..base + |part|] == part
    ensures Pread(part, pos - base, count) == all[pos..pos + count]
  {
    if count > 0 {
      var piece, want := part[pos - base..pos - base + count], all[pos..pos + count];
      forall i | 0 <= i < count ensures piece[i] == want[i] {
        assert piece[i] == part[pos - base + i];
        assert part[pos - base + i] == all[base..base + |part|][pos - base + i];
      }
      assert piece == want;
    }
  }

  /** The loop gives the slice of the concatenation. */
  lemma {:induction false} GatherIsSlice<T>(
    files: seq<seq<T>>, ends: seq<nat>, all: seq<T>, k: nat, pos: nat, left: nat, out: seq<T>)
    requires k < |ends| <= |files| && Increasing(ends) && Indexed(files, ends, |ends|)
    requires Sum(files, k) <= pos < ends[k] && ends[|ends| - 1] == |all| && LaidOut(files, all)
    requires pos + left <= |all|
    ensures Gather(files, ends, k, pos, left, out) == out + all[pos..pos + left]
    decreases |ends| - k
  {
    var count := Min(ends[k] - pos, left);
    PieceIsSlice(files, ends, all, k, pos, count);
    var got := all[pos..pos + count];
    if count < left {
      NextFragment(files, ends, k, |all|);
      GatherIsSlice(files, ends, all, k + 1, ends[k], left - count, out + got);
      GatherOneMore(files, ends, all, k, pos, left, out, count, got);
    } else {
      GatherEnds(files, ends, k, pos, left, out, got);
    }
  }

  lemma GatherOneMore<T>(
    files: seq<seq<T>>, ends: seq<nat>, all: seq<T>, k: nat, pos: nat, left: nat, out: seq<T>, count: nat, got: seq<T>)
    requires k + 1 < |ends| <= |files| && Increasing(ends) && pos < ends[k] && count == ends[k] - pos < left
    requires pos + left <= |all| && got == all[pos..pos + count] && got == Piece(files, ends, k, pos, count)
    requires Gather(files, ends, k + 1, ends[k], left - count, out + got) == out + got + all[pos + count..pos + left]
    ensures Gather(files, ends, k, pos, left, out) == out + all[pos..pos + left]
  {
    GatherGoes(files, ends, k, pos, left, out, count, got);
    Join(out, all, pos, pos + count, pos + left);
  }

  lemma GatherEnds<T>(files: seq<seq<T>>, ends: seq<nat>, k: nat, pos: nat, left: nat, out: seq<T>, got: seq<T>)
    requires k < |ends| <= |files| && Increasing(ends) && pos < ends[k]
    requires left <= ends[k] - pos && got == Piece(files, ends, k, pos, left)
    ensures Gather(files, ends, k, pos, left, out) == out + got
  {
  }

  lemma NextFragment<T>(files: seq<seq<T>>, ends: seq<nat>, k: nat, total: nat)
    requires k < |ends| <= |files| && Increasing(ends) && Indexed(files, ends, |ends|)
    requires ends[k] < total == ends[|ends| - 1]
    ensures k + 1 < |ends| && Sum(files, k + 1) == ends[k] < ends[k + 1]
  {
    assert IndexedAt(files, ends, k);
  }

  lemma Join<T>(out: seq<T>, all: seq<T>, a: nat, b: nat, c: nat)
    requires a <= b <= c <= |all|
    ensures out + all[a..b] + all[b..c] == out + all[a..c]
  {
    Extend(all, a, b, c);
    assert out + all[a..b] + all[b..c] == out + (all[a..b] + all[b..c]);
  }

  lemma PieceIsSlice<T>(files: seq<seq<T>>, ends: seq<nat>, all: seq<T>, k: nat, pos: nat, count: nat)
    requires k < |ends| <= |files| && Indexed(files, ends, |ends|) && LaidOut(files, all)
    requires Sum(files, k) <= pos && pos + count <= ends[k]
    ensures pos + count <= |all| && Piece(files, ends, k, pos, count) == all[pos..pos + count]
  {
    assert IndexedAt(files, ends, k) && LaidOutAt(files, all, k);
    SliceOfPart(all, files[k], Sum(files, k), pos, count);
  }

  lemma Extend<T>(all: seq<T>, a: nat, b: nat, c: nat)
    requires a <= b <= c <= |all|
    ensures all[a..b] + all[b..c] == all[a..c]
  {
  }

  /** ends is the table of files, and all what they hold together. */
  ghost predicate Tabulated<T>(files: seq<seq<T>>, ends: seq<nat>, all: seq<T>) {
    && |ends| <= |files| && Increasing(ends) && Indexed(files, ends, |ends|) && LaidOut(files, all)
    && (all != [] ==> ends != [] && ends[|ends| - 1] == |all|)
  }

  lemma IndexableEnds<T>(files: seq<seq<T>>)
    requires Indexable(files)
    ensures |Ends(files, |files|)| <= |files| && Increasing(Ends(files, |files|))
    ensures Indexed(files, Ends(files, |files|), |Ends(files, |files|)|)
    ensures files != [] ==>
      Ends(files, |files|) != [] && Ends(files, |files|)[|Ends(files, |files|)| - 1] == Sum(files, |files|)
  {
    EndsShape(files, |files|);
    IndexableIsIndexed(files, |files|);
  }

  lemma IndexableIsTabulated<T>(files: seq<seq<T>>)
    requires Indexable(files)
    ensures Tabulated(files, Ends(files, |files|), Concat(files))
  {
    IndexableEnds(files);
    ConcatIsLaidOut(files);
  }

  /** The loop, started at the key found by upper_bound. */
  lemma FoundIsSlice<T>(files: seq<seq<T>>, ends: seq<nat>, all: seq<T>, start: nat, size: nat)
    requires Tabulated(files, ends, all) && start < |all| && start + size <= |all|
    ensures Gather(files, ends, UpperBound(ends, start), start, size, []) == all[start..start + size]
  {
    var k := UpperBound(ends, start);
    KeyBelow(files, ends, k, start);
    GatherIsSlice(files, ends, all, k, start, size, []);
  }

  lemma TabulatedReads<T>(files: seq<seq<T>>, ends: seq<nat>, all: seq<T>, start: nat, size: nat)
    requires Tabulated(files, ends, all)
    ensures ReadFrom(files, ends, |all|, start, size) == Slice(all, start, size)
  {
    if start < |all| && 0 < size {
      FoundIsSlice(files, ends, all, start, Min(size, |all| - start));
    }
  }

  /** An indexable list reads like its concatenation at every position and size. */
  lemma ReadAtIsSlice<T>(files: seq<seq<T>>, start: nat, size: nat)
    requires Indexable(files)
    ensures ReadAt(files, start, size) == Slice(Concat(files), start, size)
  {
    IndexableIsTabulated(files);
    TabulatedReads(files, Ends(files, |files|), Concat(files), start, size);
  }

  /** Two consecutive reads, giving a and b, give what one larger read gives. */
  lemma ReadsCompose<T>(files: seq<seq<T>>, start: nat, m: nat, n: nat, a: seq<T>, b: seq<T>, c: seq<T>)
    requires Indexable(files) && a == ReadAt(files, start, m)
    requires b == ReadAt(files, start + |a|, n) && c == ReadAt(files, start, m + n)
    ensures a + b == c
  {
    ReadAtIsSlice(files, start, m);
    ReadAtIsSlice(files, start + |a|, n);
    ReadAtIsSlice(files, start, m + n);
    Composed(Concat(files), start, m, n, a, b, c);
  }

  lemma Composed<T>(all: seq<T>, start: nat, m: nat, n: nat, a: seq<T>, b: seq<T>, c: seq<T>)
    requires a == Slice(all, start, m) && b == Slice(all, start + |a|, n) && c == Slice(all, start, m + n)
    ensures a + b == c
  {
    SlicesCompose(all, start, m, n);
  }

  lemma KeyBelow<T>(files: seq<seq<T>>, ends: seq<nat>, k: nat, start: nat)
    requires |ends| <= |files| && Indexed(files, ends, |ends|) && k <= |ends|
    requires k > 0 ==> ends[k - 1] <= start
    ensures Sum(files, k) <= start
  {
    if k > 0 {
      assert IndexedAt(files, ends, k - 1);
    }
  }

  // ----- Lists that do not work -----

  /** The first d keys are right, and fragment d, empty, is looked up for a later fragment. */
  ghost predicate Misindexed<T>(files: seq<seq<T>>, d: nat) {
    EndsShape(files, |files|);
    var ends := Ends(files, |files|);
    && d < |ends| && Indexed(files, ends, d) && files[d] == [] && Sum(files, d) < ends[d]
  }

  /** The keys of a longer list start with the keys of a shorter one. */
  lemma {:induction false} EndsExtend<T>(files: seq<seq<T>>, m: nat, n: nat)
    requires m <= n <= |files|
    ensures Ends(files, m) <= Ends(files, n)
    decreases n
  {
    if m < n {
      EndsExtend(files, m, n - 1);
    }
  }

  lemma {:induction false} NonEmptyPrefix<T>(files: seq<seq<T>>, n: nat)
    requires n <= |files| && forall i :: 0 < i < n ==> files[i] != []
    ensures |Ends(files, n)| == n && Indexed(files, Ends(files, n), n)
  {
    if n > 0 {
      NonEmptyPrefix(files, n - 1);
      EndsShape(files, n - 1);
      IndexedExtended(files, Ends(files, n - 1), n - 1, Ends(files, n));
    }
  }

  /** Empty fragments after the first one add no key. */
  lemma {:induction false} EmptyRun<T>(files: seq<seq<T>>, d: nat, e: nat)
    requires 0 < d <= e <= |files| && forall i :: d <= i < e ==> files[i] == []
    ensures Ends(files, e) == Ends(files, d) && Sum(files, e) == Sum(files, d)
    decreases e
  {
    if d < e {
      EmptyRun(files, d, e - 1);
      EndsShape(files, e - 1);
      assert files[e - 1] == [];
    }
  }

  /** d is the first empty fragment after fragment 0, e the first non-empty one after it. */
  lemma FirstGap<T>(files: seq<seq<T>>) returns (d: nat, e: nat)
    requires !Indexable(files)
    ensures 0 < d < e < |files| && files[e] != []
    ensures (forall k :: 0 < k < d ==> files[k] != []) && (forall k :: d <= k < e ==> files[k] == [])
  {
    var i, j :| 0 < i < j < |files| && files[i] == [] && files[j] != [];
    d := 1;
    while files[d] != []
      invariant 0 < d <= i && forall k :: 0 < k < d ==> files[k] != []
      decreases i - d
    {
      d := d + 1;
    }
    e := d;
    while files[e] == []
      invariant d <= e <= j && forall k :: d <= k < e ==> files[k] == []
      decreases j - e
    {
      e := e + 1;
    }
  }

  /** The key of the first fragment after the gap takes the place of the gap's first fragment. */
  lemma GapKey<T>(files: seq<seq<T>>, d: nat, e: nat)
    requires 0 < d < e < |files| && files[e] != []
    requires (forall k :: 0 < k < d ==> files[k] != []) && (forall k :: d <= k < e ==> files[k] == [])
    ensures |Ends(files, d)| == d && Indexed(files, Ends(files, d), d)
    ensures Ends(files, e + 1) == Ends(files, d) + [Sum(files, e + 1)]
    ensures Sum(files, d) < Sum(files, e + 1)
  {
    NonEmptyPrefix(files, d);
    EmptyRun(files, d, e);
    EndsShape(files, d);
  }

  lemma IndexedExtends<T>(files: seq<seq<T>>, keys: seq<nat>, key: nat, ends: seq<nat>)
    requires keys + [key] <= ends && |ends| <= |files| && Indexed(files, keys, |keys|)
    ensures Indexed(files, ends, |keys|) && ends[|keys|] == key
  {
    forall k | 0 <= k < |keys|
      ensures IndexedAt(files, ends, k)
    {
      assert IndexedAt(files, keys, k) && ends[k] == (keys + [key])[k];
    }
    assert ends[|keys|] == (keys + [key])[|keys|];
  }

  lemma MisindexedBy<T>(files: seq<seq<T>>, keys: seq<nat>, key: nat, d: nat)
    requires |keys| == d < |files| && Indexed(files, keys, d) && keys + [key] <= Ends(files, |files|)
    requires files[d] == [] && Sum(files, d) < key
    ensures Misindexed(files, d)
  {
    EndsShape(files, |files|);
    IndexedExtends(files, keys, key, Ends(files, |files|));
  }

  lemma GapIsMisindexed<T>(files: seq<seq<T>>, d: nat, e: nat)
    requires 0 < d < e < |files| && files[e] != []
    requires (forall k :: 0 < k < d ==> files[k] != []) && (forall k :: d <= k < e ==> files[k] == [])
    ensures Misindexed(files, d)
  {
    GapKey(files, d, e);
    EndsExtend(files, e + 1, |files|);
    MisindexedBy(files, Ends(files, d), Sum(files, e + 1), d);
  }

  /** The loop stops at the wrong fragment. */
  lemma {:induction false} GatherStops<T>(
    files: seq<seq<T>>, ends: seq<nat>, k: nat, pos: nat, left: nat, out: seq<T>, d: nat)
    requires k <= d < |ends| <= |files| && Increasing(ends) && Indexed(files, ends, d)
    requires Sum(files, k) <= pos < ends[k] && files[d] == [] && Sum(files, d) < ends[d] && pos <= Sum(files, d)
    ensures |Gather(files, ends, k, pos, left, out)| <= |out| + Sum(files, d) - pos
    decreases d - k
  {
    if k < d {
      KeyBefore(files, ends, k, d);
      var count := Min(ends[k] - pos, left);
      var got := Piece(files, ends, k, pos, count);
      if |got| == count && count < left {
        GatherStops(files, ends, k + 1, ends[k], left - count, out + got, d);
      }
    }
  }

  lemma KeyBefore<T>(files: seq<seq<T>>, ends: seq<nat>, k: nat, d: nat)
    requires k < d < |ends| <= |files| && Increasing(ends) && Indexed(files, ends, d)
    ensures Sum(files, k + 1) == ends[k] <= Sum(files, d)
  {
    assert IndexedAt(files, ends, k);
    SumGrows(files, k + 1, d);
  }

  /** The exact condition: all reads give the slice of the concatenation, just for indexable lists. */
  lemma ReadsLikeConcatIffIndexable<T>(files: seq<seq<T>>)
    ensures (forall start: nat, size: nat :: ReadAt(files, start, size) == Slice(Concat(files), start, size))
       <==> Indexable(files)
  {
    if Indexable(files) {
      forall start: nat, size: nat ensures ReadAt(files, start, size) == Slice(Concat(files), start, size) {
        ReadAtIsSlice(files, start, size);
      }
    } else {
      FullReadIsShort(files);
    }
  }

  lemma FullReadIsShort<T>(files: seq<seq<T>>)
    requires !Indexable(files)
    ensures |ReadAt(files, 0, Sum(files, |files|))| < |Concat(files)|
    ensures Slice(Concat(files), 0, Sum(files, |files|)) == Concat(files)
  {
    var d, e := FirstGap(files);
    GapIsMisindexed(files, d, e);
    MisindexedIsShort(files, d);
    FullSlice(files);
  }

  lemma MisindexedIsShort<T>(files: seq<seq<T>>, d: nat)
    requires Misindexed(files, d)
    ensures |ReadAt(files, 0, Sum(files, |files|))| < Sum(files, |files|)
  {
    EndsShape(files, |files|);
    FullReadStops(files, Ends(files, |files|), d, Sum(files, |files|));
  }

  lemma FullSlice<T>(files: seq<seq<T>>)
    ensures |Concat(files)| == Sum(files, |files|)
    ensures Slice(Concat(files), 0, Sum(files, |files|)) == Concat(files)
  {
    assert files[..|files|] == files;
    SumIsLength(files, |files|);
  }

  lemma FullReadStops<T>(files: seq<seq<T>>, ends: seq<nat>, d: nat, total: nat)
    requires d < |ends| <= |files| && Increasing(ends) && Indexed(files, ends, d)
    requires files[d] == [] && Sum(files, d) < ends[d] && ends[|ends| - 1] == total
    ensures |ReadFrom(files, ends, total, 0, total)| <= Sum(files, d) < total
  {
    var k := UpperBound(ends, 0);
    assert k <= d;
    KeyBelowZero(files, ends, k, d);
    GatherStops(files, ends, k, 0, total, [], d);
  }

  lemma KeyBelowZero<T>(files: seq<seq<T>>, ends: seq<nat>, k: nat, d: nat)
    requires k <= d < |ends| <= |files| && Indexed(files, ends, d)
    requires forall i :: 0 <= i < k ==> ends[i] <= 0
    ensures Sum(files, k) == 0
  {
    if k > 0 {
      assert IndexedAt(files, ends, k - 1);
    }
  }

  /** The smallest such list: the second byte is never found. */
  lemma GapExample<T>(x: T, y: T)
    ensures var files := [[x], [], [y]];
            !Indexable(files) && |Concat(files)| == 2 && |ReadAt(files, 0, 2)| < 2
  {
    var files := [[x], [], [y]];
    assert files[1] == [] && files[2] != [];
    FullReadIsShort(files);
    FullSlice(files);
    assert Sum(files, 1) == 1 && Sum(files, 2) == 1 && Sum(files, 3) == 2;
  }

  // ----- read: the fragments have positions of their own -----

  /** Where a fragment stands after a seek from its end; a target before the start fails. */
  function Sought(size: nat, place: nat, offset: int): nat {
    if size + offset < 0 then place else size + offset
  }

  /** What is read from fragment k, standing at places[k], when the stream is at pos. */
  function Taken<T>(files: seq<seq<T>>, places: seq<nat>, ends: seq<nat>, k: nat, pos: nat, count: nat): (got: seq<T>)
    requires k < |ends| <= |files| == |places|
    ensures |got| <= count
  {
    Slice(files[k], Sought(|files[k]|, places[k], pos - ends[k]), count)
  }

  function Moved<T>(files: seq<seq<T>>, places: seq<nat>, ends: seq<nat>, k: nat, pos: nat, count: nat): (r: seq<nat>)
    requires k < |ends| <= |files| == |places|
    ensures |r| == |places|
  {
    places[k := Sought(|files[k]|, places[k], pos - ends[k]) + |Taken(files, places, ends, k, pos, count)|]
  }

  /** What a read leaves behind and gives: the places of the fragments, the position, the bytes. */
  datatype Cursor<T> = Cursor(places: seq<nat>, pos: nat, out: seq<T>)

  /** The loop of read from the k-th key on, for every list of fragments. */
  function ReadOn<T>(
    files: seq<seq<T>>, places: seq<nat>, ends: seq<nat>, k: nat, pos: nat, left: nat, out: seq<T>): (c: Cursor<T>)
    requires k <= |ends| <= |files| == |places| && Increasing(ends) && (k < |ends| ==> pos < ends[k])
    ensures |c.places| == |places|
    decreases |ends| - k
  {
    if k == |ends| then Cursor(places, pos, out)
    else
      var count := Min(ends[k] - pos, left);
      var got := Taken(files, places, ends, k, pos, count);
      var after := Moved(files, places, ends, k, pos, count);
      if |got| < count || left == count then Cursor(after, pos + |got|, out + got)
      else ReadOn(files, after, ends, k + 1, pos + |got|, left - count, out + got)
  }

  function ReadWith<T>(
    files: seq<seq<T>>, places: seq<nat>, ends: seq<nat>, end: nat, pos: nat, size: nat): (c: Cursor<T>)
    requires |ends| <= |files| == |places| && Increasing(ends)
    ensures |c.places| == |places|
  {
    if pos < end && 0 < Min(size, end - pos)
    then ReadOn(files, places, ends, UpperBound(ends, pos), pos, Min(size, end - pos), [])
    else Cursor(places, pos, [])
  }

  /** read of size bytes at the stream position pos. */
  function ReadNext<T>(files: seq<seq<T>>, places: seq<nat>, pos: nat, size: nat): (c: Cursor<T>)
    requires |files| == |places|
    ensures |c.places| == |places|
  {
    EndsShape(files, |files|);
    ReadWith(files, places, Ends(files, |files|), Sum(files, |files|), pos, size)
  }

  /** One round that reads all it asked for and goes on, in read and in read_at. */
  lemma ReadOnGoes<T>(
    files: seq<seq<T>>, places: seq<nat>, ends: seq<nat>, k: nat, pos: nat, left: nat, out: seq<T>, count: nat,
    got: seq<T>, after: seq<nat>)
    requires k < |ends| <= |files| == |places| && Increasing(ends) && pos < ends[k]
    requires count == Min(ends[k] - pos, left) < left && |got| == count
    requires got == Taken(files, places, ends, k, pos, count) && after == Moved(files, places, ends, k, pos, count)
    ensures k + 1 < |ends| ==> pos + count < ends[k + 1]
    ensures ReadOn(files, places, ends, k, pos, left, out)
         == ReadOn(files, after, ends, k + 1, pos + count, left - count, out + got)
  {
  }

  lemma ReadOnLast<T>(
    files: seq<seq<T>>, places: seq<nat>, ends: seq<nat>, k: nat, pos: nat, left: nat, out: seq<T>, count: nat,
    got: seq<T>, after: seq<nat>)
    requires k < |ends| <= |files| == |places| && Increasing(ends) && pos < ends[k]
    requires count == Min(ends[k] - pos, left) && (|got| < count || left == count)
    requires got == Taken(files, places, ends, k, pos, count) && after == Moved(files, places, ends, k, pos, count)
    ensures ReadOn(files, places, ends, k, pos, left, out) == Cursor(after, pos + |got|, out + got)
  {
  }

  lemma GatherGoes<T>(
    files: seq<seq<T>>, ends: seq<nat>, k: nat, pos: nat, left: nat, out: seq<T>, count: nat, got: seq<T>)
    requires k < |ends| <= |files| && Increasing(ends) && pos < ends[k]
    requires count == Min(ends[k] - pos, left) < left && |got| == count && got == Piece(files, ends, k, pos, count)
    ensures k + 1 < |ends| ==> pos + count < ends[k + 1]
    ensures Gather(files, ends, k, pos, left, out) == Gather(files, ends, k + 1, pos + count, left - count, out + got)
  {
  }

  /** Two loops that have read the same. */
  ghost predicate SameRead<T>(c: Cursor<T>, g: seq<T>, pos: nat, out: seq<T>) {
    c.out == g && c.pos + |out| == pos + |g|
  }

  lemma SameReadOn<T>(c: Cursor<T>, c': Cursor<T>, g: seq<T>, g': seq<T>, pos: nat, out: seq<T>, got: seq<T>)
    requires c == c' && g == g' && SameRead(c', g', pos + |got|, out + got)
    ensures SameRead(c, g, pos, out)
  {
  }

  lemma ReadOnEnds<T>(files: seq<seq<T>>, places: seq<nat>, ends: seq<nat>, k: nat, pos: nat, left: nat, out: seq<T>)
    requires k <= |ends| <= |files| == |places| && Increasing(ends) && (k < |ends| ==> pos < ends[k])
    requires k < |ends| ==>
      var count := Min(ends[k] - pos, left);
      var got := Taken(files, places, ends, k, pos, count);
      got == Piece(files, ends, k, pos, count) && (|got| < count || left == count)
    ensures SameRead(ReadOn(files, places, ends, k, pos, left, out), Gather(files, ends, k, pos, left, out), pos, out)
  {
  }

  lemma GathersOneMore<T>(
    files: seq<seq<T>>, places: seq<nat>, ends: seq<nat>, k: nat, pos: nat, left: nat, out: seq<T>, count: nat,
    got: seq<T>, after: seq<nat>)
    requires k < |ends| <= |files| == |places| == |after| && Increasing(ends) && pos < ends[k]
    requires count == Min(ends[k] - pos, left) < left && |got| == count && got == Piece(files, ends, k, pos, count)
    requires got == Taken(files, places, ends, k, pos, count) && after == Moved(files, places, ends, k, pos, count)
    requires k + 1 < |ends| ==> pos + count < ends[k + 1]
    requires SameRead(ReadOn(files, after, ends, k + 1, pos + count, left - count, out + got),
                      Gather(files, ends, k + 1, pos + count, left - count, out + got), pos + count, out + got)
    ensures SameRead(ReadOn(files, places, ends, k, pos, left, out), Gather(files, ends, k, pos, left, out), pos, out)
  {
    ReadOnGoes(files, places, ends, k, pos, left, out, count, got, after);
    GatherGoes(files, ends, k, pos, left, out, count, got);
    SameReadOn(
      ReadOn(files, places, ends, k, pos, left, out),
      ReadOn(files, after, ends, k + 1, pos + count, left - count, out + got),
      Gather(files, ends, k, pos, left, out),
      Gather(files, ends, k + 1, pos + count, left - count, out + got), pos, out, got);
  }

  /** While the keys are right every seek succeeds, and the loop reads what read_at reads. */
  lemma {:induction false} ReadOnGathers<T>(
    files: seq<seq<T>>, places: seq<nat>, ends: seq<nat>, k: nat, pos: nat, left: nat, out: seq<T>)
    requires k <= |ends| <= |files| == |places| && Increasing(ends) && Indexed(files, ends, |ends|)
    requires (k > 0 ==> ends[k - 1] <= pos) && (k < |ends| ==> pos < ends[k])
    ensures SameRead(ReadOn(files, places, ends, k, pos, left, out), Gather(files, ends, k, pos, left, out), pos, out)
    decreases |ends| - k
  {
    if k < |ends| {
      var count := Min(ends[k] - pos, left);
      TakenIsPiece(files, places, ends, k, pos, count);
      var got := Taken(files, places, ends, k, pos, count);
      if |got| == count && count < left {
        var after := Moved(files, places, ends, k, pos, count);
        ReadOnGathers(files, after, ends, k + 1, pos + count, left - count, out + got);
        GathersOneMore(files, places, ends, k, pos, left, out, count, got, after);
      } else {
        ReadOnEnds(files, places, ends, k, pos, left, out);
      }
    } else {
      ReadOnEnds(files, places, ends, k, pos, left, out);
    }
  }

  lemma TakenIsPiece<T>(files: seq<seq<T>>, places: seq<nat>, ends: seq<nat>, k: nat, pos: nat, count: nat)
    requires k < |ends| <= |files| == |places| && Indexed(files, ends, |ends|) && (k > 0 ==> ends[k - 1] <= pos)
    ensures Taken(files, places, ends, k, pos, count) == Piece(files, ends, k, pos, count)
  {
    KeyBelow(files, ends, k, pos);
    assert IndexedAt(files, ends, k);
  }

  /** For any other list the loop stops at the wrong fragment, wherever the fragments stand. */
  lemma {:induction false} ReadOnStops<T>(
    files: seq<seq<T>>, places: seq<nat>, ends: seq<nat>, k: nat, pos: nat, left: nat, out: seq<T>, d: nat)
    requires k <= d < |ends| <= |files| == |places| && Increasing(ends) && Indexed(files, ends, d)
    requires Sum(files, k) <= pos < ends[k] && files[d] == [] && Sum(files, d) < ends[d] && pos <= Sum(files, d)
    ensures |ReadOn(files, places, ends, k, pos, left, out).out| <= |out| + Sum(files, d) - pos
    decreases d - k
  {
    var count := Min(ends[k] - pos, left);
    var got := Taken(files, places, ends, k, pos, count);
    if k < d {
      KeyBefore(files, ends, k, d);
      if |got| == count && count < left {
        ReadOnStops(files, Moved(files, places, ends, k, pos, count), ends, k + 1, ends[k], left - count, out + got, d);
      }
    } else {
      assert got == [];
    }
  }

  lemma NextReadIsSlice<T>(files: seq<seq<T>>, places: seq<nat>, pos: nat, size: nat)
    requires |files| == |places| && Indexable(files)
    ensures var c := ReadNext(files, places, pos, size);
            c.out == Slice(Concat(files), pos, size) && c.pos == pos + |c.out|
  {
    IndexableIsTabulated(files);
    TabulatedNext(files, places, Ends(files, |files|), Concat(files), pos, size);
  }

  lemma TabulatedNext<T>(files: seq<seq<T>>, places: seq<nat>, ends: seq<nat>, all: seq<T>, pos: nat, size: nat)
    requires |files| == |places| && Tabulated(files, ends, all)
    ensures var c := ReadWith(files, places, ends, |all|, pos, size);
            c.out == Slice(all, pos, size) && c.pos == pos + |c.out|
  {
    if pos < |all| && 0 < Min(size, |all| - pos) {
      var n := Min(size, |all| - pos);
      ReadOnGathers(files, places, ends, UpperBound(ends, pos), pos, n, []);
      FoundIsSlice(files, ends, all, pos, n);
    }
  }

  lemma MisindexedNextIsShort<T>(files: seq<seq<T>>, places: seq<nat>, ends: seq<nat>, d: nat, total: nat)
    requires d < |ends| <= |files| == |places| && Increasing(ends) && Indexed(files, ends, d)
    requires files[d] == [] && Sum(files, d) < ends[d] && ends[|ends| - 1] == total
    ensures |ReadWith(files, places, ends, total, 0, total).out| < total
  {
    var k := UpperBound(ends, 0);
    assert k <= d;
    KeyBelowZero(files, ends, k, d);
    ReadOnStops(files, places, ends, k, 0, total, [], d);
  }

  lemma NextReadIsShort<T>(files: seq<seq<T>>, places: seq<nat>)
    requires |files| == |places| && !Indexable(files)
    ensures |ReadNext(files, places, 0, Sum(files, |files|)).out| < |Slice(Concat(files), 0, Sum(files, |files|))|
  {
    var d, e := FirstGap(files);
    GapIsMisindexed(files, d, e);
    EndsShape(files, |files|);
    MisindexedNextIsShort(files, places, Ends(files, |files|), d, Sum(files, |files|));
    FullSlice(files);
  }

  /** The exact condition for read is the same as for read_at, wherever the fragments stand. */
  lemma NextReadsLikeConcatIffIndexable<T>(files: seq<seq<T>>, places: seq<nat>)
    requires |files| == |places|
    ensures (forall pos: nat, size: nat :: ReadNext(files, places, pos, size).out == Slice(Concat(files), pos, size))
       <==> Indexable(files)
  {
    if Indexable(files) {
      forall pos: nat, size: nat
        ensures ReadNext(files, places, pos, size).out == Slice(Concat(files), pos, size)
      {
        NextReadIsSlice(files, places, pos, size);
      }
    } else {
      NextReadIsShort(files, places);
    }
  }

  // ----- The stream object -----

  /** files holds the contents of the fragments, places where each of them stands. */
  class Stream<T> {
    const files: seq<seq<T>>
    var places: seq<nat>
    var pos: nat
    var end: nat
    var ends: seq<nat>

    ghost predicate Valid()
      reads this
    {
      |places| == |files| && end == Sum(files, |files|) && ends == Ends(files, |files|)
    }

    constructor (arg: seq<seq<T>>, start: seq<nat>)
      requires |arg| == |start|
      ensures Valid() && files == arg && places == start && pos == 0
    {
      var table: seq<nat>, total := [], 0;
      for n := 0 to |arg|
        invariant total == Sum(arg, n) && table == Ends(arg, n)
      {
        total := total + |arg[n]|;
        if table == [] || table[|table| - 1] != total {
          table := table + [total];
        }
      }
      files, places, pos, end, ends := arg, start, 0, total, table;
    }

    /** read_at, for every list of fragments. */
    method ReadAtOffset(start: nat, size: nat) returns (out: seq<T>)
      requires Valid()
      ensures out == ReadAt(files, start, size)
    {
      EndsShape(files, |files|);
      out := ReadTable(files, ends, end, start, size);
    }

    /** The loop of read, for every list of fragments. */
    method ReadLoop(first: nat, size: nat) returns (out: seq<T>)
      requires first <= |ends| <= |files| == |places| && Increasing(ends) && (first < |ends| ==> pos < ends[first])
      modifies this`places, this`pos
      ensures Cursor(places, pos, out) == ReadOn(files, old(places), ends, first, old(pos), size, [])
    {
      out := [];
      var left: nat, k: nat, more := size, first, true;
      ghost var goal := ReadOn(files, places, ends, first, pos, size, []);
      while more && k < |ends|
        invariant k <= |ends| && |files| == |places| && (more && k < |ends| ==> pos < ends[k])
        invariant goal == if more then ReadOn(files, places, ends, k, pos, left, out) else Cursor(places, pos, out)
        decreases |ends| - k
      {
        var count: nat := Min(ends[k] - pos, left);
        out, more := ReadRound(k, count, left, out, goal);
        left := left - count;
        k := k + 1;
      }
    }

    /** One round of the loop; more says whether it goes on. */
    method ReadRound(k: nat, count: nat, left: nat, sofar: seq<T>, ghost goal: Cursor<T>) returns (out: seq<T>, more: bool)
      requires k < |ends| <= |files| == |places| && Increasing(ends) && pos < ends[k] && count == Min(ends[k] - pos, left)
      requires goal == ReadOn(files, places, ends, k, pos, left, sofar)
      modifies this`places, this`pos
      ensures |places| == |files| && (more && k + 1 < |ends| ==> pos < ends[k + 1])
      ensures more ==> goal == ReadOn(files, places, ends, k + 1, pos, left - count, out)
      ensures !more ==> goal == Cursor(places, pos, out)
    {
      ghost var was, at := places, pos;
      var got := ReadFragment(k, count);
      out := sofar + got;
      if |got| < count || left == count {
        ReadOnLast(files, was, ends, k, at, left, sofar, count, got, places);
        more := false;
      } else {
        ReadOnGoes(files, was, ends, k, at, left, sofar, count, got, places);
        more := true;
      }
    }

    /** Seek in fragment k relative to its end, then read and move on. */
    method ReadFragment(k: nat, count: nat) returns (got: seq<T>)
      requires k < |ends| <= |files| == |places|
      modifies this`places, this`pos
      ensures got == Taken(files, old(places), ends, k, old(pos), count) && pos == old(pos) + |got|
      ensures places == Moved(files, old(places), ends, k, old(pos), count)
    {
      var offset := pos - ends[k];
      var place := if |files[k]| + offset < 0 then places[k] else |files[k]| + offset;
      got := Slice(files[k], place, count);
      places := places[k := place + |got|];
      pos := pos + |got|;
    }

    /**
     * read, for every list of fragments. For an indexable list it gives the slice of the
     * concatenation at the stream position, which moves on by the size of that slice.
     */
    method Read(size: nat) returns (out: seq<T>)
      requires Valid()
      modifies this`places, this`pos
      ensures Valid() && Cursor(places, pos, out) == ReadNext(files, old(places), old(pos), size)
      ensures Indexable(files) ==> out == Slice(Concat(files), old(pos), size) && pos == old(pos) + |out|
    {
      if Indexable(files) {
        NextReadIsSlice(files, places, pos, size);
      }
      EndsShape(files, |files|);
      out := ReadSome(size);
    }

    /** read with the table as it is. */
    method ReadSome(size: nat) returns (out: seq<T>)
      requires |ends| <= |files| == |places| && Increasing(ends)
      modifies this`places, this`pos
      ensures Cursor(places, pos, out) == ReadWith(files, old(places), ends, end, old(pos), size)
    {
      if pos < end && 0 < Min(size, end - pos) {
        out := ReadLoop(UpperBound(ends, pos), Min(size, end - pos));
      } else {
        out := [];
      }
    }
  }

  method ReadTable<T>(files: seq<seq<T>>, ends: seq<nat>, end: nat, start: nat, size: nat) returns (out: seq<T>)
    requires |ends| <= |files| && Increasing(ends)
    ensures out == ReadFrom(files, ends, end, start, size)
  {
    if start < end && 0 < Min(size, end - start) {
      out := GatherLoop(files, ends, UpperBound(ends, start), start, Min(size, end - start));
    } else {
      out := [];
    }
  }

  method GatherLoop<T>(files: seq<seq<T>>, ends: seq<nat>, first: nat, start: nat, size: nat) returns (out: seq<T>)
    requires first <= |ends| <= |files| && Increasing(ends) && (first < |ends| ==> start < ends[first])
    ensures out == Gather(files, ends, first, start, size, [])
  {
    out := [];
    var k: nat, at: nat, left: nat := first, start, size;
    while k < |ends|
      invariant k <= |ends| && (k < |ends| ==> at < ends[k])
      invariant Gather(files, ends, first, start, size, []) == Gather(files, ends, k, at, left, out)
    {
      var count: nat := Min(ends[k] - at, left);
      var got := Piece(files, ends, k, at, count);
      out := out + got;
      if |got| < count || left == count {
        return;
      }
      left := left - count;
      at := at + |got|;
      k := k + 1;
    }
  }
}
