/**
 * add_jit_memory of core/Utilities/JITASM.cpp in the build without overcommit.
 *
 * One 64-bit counter holds the next free position (low 32 bits) and the committed size (high 32
 * bits). An allocation is one atomic update of the counter, then possibly a commit of more memory,
 * then a second atomic update that acknowledges it. The three are separate steps, so allocations
 * of several threads interleave. The module proves that no interleaving hands out overlapping,
 * misaligned or uncommitted memory.
 */
module JitArena {
  import opened Alignment

  /** Size of one subrange (1 GiB) and the unit in which memory is committed (2 MiB). */
  const SUBRANGE := 0x4000_0000
  const UNIT := 0x20_0000
  const TWO32 := 0x1_0000_0000

  function Position(ctr: U64): nat {
    ctr % TWO32
  }

  function Committed(ctr: U64): nat {
    ctr / TWO32
  }

  /** ctr | 0x40000000 */
  function SetFull(ctr: U64): U64 {
    if ctr / SUBRANGE % 2 == 1 then ctr else ctr + SUBRANGE
  }

  datatype Reservation =
    | OutOfMemory(ctr: U64)
    | Reserved(ctr: U64, pos: U64, olda: U64, newa: U64)

  /** The first atomic_op: the new counter and the results the lambda leaves behind. */
  function Reserve(ctr: U64, size: U64, align: U64): Reservation
    requires 0 < align
  {
    Decide(ctr, Start(ctr, align), Top(ctr, size, align))
  }

  function Decide(ctr: U64, pos: U64, top: U64): Reservation {
    if top > SUBRANGE then
      OutOfMemory(SetFull(ctr))
    else
      var olda := Committed(ctr);
      var newa := if top > olda then Align(top, UNIT) else olda;
      Reserved((ctr + top - Position(ctr)) % TWO64, pos, olda, newa)
  }

  /** The second atomic_op. */
  function Acknowledge(ctr: U64, newa: U64): U64
    requires newa < TWO32
  {
    if Committed(ctr) < newa then newa * TWO32 + Position(ctr) else ctr
  }

  /** Where a request rounds the position and the end of its block to. */
  function Start(ctr: U64, align: U64): U64
    requires 0 < align
  {
    Align(Position(ctr), align)
  }

  function Top(ctr: U64, size: U64, align: U64): U64
    requires 0 < align
  {
    Align((Start(ctr, align) + size) % TWO64, align)
  }

  /**
   * The request is refused by the test of the code, or neither the position nor the size is so
   * large that a sum wraps around 64 bits.
   */
  predicate Honest(ctr: U64, size: U64, align: U64)
    requires 0 < align
  {
    SUBRANGE < Top(ctr, size, align) || (Start(ctr, align) <= SUBRANGE && size <= SUBRANGE)
  }

  // ----- All interleavings -----

  type Thread = nat

  datatype Block = Block(pos: nat, size: nat, align: nat) {
    function End(): nat { pos + size }
  }

  /** Where a thread is after its reservation succeeded. */
  datatype Phase = Committing(olda: nat, newa: nat) | Acknowledging(newa: nat) | Ready

  /** id: the number of the reservation in the list of all reservations (history). */
  datatype Allocation = Allocation(id: nat, block: Block, phase: Phase)

  /**
   * pages: the committed memory, by number of its 2 MiB unit. History: reserved lists the blocks
   * in the order of the first atomic updates, returned the numbers of those handed to a caller, failed
   * whether some request ran out of memory.
   */
  datatype State = State(
    ctr: U64,
    pages: set<nat>,
    active: map<Thread, Allocation>,
    reserved: seq<Block>,
    returned: seq<nat>,
    failed: bool)

  const INITIAL := State(0, {}, map[], [], [], false)

  datatype Step =
    | DoReserve(thread: Thread, size: U64, align: U64)
    | DoCommit(thread: Thread)
    | DoAcknowledge(thread: Thread)
    | DoReturn(thread: Thread)

  predicate Meets(u: nat, lo: nat, hi: nat) {
    lo < (u + 1) * UNIT && u * UNIT < hi
  }

  /** The units a commit of the addresses from lo up to hi makes usable. */
  function Units(lo: nat, hi: nat): set<nat> {
    set u: nat | u <= hi && Meets(u, lo, hi)
  }

  ghost predicate Next(s: State, step: Step, t: State) {
    match step
    case DoReserve(th, size, align) => NextReserve(s, th, size, align, t)
    case DoCommit(th) =>
      && th in s.active && s.active[th].phase.Committing?
      && var Committing(olda, newa) := s.active[th].phase;
         t == s.(pages := s.pages + Units(olda, newa),
                 active := s.active[th := s.active[th].(phase := Acknowledging(newa))])
    case DoAcknowledge(th) =>
      && th in s.active && s.active[th].phase.Acknowledging? && s.active[th].phase.newa < TWO32
      && t == s.(ctr := Acknowledge(s.ctr, s.active[th].phase.newa),
                 active := s.active[th := s.active[th].(phase := Ready)])
    case DoReturn(th) =>
      && th in s.active && s.active[th].phase.Ready?
      && t == s.(active := s.active - {th}, returned := s.returned + [s.active[th].id])
  }

  ghost predicate NextReserve(s: State, th: Thread, size: U64, align: U64, t: State) {
    && th !in s.active && PowerOfTwo(align)
    && AfterReserve(s, th, size, align, Reserve(s.ctr, size, align), t)
  }

  ghost predicate AfterReserve(s: State, th: Thread, size: U64, align: U64, r: Reservation, t: State) {
    match r
    case OutOfMemory(ctr) => t == s.(ctr := ctr, failed := true)
    case Reserved(ctr, pos, olda, newa) =>
      var block := Block(pos, size, align);
      var phase := if olda == newa then Ready else Committing(olda, newa);
      t == s.(ctr := ctr,
              active := s.active[th := Allocation(|s.reserved|, block, phase)],
              reserved := s.reserved + [block])
  }

  // ----- Invariant -----

  /** All memory below hi is committed. */
  ghost predicate CommittedTo(pages: set<nat>, hi: nat) {
    forall u: nat :: u * UNIT < hi ==> u in pages
  }

  ghost predicate BlockOk(b: Block) {
    0 < b.align && b.pos % b.align == 0 && b.End() <= SUBRANGE
  }

  ghost predicate AllocationOk(s: State, a: Allocation) {
    match a.phase
    case Committing(olda, newa) =>
      a.block.End() <= newa <= SUBRANGE && newa % UNIT == 0 && CommittedTo(s.pages, olda)
    case Acknowledging(newa) =>
      a.block.End() <= newa <= SUBRANGE && newa % UNIT == 0 && CommittedTo(s.pages, newa)
    case Ready => CommittedTo(s.pages, a.block.End())
  }

  ghost predicate Ordered(blocks: seq<Block>) {
    forall i, j :: 0 <= i < j < |blocks| ==> blocks[i].End() <= blocks[j].pos
  }

  ghost predicate Invariant(s: State) {
    && Position(s.ctr) < 2 * SUBRANGE && Committed(s.ctr) <= SUBRANGE
    && Committed(s.ctr) % UNIT == 0 && CommittedTo(s.pages, Committed(s.ctr))
    && (s.failed ==> SUBRANGE <= Position(s.ctr))
    && Ordered(s.reserved)
    && (forall i :: 0 <= i < |s.reserved| ==> BlockOk(s.reserved[i]) && s.reserved[i].End() <= Position(s.ctr))
    && (forall th :: th in s.active ==> ActiveOk(s, th))
    && (forall k :: 0 <= k < |s.returned| ==> ReturnedOk(s, s.returned[k]))
    && NoneTwice(s)
  }

  ghost predicate ActiveOk(s: State, th: Thread)
    requires th in s.active
  {
    var a := s.active[th];
    a.id < |s.reserved| && a.block == s.reserved[a.id] && AllocationOk(s, a)
  }

  ghost predicate ReturnedOk(s: State, id: nat) {
    id < |s.reserved| && CommittedTo(s.pages, s.reserved[id].End())
  }

  /** No reservation is handed out twice. */
  ghost predicate NoneTwice(s: State) {
    && (forall x, y :: x in s.active && y in s.active && x != y ==> s.active[x].id != s.active[y].id)
    && (forall x, k :: x in s.active && 0 <= k < |s.returned| ==> s.active[x].id != s.returned[k])
    && forall j, k :: 0 <= j < k < |s.returned| ==> s.returned[j] != s.returned[k]
  }

  // ----- The atomic updates -----

  lemma PowerBound(align: U64)
    requires PowerOfTwo(align)
    ensures align <= TWO64 / 2
  {
    Pow2Of64();
    PowerBelow(align, 64);
  }

  lemma {:induction false} PowerBelow(a: nat, n: nat)
    requires PowerOfTwo(a) && a < Pow2(n)
    ensures 2 * a <= Pow2(n)
    decreases n
  {
    if a > 1 {
      HalfPower(a, n);
      PowerBelow(a / 2, n - 1);
    }
  }

  lemma StartSpec(ctr: U64, align: U64)
    requires PowerOfTwo(align) && Position(ctr) < 2 * SUBRANGE
    ensures Position(ctr) <= Start(ctr, align) && Start(ctr, align) % align == 0
    ensures Start(ctr, align) < Position(ctr) + align
  {
    PowerBound(align);
    AlignSpec(Position(ctr), align);
  }

  lemma TopSpec(pos: U64, size: U64, align: U64)
    requires 0 < align && pos + size + align <= TWO64
    ensures pos + size <= Align((pos + size) % TWO64, align)
  {
    var end := (pos + size) % TWO64;
    assert end == pos + size;
    AlignSpec(end, align);
  }

  /** The two roundings of one request that does not wrap. */
  lemma Rounding(ctr: U64, size: U64, align: U64, pos: U64)
    requires PowerOfTwo(align) && Position(ctr) < 2 * SUBRANGE && pos == Start(ctr, align)
    ensures Position(ctr) <= pos && pos % align == 0
    ensures pos <= SUBRANGE && size <= SUBRANGE ==> pos + size <= Top(ctr, size, align)
  {
    StartSpec(ctr, align);
    PowerBound(align);
    if pos <= SUBRANGE && size <= SUBRANGE {
      TopSpec(pos, size, align);
    }
  }

  /** The committed size a request asks for. */
  lemma NextUnit(top: U64)
    requires top <= SUBRANGE
    ensures top <= Align(top, UNIT) <= SUBRANGE && Align(top, UNIT) % UNIT == 0
  {
    AlignSpec(top, UNIT);
    assert SUBRANGE == 512 * UNIT;
  }

  lemma MovePosition(ctr: U64, top: U64)
    requires Committed(ctr) <= SUBRANGE && top <= SUBRANGE
    ensures var after := (ctr + top - Position(ctr)) % TWO64;
            Position(after) == top && Committed(after) == Committed(ctr)
  {
    SplitCounter(Committed(ctr), top);
    assert ctr + top - Position(ctr) == Committed(ctr) * TWO32 + top;
  }

  /** What the first atomic update promises. */
  ghost predicate ReservationOk(ctr: U64, size: U64, align: U64, r: Reservation) {
    && 0 < align
    && match r
       case OutOfMemory(after) =>
         && Committed(after) == Committed(ctr)
         && Position(ctr) <= Position(after) && SUBRANGE <= Position(after) < 2 * SUBRANGE
       case Reserved(after, pos, olda, newa) =>
         && Position(ctr) <= pos && pos % align == 0
         && pos + size <= Position(after) <= SUBRANGE
         && Committed(after) == Committed(ctr) == olda <= newa <= SUBRANGE
         && newa % UNIT == 0 && Position(after) <= newa
         && (0 < size ==> Position(ctr) < SUBRANGE)
  }

  /**
   * Exactly when the first atomic update keeps its promise, for every size and every power of two:
   * when the request is refused, or nothing in it is large enough to wrap.
   */
  lemma ReserveExact(ctr: U64, size: U64, align: U64)
    requires PowerOfTwo(align)
    requires Position(ctr) < 2 * SUBRANGE && Committed(ctr) <= SUBRANGE && Committed(ctr) % UNIT == 0
    ensures ReservationOk(ctr, size, align, Reserve(ctr, size, align)) <==> Honest(ctr, size, align)
  {
    Rounding(ctr, size, align, Start(ctr, align));
    DecideExact(ctr, size, align, Start(ctr, align), Top(ctr, size, align));
  }

  lemma DecideExact(ctr: U64, size: U64, align: U64, pos: U64, top: U64)
    requires Position(ctr) < 2 * SUBRANGE && Committed(ctr) <= SUBRANGE && Committed(ctr) % UNIT == 0
    requires 0 < align && Position(ctr) <= pos && pos % align == 0
    requires pos <= SUBRANGE && size <= SUBRANGE ==> pos + size <= top
    ensures ReservationOk(ctr, size, align, Decide(ctr, pos, top))
       <==> SUBRANGE < top || (pos <= SUBRANGE && size <= SUBRANGE)
  {
    DecideSpec(ctr, pos, top);
  }

  /** A block of at most 1 GiB with an alignment of at most a quarter of the 64-bit range never wraps. */
  lemma SmallIsHonest(ctr: U64, size: U64, align: U64)
    requires PowerOfTwo(align) && Position(ctr) < 2 * SUBRANGE
    requires size <= SUBRANGE && align <= TWO64 / 4
    ensures Honest(ctr, size, align)
  {
    StartSpec(ctr, align);
    TopSpec(Start(ctr, align), size, align);
  }

  /** An aligned place for the block at or after pos, and an aligned end of it inside the subrange. */
  ghost predicate FitsAt(p: nat, end: nat, pos: nat, size: nat, align: nat) {
    0 < align && p % align == 0 && end % align == 0 && pos <= p && p + size <= end <= SUBRANGE
  }

  ghost predicate HasRoom(pos: nat, size: nat, align: nat) {
    exists p: nat, end: nat :: FitsAt(p, end, pos, size, align)
  }

  lemma LeastEnd(x: U64, align: U64, end: nat)
    requires PowerOfTwo(align) && x <= end <= SUBRANGE && end % align == 0
    ensures Align(x, align) <= end
  {
    PowerBound(align);
    AlignIsLeast(x, align, end);
  }

  /** If there is room, the request is placed as low as possible and not refused. */
  lemma RoomIsUsed(ctr: U64, size: U64, align: U64, p: nat, end: nat)
    requires PowerOfTwo(align) && FitsAt(p, end, Position(ctr), size, align)
    ensures Start(ctr, align) <= p && Top(ctr, size, align) <= end
  {
    LeastEnd(Position(ctr), align, p);
    Unwrapped(Start(ctr, align) + size);
    LeastEnd(Start(ctr, align) + size, align, end);
  }

  /** A request that does not wrap is refused exactly when there is no room for it. */
  lemma RefusedIffNoRoom(ctr: U64, size: U64, align: U64)
    requires PowerOfTwo(align) && Position(ctr) < 2 * SUBRANGE && Honest(ctr, size, align)
    ensures Reserve(ctr, size, align).OutOfMemory? <==> !HasRoom(Position(ctr), size, align)
  {
    var pos, top := Start(ctr, align), Top(ctr, size, align);
    if top <= SUBRANGE {
      Rounding(ctr, size, align, pos);
      RoundingDown((((pos + size) % TWO64) + (align - 1)) % TWO64, align);
      assert FitsAt(pos, top, Position(ctr), size, align);
    } else if HasRoom(Position(ctr), size, align) {
      var p: nat, end: nat :| FitsAt(p, end, Position(ctr), size, align);
      RoomIsUsed(ctr, size, align, p, end);
    }
  }

  /** A granted block lies at the first place, the position moves no further than needed, and so do commits. */
  lemma ReservedIsLowest(ctr: U64, size: U64, align: U64, p: nat, end: nat)
    requires PowerOfTwo(align) && Position(ctr) < 2 * SUBRANGE && Committed(ctr) <= SUBRANGE
    requires Reserve(ctr, size, align).Reserved? && FitsAt(p, end, Position(ctr), size, align)
    ensures var r := Reserve(ctr, size, align);
            && r.pos <= p && Position(r.ctr) <= end
            && (Position(r.ctr) <= r.olda ==> r.newa == r.olda)
            && (r.olda < Position(r.ctr) ==> r.newa < Position(r.ctr) + UNIT)
  {
    RoomIsUsed(ctr, size, align, p, end);
    MovePosition(ctr, Top(ctr, size, align));
    AlignSpec(Top(ctr, size, align), UNIT);
  }

  lemma DecideSpec(ctr: U64, pos: U64, top: U64)
    requires Position(ctr) < 2 * SUBRANGE && Committed(ctr) <= SUBRANGE && Committed(ctr) % UNIT == 0
    ensures match Decide(ctr, pos, top)
            case OutOfMemory(after) =>
              && SUBRANGE < top && Committed(after) == Committed(ctr)
              && Position(ctr) <= Position(after) && SUBRANGE <= Position(after) < 2 * SUBRANGE
            case Reserved(after, pos', olda, newa) =>
              && pos' == pos && Position(after) == top <= SUBRANGE
              && Committed(after) == Committed(ctr) == olda <= newa <= SUBRANGE
              && newa % UNIT == 0 && top <= newa
  {
    if top > SUBRANGE {
      SetFullSpec(ctr);
    } else {
      NextUnit(top);
      MovePosition(ctr, top);
    }
  }

  lemma SplitCounter(high: nat, low: nat)
    requires high <= SUBRANGE && low < TWO32
    ensures high * TWO32 + low < TWO64
    ensures (high * TWO32 + low) % TWO32 == low && (high * TWO32 + low) / TWO32 == high
  {
  }

  lemma FullQuotient(high: nat, low: nat)
    requires low < 0x8000_0000
    ensures (high * 0x1_0000_0000 + low) / 0x4000_0000 == 4 * high + (if low < 0x4000_0000 then 0 else 1)
  {
  }

  lemma Parity(high: nat, half: nat)
    requires half < 2
    ensures (4 * high + half) % 2 == half
  {
    var q, n := 2 * high, 4 * high + half;
    QuotientOf(q, half, 2);
    assert n == q * 2 + half;
  }

  lemma SetFullAt(high: nat, low: nat)
    requires high <= SUBRANGE && low < 2 * SUBRANGE && high * TWO32 + low < TWO64
    ensures SetFull(high * TWO32 + low) == high * TWO32 + (if low < SUBRANGE then low + SUBRANGE else low)
  {
    FullQuotient(high, low);
    Parity(high, if low < SUBRANGE then 0 else 1);
  }

  lemma SetFullSpec(ctr: U64)
    requires Position(ctr) < 2 * SUBRANGE && Committed(ctr) <= SUBRANGE
    ensures Committed(SetFull(ctr)) == Committed(ctr)
    ensures SUBRANGE <= Position(SetFull(ctr)) < 2 * SUBRANGE
    ensures Position(ctr) <= Position(SetFull(ctr))
  {
    var high, low := Committed(ctr), Position(ctr);
    var full := if low < SUBRANGE then low + SUBRANGE else low;
    assert ctr == high * TWO32 + low;
    SetFullAt(high, low);
    SplitCounter(high, full);
  }

  lemma AcknowledgeSpec(ctr: U64, newa: U64)
    requires newa <= SUBRANGE && Committed(ctr) <= SUBRANGE
    ensures Position(Acknowledge(ctr, newa)) == Position(ctr)
    ensures Committed(Acknowledge(ctr, newa)) == if Committed(ctr) < newa then newa else Committed(ctr)
  {
    SplitCounter(newa, Position(ctr));
  }

  lemma CommitSpec(pages: set<nat>, olda: nat, newa: nat)
    requires CommittedTo(pages, olda)
    ensures CommittedTo(pages + Units(olda, newa), newa)
  {
    forall u: nat | u * UNIT < newa ensures u in pages + Units(olda, newa) {
      if olda <= u * UNIT {
        assert Meets(u, olda, newa) && u <= newa;
      }
    }
  }

  // ----- Every step keeps the invariant -----

  lemma ReserveBlocks(s: State, th: Thread, size: U64, align: U64, r: Reservation, t: State)
    requires Invariant(s) && ReservationOk(s.ctr, size, align, r) && AfterReserve(s, th, size, align, r, t)
    ensures Ordered(t.reserved)
    ensures forall i :: 0 <= i < |t.reserved| ==> BlockOk(t.reserved[i]) && t.reserved[i].End() <= Position(t.ctr)
  {
  }

  lemma ReserveKeeps(s: State, th: Thread, size: U64, align: U64, r: Reservation, t: State)
    requires Invariant(s) && th !in s.active
    requires ReservationOk(s.ctr, size, align, r) && AfterReserve(s, th, size, align, r, t)
    ensures Invariant(t)
  {
    ReserveBlocks(s, th, size, align, r, t);
    ReserveActive(s, th, size, align, r, t);
    IdsKept(s, th, t);
  }

  lemma ReserveActive(s: State, th: Thread, size: U64, align: U64, r: Reservation, t: State)
    requires Invariant(s) && th !in s.active
    requires ReservationOk(s.ctr, size, align, r) && AfterReserve(s, th, size, align, r, t)
    ensures forall x :: x in t.active ==> ActiveOk(t, x)
    ensures forall k :: 0 <= k < |t.returned| ==> ReturnedOk(t, t.returned[k])
  {
    forall x | x in t.active ensures ActiveOk(t, x) {
      assert x != th ==> ActiveOk(s, x);
    }
    forall k | 0 <= k < |t.returned| ensures ReturnedOk(t, t.returned[k]) {
      assert ReturnedOk(s, s.returned[k]);
    }
  }

  /** Reserving takes a new number, so no reservation is handed out twice. */
  lemma IdsKept(s: State, th: Thread, t: State)
    requires Invariant(s) && t.returned == s.returned
    requires forall x :: x in t.active && x != th ==> x in s.active && t.active[x].id == s.active[x].id
    requires th in t.active ==> t.active[th].id == |s.reserved| || (th in s.active && t.active[th].id == s.active[th].id)
    ensures NoneTwice(t)
  {
    forall x | x in s.active ensures s.active[x].id < |s.reserved| {
      assert ActiveOk(s, x);
    }
    forall k | 0 <= k < |s.returned| ensures s.returned[k] < |s.reserved| {
      assert ReturnedOk(s, s.returned[k]);
    }
  }

  lemma CommitKeeps(s: State, th: Thread, t: State)
    requires Invariant(s) && Next(s, DoCommit(th), t)
    ensures Invariant(t)
  {
    assert ActiveOk(s, th);
    var phase := s.active[th].phase;
    CommitSpec(s.pages, phase.olda, phase.newa);
    forall x | x in t.active ensures ActiveOk(t, x) {
      assert ActiveOk(s, x);
      MorePages(s, t, s.active[x]);
    }
    forall k | 0 <= k < |t.returned| ensures ReturnedOk(t, t.returned[k]) {
      assert ReturnedOk(s, s.returned[k]);
    }
    IdsKept(s, th, t);
  }

  lemma MorePages(s: State, t: State, a: Allocation)
    requires s.pages <= t.pages && AllocationOk(s, a)
    ensures AllocationOk(t, a)
  {
  }

  lemma AcknowledgeKeeps(s: State, th: Thread, t: State)
    requires Invariant(s) && Next(s, DoAcknowledge(th), t)
    ensures Invariant(t)
  {
    assert ActiveOk(s, th);
    AcknowledgeSpec(s.ctr, s.active[th].phase.newa);
    forall x | x in t.active ensures ActiveOk(t, x) {
      assert ActiveOk(s, x);
    }
    forall k | 0 <= k < |t.returned| ensures ReturnedOk(t, t.returned[k]) {
      assert ReturnedOk(s, s.returned[k]);
    }
  }

  lemma ReturnKeeps(s: State, th: Thread, t: State)
    requires Invariant(s) && Next(s, DoReturn(th), t)
    ensures Invariant(t)
  {
    assert ActiveOk(s, th);
    forall x | x in t.active ensures ActiveOk(t, x) {
      assert ActiveOk(s, x);
    }
    forall k | 0 <= k < |t.returned| ensures ReturnedOk(t, t.returned[k]) {
      assert k < |s.returned| ==> ReturnedOk(s, s.returned[k]);
    }
  }

  /** Every step but a dishonest reservation keeps the invariant. */
  lemma NextKeepsInvariant(s: State, step: Step, t: State)
    requires Invariant(s) && Next(s, step, t)
    requires step.DoReserve? && 0 < step.align ==> Honest(s.ctr, step.size, step.align)
    ensures Invariant(t)
  {
    match step
    case DoReserve(th, size, align) =>
      ReserveExact(s.ctr, size, align);
      ReserveKeeps(s, th, size, align, Reserve(s.ctr, size, align), t);
    case DoCommit(th) => CommitKeeps(s, th, t);
    case DoAcknowledge(th) => AcknowledgeKeeps(s, th, t);
    case DoReturn(th) => ReturnKeeps(s, th, t);
  }

  // ----- Whole runs -----

  datatype Run = Run(states: seq<State>, steps: seq<Step>) {
    ghost predicate StepAt(i: nat)
      requires i < |steps| && |states| == |steps| + 1
    {
      Next(states[i], steps[i], states[i + 1])
    }

    ghost predicate Valid() {
      && |states| == |steps| + 1
      && states[0] == INITIAL
      && forall i :: 0 <= i < |steps| ==> StepAt(i)
    }

    ghost predicate HonestAt(i: nat)
      requires i < |steps| && |states| == |steps| + 1
    {
      steps[i].DoReserve? && 0 < steps[i].align ==> Honest(states[i].ctr, steps[i].size, steps[i].align)
    }

    /** The first k steps hold no request that wraps and is granted for it. */
    ghost predicate HonestUntil(k: nat) {
      |states| == |steps| + 1 && k <= |steps| && forall i :: 0 <= i < k ==> HonestAt(i)
    }
  }

  lemma {:induction false} ReachableInvariant(run: Run, k: nat)
    requires run.Valid() && k < |run.states| && run.HonestUntil(k)
    ensures Invariant(run.states[k])
  {
    if k > 0 {
      ReachableInvariant(run, k - 1);
      assert run.StepAt(k - 1) && run.HonestAt(k - 1);
      NextKeepsInvariant(run.states[k - 1], run.steps[k - 1], run.states[k]);
    }
  }

  /**
   * As long as no request wrapped, every block handed out so far is aligned as requested, lies
   * inside the 1 GiB subrange and in committed memory, and no two of them share an address.
   */
  lemma ReturnedBlocksAreSound(run: Run, k: nat, i: nat, addr: nat)
    requires run.Valid() && k < |run.states| && run.HonestUntil(k) && i < |run.states[k].returned|
    ensures var s := run.states[k];
            && s.returned[i] < |s.reserved|
            && var b := s.reserved[s.returned[i]];
               && 0 < b.align && b.pos % b.align == 0 && b.End() <= SUBRANGE
               && (b.pos <= addr < b.End() ==>
                     && addr / UNIT in s.pages
                     && forall j :: 0 <= j < |s.returned| && j != i && s.returned[j] < |s.reserved| ==>
                          var c := s.reserved[s.returned[j]]; !(c.pos <= addr < c.End()))
  {
    ReachableInvariant(run, k);
    var s := run.states[k];
    assert ReturnedOk(s, s.returned[i]);
    var b := s.reserved[s.returned[i]];
    if b.pos <= addr < b.End() {
      assert addr / UNIT * UNIT <= addr;
      forall j | 0 <= j < |s.returned| && j != i && s.returned[j] < |s.reserved|
        ensures var c := s.reserved[s.returned[j]]; !(c.pos <= addr < c.End())
      {
        assert s.returned[i] != s.returned[j];
      }
    }
  }

  lemma {:induction false} FailureIsRemembered(run: Run, k: nat, j: nat)
    requires run.Valid() && k <= j < |run.states| && run.states[k].failed
    ensures run.states[j].failed
    decreases j
  {
    if k < j {
      FailureIsRemembered(run, k, j - 1);
      assert run.StepAt(j - 1);
    }
  }

  /** Once some request ran out of memory, a later non-empty request does too unless it wraps. */
  lemma OutOfMemoryIsPermanent(run: Run, k: nat, j: nat)
    requires run.Valid() && k <= j < |run.steps| && run.states[k].failed && run.HonestUntil(j)
    requires run.steps[j].DoReserve? && 0 < run.steps[j].size
    ensures 0 < run.steps[j].align
    ensures var refused := Reserve(run.states[j].ctr, run.steps[j].size, run.steps[j].align).OutOfMemory?;
            && (refused <==> Honest(run.states[j].ctr, run.steps[j].size, run.steps[j].align))
            && (refused ==> run.states[j + 1].reserved == run.states[j].reserved)
  {
    FailureIsRemembered(run, k, j);
    ReachableInvariant(run, j);
    assert run.StepAt(j);
    ReserveExact(run.states[j].ctr, run.steps[j].size, run.steps[j].align);
  }

  /**
   * The condition is exact: the first request that wraps and is granted gets a block that does not
   * lie inside the subrange.
   */
  lemma DishonestIsUnsound(run: Run, j: nat)
    requires run.Valid() && j < |run.steps| && run.HonestUntil(j) && run.steps[j].DoReserve?
    ensures var s, t := run.states[j], run.states[j + 1];
            run.HonestAt(j) <==>
              (t.reserved == s.reserved || (|t.reserved| == |s.reserved| + 1 && BlockOk(t.reserved[|s.reserved|])))
  {
    ReachableInvariant(run, j);
    assert run.StepAt(j);
    var step := run.steps[j];
    StartSpec(run.states[j].ctr, step.align);
    Rounding(run.states[j].ctr, step.size, step.align, Start(run.states[j].ctr, step.align));
  }

  /** Such a request exists: it is granted, and the counter moves backwards over memory already handed out. */
  lemma WrappingSizeIsGranted()
    ensures Reserve(0x40, 0xffff_ffff_ffff_ffd0, 16) == Reserved(0x10, 0x40, 0, UNIT)
    ensures !Honest(0x40, 0xffff_ffff_ffff_ffd0, 16)
  {
  }
}
