/**
 * The condition variable of core/Utilities/cond.h and cond.cpp.
 *
 * One 32-bit word packs a waiter count (low 13 bits) and a signal count (high 19 bits). Each
 * read-modify-write of that word is one atomic step; between two steps of one thread every other
 * thread may take steps of its own. The module proves that no interleaving loses a wake-up.
 */
module CondVariable {

  type U32 = x: int | 0 <= x < 0x1_0000_0000

  /** One more than c_waiter_mask: the weight of one signal. */
  const SIGNAL_UNIT := 0x2000

  /** c_waiter_mask, and c_signal_mask shifted down to its lowest bit. */
  const MAX_WAITERS := 0x1fff
  const MAX_SIGNALS := 0x7_ffff

  /** value & c_waiter_mask */
  function Waiters(value: U32): nat {
    value % SIGNAL_UNIT
  }

  /** (value & c_signal_mask), counted in signals */
  function Signals(value: U32): nat {
    value / SIGNAL_UNIT
  }

  // ----- The three atomic updates of the word -----

  /** Body of add_waiter: the new word and the value handed back, 0 when the caller must not wait. */
  function Register(value: U32): (U32, U32) {
    if Signals(value) == MAX_SIGNALS || Waiters(value) == MAX_WAITERS then (value, 0)
    else (value + 1, value + 1)
  }

  /** The fetch_op of imp_wake: the new word, and whether a signal was added. */
  function AddSignal(value: U32): (U32, bool) {
    if value == 0 || Signals(value) == MAX_SIGNALS then (value, false)
    else (value + SIGNAL_UNIT, true)
  }

  /** The cleanup at the end of imp_wait, u32 wrap-around included. */
  function Unregister(value: U32): U32 {
    var less := (value - 1) % 0x1_0000_0000;
    if Waiters(less) == 0 then 0 else less
  }

  /** The object itself: the fields and updates of the source, proved against the functions above. */
  class Cond {
    var value: U32

    constructor ()
      ensures value == 0
    {
      value := 0;
    }

    method AddWaiter() returns (saved: U32)
      modifies this
      ensures (value, saved) == Register(old(value))
      ensures saved == 0 <==> Signals(old(value)) == MAX_SIGNALS || Waiters(old(value)) == MAX_WAITERS
      ensures saved == 0 ==> value == old(value)
      ensures saved != 0 ==> saved == value && Waiters(value) == Waiters(old(value)) + 1
      ensures Signals(value) == Signals(old(value))
    {
      if value / SIGNAL_UNIT == MAX_SIGNALS || value % SIGNAL_UNIT == MAX_WAITERS {
        return 0;
      }
      value := value + 1;
      saved := value;
    }

    method Wake() returns (ok: bool)
      modifies this
      ensures (value, ok) == AddSignal(old(value))
      ensures ok <==> old(value) != 0 && Signals(old(value)) < MAX_SIGNALS
      ensures Waiters(value) == Waiters(old(value))
      ensures Signals(value) == Signals(old(value)) + if ok then 1 else 0
    {
      if value == 0 || value / SIGNAL_UNIT == MAX_SIGNALS {
        return false;
      }
      value := value + SIGNAL_UNIT;
      ok := true;
    }

    method RemoveWaiter()
      requires Waiters(value) > 0
      modifies this
      ensures value == Unregister(old(value))
      ensures Waiters(value) == Waiters(old(value)) - 1
      ensures Signals(value) == if Waiters(old(value)) == 1 then 0 else Signals(old(value))
    {
      value := value - 1;
      if value % SIGNAL_UNIT == 0 {
        value := 0;
      }
    }
  }

  // ----- All interleavings -----

  type Thread = nat

  /**
   * waiting: threads between add_waiter and the cleanup of imp_wait, with the value each saved.
   * notifying: threads that read a non-zero word in notify_one/notify_all and still have to call
   * imp_wake.
   */
  datatype State = State(value: U32, waiting: map<Thread, U32>, notifying: set<Thread>)

  const INITIAL := State(0, map[], {})

  datatype Step =
    | DoRegister(thread: Thread)
    | DoNotifyLoad(thread: Thread)
    | DoWake(thread: Thread)
    | DoCleanup(thread: Thread)

  /** A cleanup may come at any time: the wait also ends by timeout or without any reason. */
  ghost predicate Next(s: State, step: Step, t: State) {
    match step
    case DoRegister(th) =>
      && th !in s.waiting && th !in s.notifying
      && var (value, saved) := Register(s.value);
         t == s.(value := value, waiting := if saved == 0 then s.waiting else s.waiting[th := saved])
    case DoNotifyLoad(th) =>
      && th !in s.waiting && th !in s.notifying
      && t == s.(notifying := if s.value == 0 then s.notifying else s.notifying + {th})
    case DoWake(th) =>
      && th in s.notifying
      && t == s.(value := AddSignal(s.value).0, notifying := s.notifying - {th})
    case DoCleanup(th) =>
      && th in s.waiting
      && t == s.(value := Unregister(s.value), waiting := s.waiting - {th})
  }

  ghost predicate Invariant(s: State) {
    && Waiters(s.value) == |s.waiting|
    && (s.waiting == map[] ==> s.value == 0)
    && forall th :: th in s.waiting ==>
         && 0 < Waiters(s.waiting[th])
         && Signals(s.waiting[th]) < MAX_SIGNALS
         && Signals(s.waiting[th]) <= Signals(s.value)
  }

  lemma RemoveOne(m: map<Thread, U32>, th: Thread)
    requires th in m
    ensures |m - {th}| == |m| - 1
  {
    assert (m - {th}).Keys == m.Keys - {th};
  }

  lemma AddOne(m: map<Thread, U32>, th: Thread, saved: U32)
    requires th !in m
    ensures |m[th := saved]| == |m| + 1
  {
    assert m[th := saved].Keys == m.Keys + {th};
  }

  /** What each atomic update does to the two counts. */
  lemma RegisterCounts(value: U32)
    ensures var (after, saved) := Register(value);
            if saved == 0 then after == value && (Signals(value) == MAX_SIGNALS || Waiters(value) == MAX_WAITERS)
            else after == saved && Signals(value) == Signals(saved) < MAX_SIGNALS
                 && Waiters(saved) == Waiters(value) + 1
  {
  }

  lemma AddSignalCounts(value: U32)
    ensures var (after, ok) := AddSignal(value);
            && Waiters(after) == Waiters(value)
            && (ok ==> Signals(after) == Signals(value) + 1)
            && (!ok ==> after == value && (value == 0 || Signals(value) == MAX_SIGNALS))
  {
  }

  lemma UnregisterCounts(value: U32)
    requires 0 < Waiters(value)
    ensures Waiters(Unregister(value)) == Waiters(value) - 1
    ensures Waiters(value) == 1 ==> Unregister(value) == 0
    ensures Waiters(value) > 1 ==> Signals(Unregister(value)) == Signals(value)
  {
    assert (value - 1) % 0x1_0000_0000 == value - 1;
  }

  lemma WaiterMeansNonEmpty(s: State, th: Thread)
    requires Invariant(s) && th in s.waiting
    ensures 0 < Waiters(s.value) && s.value != 0
  {
    RemoveOne(s.waiting, th);
  }

  lemma RegisterKeepsInvariant(s: State, th: Thread, t: State)
    requires Invariant(s) && Next(s, DoRegister(th), t)
    ensures Invariant(t)
  {
    RegisterCounts(s.value);
    var (value, saved) := Register(s.value);
    if saved != 0 {
      AddOne(s.waiting, th, saved);
      assert t.waiting[th] == saved;
    }
  }

  lemma WakeKeepsInvariant(s: State, th: Thread, t: State)
    requires Invariant(s) && Next(s, DoWake(th), t)
    ensures Invariant(t)
  {
    AddSignalCounts(s.value);
  }

  lemma CleanupKeepsInvariant(s: State, th: Thread, t: State)
    requires Invariant(s) && Next(s, DoCleanup(th), t)
    ensures Invariant(t)
    ensures t.waiting != map[] ==> Signals(t.value) == Signals(s.value)
  {
    RemoveOne(s.waiting, th);
    UnregisterCounts(s.value);
    if t.waiting == map[] {
      assert |t.waiting| == 0;
    } else {
      var other :| other in t.waiting;
      RemoveOne(t.waiting, other);
    }
  }

  lemma NextKeepsInvariant(s: State, step: Step, t: State)
    requires Invariant(s) && Next(s, step, t)
    ensures Invariant(t)
  {
    match step
    case DoRegister(th) => RegisterKeepsInvariant(s, th, t);
    case DoNotifyLoad(th) =>
    case DoWake(th) => WakeKeepsInvariant(s, th, t);
    case DoCleanup(th) => CleanupKeepsInvariant(s, th, t);
  }

  /** One step of a run in which th goes on waiting. */
  lemma StepWhileWaiting(s: State, step: Step, t: State, th: Thread)
    requires Invariant(s) && Next(s, step, t)
    requires th in s.waiting && step != DoCleanup(th)
    ensures th in t.waiting && t.waiting[th] == s.waiting[th]
    ensures Signals(s.value) <= Signals(t.value)
    ensures step.DoWake? ==> Signals(s.waiting[th]) < Signals(t.value)
  {
    match step
    case DoRegister(_) => RegisterCounts(s.value);
    case DoNotifyLoad(_) =>
    case DoWake(_) =>
      WaiterMeansNonEmpty(s, th);
      AddSignalCounts(s.value);
    case DoCleanup(other) =>
      CleanupKeepsInvariant(s, other, t);
  }

  /** A run: states[0] is initial and steps[i] leads from states[i] to states[i + 1]. */
  datatype Run = Run(states: seq<State>, steps: seq<Step>) {
    ghost predicate Valid() {
      && |states| == |steps| + 1
      && states[0] == INITIAL
      && forall i :: 0 <= i < |steps| ==> Next(states[i], steps[i], states[i + 1])
    }
  }

  lemma {:induction false} ReachableInvariant(run: Run, k: nat)
    requires run.Valid() && k < |run.states|
    ensures Invariant(run.states[k])
  {
    if k > 0 {
      ReachableInvariant(run, k - 1);
      NextKeepsInvariant(run.states[k - 1], run.steps[k - 1], run.states[k]);
    }
  }

  /** Thread th stays inside one and the same wait from state i up to state j. */
  ghost predicate WaitsThroughout(run: Run, th: Thread, i: nat, j: nat)
    requires run.Valid() && i <= j < |run.states|
  {
    && th in run.states[i].waiting
    && forall k :: i <= k < j ==> run.steps[k] != DoCleanup(th)
  }

  /** While th waits, its saved value stays and the signal count of the word never falls. */
  lemma {:induction false} SignalsOnlyGrow(run: Run, th: Thread, i: nat, j: nat)
    requires run.Valid() && i <= j < |run.states|
    requires WaitsThroughout(run, th, i, j)
    ensures th in run.states[j].waiting
    ensures run.states[j].waiting[th] == run.states[i].waiting[th]
    ensures Signals(run.states[i].value) <= Signals(run.states[j].value)
    decreases j
  {
    if i < j {
      SignalsOnlyGrow(run, th, i, j - 1);
      ReachableInvariant(run, j - 1);
      StepWhileWaiting(run.states[j - 1], run.steps[j - 1], run.states[j], th);
    }
  }

  /**
   * No lost wake-up. Whatever the other threads do: if some imp_wake runs at step w while th
   * waits, the word differs from the value th saved in every later state of that wait, also when
   * the signal count was already saturated. So the atomic wait th performs, which sleeps only
   * while the word equals the saved value, cannot put th to sleep past that wake.
   */
  lemma NoLostWakeUp(run: Run, th: Thread, w: nat, j: nat)
    requires run.Valid() && w < j < |run.states|
    requires run.steps[w].DoWake?
    requires WaitsThroughout(run, th, w, j)
    ensures th in run.states[j].waiting
    ensures run.states[j].value != run.states[j].waiting[th]
    ensures Signals(run.states[j].waiting[th]) < Signals(run.states[j].value)
  {
    ReachableInvariant(run, w);
    StepWhileWaiting(run.states[w], run.steps[w], run.states[w + 1], th);
    SignalsOnlyGrow(run, th, w + 1, j);
  }

  /** A thread that wants to wait does, unless 8191 threads wait already or the signals are saturated. */
  lemma RegistersIff(run: Run, i: nat)
    requires run.Valid() && i < |run.steps| && run.steps[i].DoRegister?
    ensures run.steps[i].thread in run.states[i + 1].waiting
       <==> |run.states[i].waiting| < MAX_WAITERS && Signals(run.states[i].value) < MAX_SIGNALS
  {
    ReachableInvariant(run, i);
    assert Next(run.states[i], run.steps[i], run.states[i + 1]);
    RegisterCounts(run.states[i].value);
  }

  /** Every wake that finds a waiter counts, until the count is saturated. */
  lemma WakesAreCounted(run: Run, i: nat)
    requires run.Valid() && i < |run.steps| && run.steps[i].DoWake? && run.states[i].waiting != map[]
    ensures var before := Signals(run.states[i].value);
            Signals(run.states[i + 1].value) == if before == MAX_SIGNALS then before else before + 1
    ensures run.states[i + 1].waiting == run.states[i].waiting
  {
    ReachableInvariant(run, i);
    assert Next(run.states[i], run.steps[i], run.states[i + 1]);
    AddSignalCounts(run.states[i].value);
    var th :| th in run.states[i].waiting;
    WaiterMeansNonEmpty(run.states[i], th);
  }

  /** The cheap test of notify_one/notify_all gives up only when nobody waits at that moment. */
  lemma NotifySkipsOnlyWithoutWaiters(run: Run, i: nat)
    requires run.Valid() && i < |run.steps| && run.steps[i].DoNotifyLoad?
    ensures run.steps[i].thread in run.states[i + 1].notifying <==> run.states[i].waiting != map[]
  {
    ReachableInvariant(run, i);
    assert Next(run.states[i], run.steps[i], run.states[i + 1]);
    if run.states[i].value == 0 {
      assert |run.states[i].waiting| == 0;
    }
  }

  /** Signals are forgotten exactly when the last waiter leaves: an idle word is always 0. */
  lemma IdleWordIsZero(run: Run, i: nat)
    requires run.Valid() && i < |run.states|
    ensures run.states[i].value == 0 <==> run.states[i].waiting == map[]
    ensures Waiters(run.states[i].value) == |run.states[i].waiting|
  {
    ReachableInvariant(run, i);
    if run.states[i].value == 0 {
      assert |run.states[i].waiting| == 0;
    }
  }
}
