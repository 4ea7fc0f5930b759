/**
 * The append-only list lf_bunch of core/Utilities/lockless.h: push adds unconditionally, push_if
 * adds only an item whose predicate holds against every item already linked. After a failed
 * compare-exchange push_if looks only at the items that arrived since its last look. The module
 * proves that this is enough under every interleaving of insertions of both kinds.
 */
module LockFreeBunch {

  type Thread = nat

  /** 0 is the null pointer. */
  type Addr = nat

  datatype Node<T> = Node(link: Addr, data: T)

  /**
   * A thread inside push or push_if (guarded). seen, checked and ptr are the locals _old, _chk and
   * ptr. seenAt, checkedAt and ptrAt say how many items were linked at or before the node each of
   * them names; they are history and no step reads them.
   */
  datatype Inserter<T> =
    | Starting(seen: Addr, seenAt: nat, data: T)
    | Linking(item: Addr, seen: Addr, checked: Addr, seenAt: nat, checkedAt: nat)
    | Checking(item: Addr, seen: Addr, checked: Addr, ptr: Addr, seenAt: nat, checkedAt: nat, ptrAt: nat)
    | Swapping(item: Addr, seen: Addr, seenAt: nat)

  /** History: order lists the linked nodes, oldest first; viaPushIf says how each came in. */
  datatype State<T> = State(
    heap: map<Addr, Node<T>>,
    head: Addr,
    active: map<Thread, Inserter<T>>,
    guarded: map<Thread, bool>,
    order: seq<Addr>,
    viaPushIf: seq<bool>)

  function Initial<T>(): State<T> {
    State(map[], 0, map[], map[], [], [])
  }

  datatype Step<T> =
    | Load(thread: Thread, data: T, pushIf: bool)
    | Alloc(thread: Thread, item: Addr)
    | Link(thread: Thread)
    | CheckPass(thread: Thread)
    | CheckFail(thread: Thread)
    | CheckEnd(thread: Thread)
    | Swap(thread: Thread)
    | Retry(thread: Thread)

  /** The node that was the head when n items were linked. */
  function NodeAt(order: seq<Addr>, n: nat): Addr
    requires n <= |order|
  {
    if n == 0 then 0 else order[n - 1]
  }

  // A step dereferences only nodes that are in the heap: see the invariant.
  ghost predicate NextLoad<T>(s: State<T>, th: Thread, data: T, pushIf: bool, t: State<T>) {
    && th !in s.active
    && t == s.(active := s.active[th := Starting(s.head, |s.order|, data)],
               guarded := s.guarded[th := pushIf])
  }

  ghost predicate NextAlloc<T>(s: State<T>, th: Thread, item: Addr, t: State<T>) {
    && th in s.active && s.active[th].Starting? && item != 0 && item !in s.heap
    && var me := s.active[th];
       t == s.(heap := s.heap[item := Node(me.seen, me.data)],
               active := s.active[th := Linking(item, me.seen, 0, me.seenAt, 0)])
  }

  ghost predicate NextLink<T>(s: State<T>, th: Thread, t: State<T>) {
    && th in s.active && s.active[th].Linking? && th in s.guarded && s.active[th].item in s.heap
    && var me := s.active[th];
       t == s.(heap := s.heap[me.item := Node(me.seen, s.heap[me.item].data)],
               active := s.active[th :=
                 if s.guarded[th]
                 then Checking(me.item, me.seen, me.checked, me.seen, me.seenAt, me.checkedAt, me.seenAt)
                 else Swapping(me.item, me.seen, me.seenAt)])
  }

  ghost predicate NextCheckPass<T>(pred: (T, T) -> bool, s: State<T>, th: Thread, t: State<T>) {
    && AtCheck(s, th)
    && var me := s.active[th];
       && pred(s.heap[me.item].data, s.heap[me.ptr].data)
       && t == s.(active := s.active[th := me.(ptr := s.heap[me.ptr].link,
                                               ptrAt := if me.ptrAt == 0 then 0 else me.ptrAt - 1)])
  }

  ghost predicate NextCheckFail<T>(pred: (T, T) -> bool, s: State<T>, th: Thread, t: State<T>) {
    && AtCheck(s, th)
    && var me := s.active[th];
       && !pred(s.heap[me.item].data, s.heap[me.ptr].data)
       && t == s.(heap := s.heap - {me.item}, active := s.active - {th})
  }

  ghost predicate NextCheckEnd<T>(s: State<T>, th: Thread, t: State<T>) {
    && th in s.active && s.active[th].Checking? && s.active[th].ptr == s.active[th].checked
    && var me := s.active[th];
       t == s.(active := s.active[th := Swapping(me.item, me.seen, me.seenAt)])
  }

  ghost predicate NextSwap<T>(s: State<T>, th: Thread, t: State<T>) {
    && th in s.active && th in s.guarded && s.active[th].Swapping? && s.head == s.active[th].seen
    && var me := s.active[th];
       t == s.(head := me.item, active := s.active - {th},
               order := s.order + [me.item], viaPushIf := s.viaPushIf + [s.guarded[th]])
  }

  ghost predicate NextRetry<T>(s: State<T>, th: Thread, t: State<T>) {
    && th in s.active && s.active[th].Swapping? && s.head != s.active[th].seen
    && var me := s.active[th];
       t == s.(active := s.active[th := Linking(me.item, s.head, me.seen, |s.order|, me.seenAt)])
  }

  ghost predicate Next<T>(pred: (T, T) -> bool, s: State<T>, step: Step<T>, t: State<T>) {
    match step
    case Load(th, data, pushIf) => NextLoad(s, th, data, pushIf, t)
    case Alloc(th, item) => NextAlloc(s, th, item, t)
    case Link(th) => NextLink(s, th, t)
    case CheckPass(th) => NextCheckPass(pred, s, th, t)
    case CheckFail(th) => NextCheckFail(pred, s, th, t)
    case CheckEnd(th) => NextCheckEnd(s, th, t)
    case Swap(th) => NextSwap(s, th, t)
    case Retry(th) => NextRetry(s, th, t)
  }

  ghost predicate AtCheck<T>(s: State<T>, th: Thread) {
    && th in s.active && s.active[th].Checking? && s.active[th].ptr != s.active[th].checked
    && s.active[th].item in s.heap && s.active[th].ptr in s.heap
  }

  // ----- Invariant -----

  ghost predicate LinksBack<T>(s: State<T>, i: nat)
    requires i < |s.order|
  {
    s.order[i] in s.heap && s.heap[s.order[i]].link == NodeAt(s.order, i)
  }

  /** The linked nodes: distinct, each linking to the one before it, the last one the head. */
  ghost predicate ListOk<T>(s: State<T>) {
    && |s.viaPushIf| == |s.order| && s.head == NodeAt(s.order, |s.order|)
    && (forall i :: 0 <= i < |s.order| ==> s.order[i] != 0 && s.order[i] in s.heap)
    && (forall i :: 0 <= i < |s.order| ==> LinksBack(s, i))
    && forall i, j :: 0 <= i < j < |s.order| ==> s.order[i] != s.order[j]
  }

  /** The predicate held for x against the items linked as numbers lo to hi - 1. */
  ghost predicate Passed<T>(pred: (T, T) -> bool, s: State<T>, x: T, lo: nat, hi: nat)
    requires hi <= |s.order| && ListOk(s)
  {
    forall i :: lo <= i < hi ==> pred(x, s.heap[s.order[i]].data)
  }

  ghost predicate PrivateItem<T>(s: State<T>, th: Thread, item: Addr) {
    && item != 0 && item in s.heap && item !in s.order
    && forall other :: other in s.active && other != th && !s.active[other].Starting? ==>
                         s.active[other].item != item
  }

  ghost predicate InserterOk<T>(pred: (T, T) -> bool, s: State<T>, th: Thread)
    requires ListOk(s) && th in s.active
  {
    var me := s.active[th];
    && th in s.guarded
    && me.seenAt <= |s.order| && me.seen == NodeAt(s.order, me.seenAt)
    && (!me.Starting? ==> PrivateItem(s, th, me.item))
    && match me
       case Starting(_, _, _) => true
       case Linking(item, seen, checked, seenAt, checkedAt) =>
         && checkedAt <= seenAt && checked == NodeAt(s.order, checkedAt)
         && (s.guarded[th] ==> Passed(pred, s, s.heap[item].data, 0, checkedAt))
       case Checking(item, seen, checked, ptr, seenAt, checkedAt, ptrAt) =>
         && s.heap[item].link == seen
         && checkedAt <= ptrAt <= seenAt
         && checked == NodeAt(s.order, checkedAt) && ptr == NodeAt(s.order, ptrAt)
         && Passed(pred, s, s.heap[item].data, 0, checkedAt)
         && Passed(pred, s, s.heap[item].data, ptrAt, seenAt)
       case Swapping(item, seen, seenAt) =>
         && s.heap[item].link == seen
         && (s.guarded[th] ==> Passed(pred, s, s.heap[item].data, 0, seenAt))
  }

  /** Every item that came through push_if satisfied the predicate against all earlier items. */
  ghost predicate Pairwise<T>(pred: (T, T) -> bool, s: State<T>)
    requires ListOk(s)
  {
    forall j :: 0 <= j < |s.order| && s.viaPushIf[j] ==> Passed(pred, s, s.heap[s.order[j]].data, 0, j)
  }

  ghost predicate Invariant<T>(pred: (T, T) -> bool, s: State<T>) {
    && ListOk(s)
    && Pairwise(pred, s)
    && forall th :: th in s.active ==> InserterOk(pred, s, th)
  }

  /** Two counts that name the same node are equal. */
  lemma NodeAtInjective<T>(s: State<T>, m: nat, n: nat)
    requires ListOk(s) && m <= |s.order| && n <= |s.order|
    requires NodeAt(s.order, m) == NodeAt(s.order, n)
    ensures m == n
  {
    if m > 0 { assert s.order[m - 1] != 0; }
    if n > 0 { assert s.order[n - 1] != 0; }
  }

  ghost predicate SameNodes<T>(s: State<T>, t: State<T>) {
    forall i :: 0 <= i < |s.order| && s.order[i] in s.heap ==>
                  s.order[i] in t.heap && t.heap[s.order[i]] == s.heap[s.order[i]]
  }

  /** Steps that link nothing and change no linked node. */
  ghost predicate SameList<T>(s: State<T>, t: State<T>) {
    && t.order == s.order && t.viaPushIf == s.viaPushIf && t.head == s.head
    && SameNodes(s, t)
  }

  lemma ListFrame<T>(pred: (T, T) -> bool, s: State<T>, t: State<T>)
    requires ListOk(s) && Pairwise(pred, s) && SameList(s, t)
    ensures ListOk(t) && Pairwise(pred, t)
  {
    forall i | 0 <= i < |t.order| ensures LinksBack(t, i) {
      assert LinksBack(s, i);
    }
  }

  /** The list of s is an initial part of the list of t. */
  ghost predicate Extends<T>(s: State<T>, t: State<T>) {
    && |s.order| <= |t.order|
    && (forall i :: 0 <= i < |s.order| ==> t.order[i] == s.order[i])
    && SameNodes(s, t)
  }

  lemma PassedFrame<T>(pred: (T, T) -> bool, s: State<T>, t: State<T>, x: T, lo: nat, hi: nat)
    requires ListOk(s) && ListOk(t) && Extends(s, t)
    requires hi <= |s.order| && Passed(pred, s, x, lo, hi)
    ensures Passed(pred, t, x, lo, hi)
  {
    forall i | lo <= i < hi ensures pred(x, t.heap[t.order[i]].data) {
      assert t.order[i] == s.order[i];
    }
  }

  lemma InserterFrame<T>(pred: (T, T) -> bool, s: State<T>, t: State<T>, th: Thread)
    requires ListOk(s) && ListOk(t) && Extends(s, t)
    requires th in s.active && InserterOk(pred, s, th)
    requires th in t.active && t.active[th] == s.active[th]
    requires th in t.guarded && t.guarded[th] == s.guarded[th]
    requires !s.active[th].Starting? ==>
               && s.active[th].item in t.heap && t.heap[s.active[th].item] == s.heap[s.active[th].item]
               && PrivateItem(t, th, s.active[th].item)
    ensures InserterOk(pred, t, th)
  {
    var me := s.active[th];
    assert NodeAt(t.order, me.seenAt) == NodeAt(s.order, me.seenAt);
    match me
    case Starting(_, _, _) =>
    case Linking(item, _, _, _, checkedAt) =>
      if s.guarded[th] {
        PassedFrame(pred, s, t, s.heap[item].data, 0, checkedAt);
      }
    case Checking(item, _, _, _, seenAt, checkedAt, ptrAt) =>
      PassedFrame(pred, s, t, s.heap[item].data, 0, checkedAt);
      PassedFrame(pred, s, t, s.heap[item].data, ptrAt, seenAt);
    case Swapping(item, _, seenAt) =>
      if s.guarded[th] {
        PassedFrame(pred, s, t, s.heap[item].data, 0, seenAt);
      }
  }

  lemma OthersKept<T>(pred: (T, T) -> bool, s: State<T>, step: Step<T>, t: State<T>)
    requires Invariant(pred, s) && Next(pred, s, step, t) && !step.Swap?
    ensures SameList(s, t) && ListOk(t) && Pairwise(pred, t)
    ensures forall th :: th in t.active && th != step.thread ==> InserterOk(pred, t, th)
  {
    if step.thread in s.active {
      assert InserterOk(pred, s, step.thread);
    }
    ListFrame(pred, s, t);
    forall th | th in t.active && th != step.thread ensures InserterOk(pred, t, th) {
      assert InserterOk(pred, s, th);
      InserterFrame(pred, s, t, th);
    }
  }

  lemma OwnKept<T>(pred: (T, T) -> bool, s: State<T>, step: Step<T>, t: State<T>)
    requires Invariant(pred, s) && Next(pred, s, step, t) && !step.Swap? && !step.CheckPass?
    requires SameList(s, t) && ListOk(t)
    ensures step.thread in t.active ==> InserterOk(pred, t, step.thread)
  {
    var th := step.thread;
    if th in s.active {
      assert InserterOk(pred, s, th);
      if step.CheckEnd? {
        NodeAtInjective(s, s.active[th].ptrAt, s.active[th].checkedAt);
      }
    }
  }

  /** The node under inspection is an item not checked yet; its link names the item before it. */
  lemma InspectedNode<T>(pred: (T, T) -> bool, s: State<T>, th: Thread)
    requires ListOk(s) && AtCheck(s, th) && InserterOk(pred, s, th)
    ensures var me := s.active[th];
            && me.checkedAt < me.ptrAt <= |s.order|
            && me.ptr == s.order[me.ptrAt - 1]
            && s.heap[me.ptr].link == NodeAt(s.order, me.ptrAt - 1)
  {
    var me := s.active[th];
    if me.ptrAt == me.checkedAt {
      assert false;
    }
    assert LinksBack(s, me.ptrAt - 1);
  }

  lemma CheckPassKeeps<T>(pred: (T, T) -> bool, s: State<T>, th: Thread, t: State<T>)
    requires ListOk(s) && NextCheckPass(pred, s, th, t) && InserterOk(pred, s, th) && ListOk(t)
    ensures InserterOk(pred, t, th)
  {
    InspectedNode(pred, s, th);
    var me := s.active[th];
    var x := s.heap[me.item].data;
    PassedFrame(pred, s, t, x, 0, me.checkedAt);
    assert PrivateItem(t, th, me.item);
    PassedOneMore(pred, s, t, x, me.ptrAt - 1, me.seenAt);
  }

  lemma PassedOneMore<T>(pred: (T, T) -> bool, s: State<T>, t: State<T>, x: T, at: nat, hi: nat)
    requires ListOk(s) && ListOk(t) && Extends(s, t) && at < hi <= |s.order|
    requires pred(x, s.heap[s.order[at]].data) && Passed(pred, s, x, at + 1, hi)
    ensures Passed(pred, t, x, at, hi)
  {
    assert Passed(pred, s, x, at, hi);
    PassedFrame(pred, s, t, x, at, hi);
  }

  lemma SwapKeepsList<T>(pred: (T, T) -> bool, s: State<T>, th: Thread, t: State<T>)
    requires Invariant(pred, s) && NextSwap(s, th, t)
    ensures ListOk(t) && Pairwise(pred, t)
  {
    assert InserterOk(pred, s, th);
    var me := s.active[th];
    NodeAtInjective(s, me.seenAt, |s.order|);
    forall i | 0 <= i < |t.order| ensures LinksBack(t, i) {
      if i < |s.order| {
        assert LinksBack(s, i);
      }
    }
    assert ListOk(t);
    forall j | 0 <= j < |t.order| && t.viaPushIf[j] ensures Passed(pred, t, t.heap[t.order[j]].data, 0, j) {
      if j < |s.order| {
        assert Passed(pred, s, s.heap[s.order[j]].data, 0, j);
      }
    }
  }

  lemma SwapKeepsOther<T>(pred: (T, T) -> bool, s: State<T>, th: Thread, t: State<T>, other: Thread)
    requires Invariant(pred, s) && NextSwap(s, th, t) && ListOk(t)
    requires other in t.active
    ensures InserterOk(pred, t, other)
  {
    assert InserterOk(pred, s, th) && InserterOk(pred, s, other);
    if !s.active[other].Starting? {
      assert PrivateItem(t, other, s.active[other].item);
    }
    InserterFrame(pred, s, t, other);
  }

  lemma SwapKeeps<T>(pred: (T, T) -> bool, s: State<T>, th: Thread, t: State<T>)
    requires Invariant(pred, s) && NextSwap(s, th, t)
    ensures Invariant(pred, t)
  {
    SwapKeepsList(pred, s, th, t);
    forall other | other in t.active ensures InserterOk(pred, t, other) {
      SwapKeepsOther(pred, s, th, t, other);
    }
  }

  lemma NextKeepsInvariant<T>(pred: (T, T) -> bool, s: State<T>, step: Step<T>, t: State<T>)
    requires Invariant(pred, s) && Next(pred, s, step, t)
    ensures Invariant(pred, t)
  {
    if step.Swap? {
      SwapKeeps(pred, s, step.thread, t);
    } else {
      OthersKept(pred, s, step, t);
      if step.CheckPass? {
        assert InserterOk(pred, s, step.thread);
        CheckPassKeeps(pred, s, step.thread, t);
      } else {
        OwnKept(pred, s, step, t);
      }
    }
  }

  // ----- Whole runs -----

  datatype Run<T> = Run(states: seq<State<T>>, steps: seq<Step<T>>) {
    ghost predicate Valid(pred: (T, T) -> bool) {
      && |states| == |steps| + 1
      && states[0] == Initial()
      && forall i :: 0 <= i < |steps| ==> Next(pred, states[i], steps[i], states[i + 1])
    }
  }

  lemma {:induction false} ReachableInvariant<T>(pred: (T, T) -> bool, run: Run<T>, k: nat)
    requires run.Valid(pred) && k < |run.states|
    ensures Invariant(pred, run.states[k])
  {
    if k > 0 {
      ReachableInvariant(pred, run, k - 1);
      NextKeepsInvariant(pred, run.states[k - 1], run.steps[k - 1], run.states[k]);
    }
  }

  // ----- What was inserted, told from the calls alone -----

  datatype Call<T> = Unknown | Call(data: T, pushIf: bool)

  /** The last call of push or push_if that th began. */
  function LastCall<T>(steps: seq<Step<T>>, th: Thread): Call<T> {
    if steps == [] then Unknown
    else
      var last := steps[|steps| - 1];
      if last.Load? && last.thread == th then Call(last.data, last.pushIf) else LastCall(steps[..|steps| - 1], th)
  }

  /** The calls that succeeded, in the order of their compare-exchanges. */
  function Calls<T>(steps: seq<Step<T>>): seq<Call<T>> {
    if steps == [] then []
    else
      var init, last := steps[..|steps| - 1], steps[|steps| - 1];
      Calls(init) + if last.Swap? then [LastCall(init, last.thread)] else []
  }

  /** What a thread is about to insert, and how. */
  function Carried<T>(s: State<T>, th: Thread): Call<T> {
    if th !in s.active || th !in s.guarded then Unknown
    else if s.active[th].Starting? then Call(s.active[th].data, s.guarded[th])
    else if s.active[th].item in s.heap then Call(s.heap[s.active[th].item].data, s.guarded[th])
    else Unknown
  }

  /** The items in the list, oldest first, and how each came in. */
  ghost predicate Inserted<T>(s: State<T>, calls: seq<Call<T>>)
    requires ListOk(s)
  {
    && |calls| == |s.order|
    && forall i :: 0 <= i < |s.order| ==> calls[i] == Call(s.heap[s.order[i]].data, s.viaPushIf[i])
  }

  lemma DataStays<T>(pred: (T, T) -> bool, s: State<T>, step: Step<T>, t: State<T>, x: Addr)
    requires Next(pred, s, step, t) && x in s.heap && x in t.heap
    ensures t.heap[x].data == s.heap[x].data
  {
  }

  lemma CarriedStays<T>(pred: (T, T) -> bool, s: State<T>, step: Step<T>, t: State<T>, th: Thread)
    requires Invariant(pred, s) && Invariant(pred, t) && Next(pred, s, step, t) && th in t.active
    ensures step.Load? && step.thread == th ==> Carried(t, th) == Call(step.data, step.pushIf)
    ensures !(step.Load? && step.thread == th) ==> th in s.active && Carried(t, th) == Carried(s, th)
  {
    if step.Load? && step.thread == th {
    } else {
      assert th in s.active && InserterOk(pred, s, th) && InserterOk(pred, t, th);
      if !s.active[th].Starting? {
        DataStays(pred, s, step, t, s.active[th].item);
      }
    }
  }

  lemma CallsUnfold<T>(steps: seq<Step<T>>, k: nat, th: Thread)
    requires 0 < k <= |steps|
    ensures LastCall(steps[..k], th)
         == var step := steps[k - 1];
            if step.Load? && step.thread == th then Call(step.data, step.pushIf) else LastCall(steps[..k - 1], th)
    ensures Calls(steps[..k])
         == Calls(steps[..k - 1]) + if steps[k - 1].Swap? then [LastCall(steps[..k - 1], steps[k - 1].thread)] else []
  {
    assert steps[..k][..k - 1] == steps[..k - 1];
  }

  lemma CarriedAt<T>(pred: (T, T) -> bool, run: Run<T>, k: nat, th: Thread)
    requires run.Valid(pred) && k < |run.steps| && th in run.states[k + 1].active
    ensures var s, step, t := run.states[k], run.steps[k], run.states[k + 1];
            if step.Load? && step.thread == th then Carried(t, th) == Call(step.data, step.pushIf)
            else th in s.active && Carried(t, th) == Carried(s, th)
  {
    ReachableInvariant(pred, run, k);
    ReachableInvariant(pred, run, k + 1);
    CarriedStays(pred, run.states[k], run.steps[k], run.states[k + 1], th);
  }

  lemma {:induction false} CarriedIsCall<T>(pred: (T, T) -> bool, run: Run<T>, k: nat, th: Thread)
    requires run.Valid(pred) && k < |run.states| && th in run.states[k].active
    ensures LastCall(run.steps[..k], th) == Carried(run.states[k], th)
  {
    if k > 0 {
      CarriedAt(pred, run, k - 1, th);
      CallsUnfold(run.steps, k, th);
      if th in run.states[k - 1].active {
        CarriedIsCall(pred, run, k - 1, th);
      }
    }
  }

  lemma InsertedOn<T>(pred: (T, T) -> bool, s: State<T>, step: Step<T>, t: State<T>, calls: seq<Call<T>>)
    requires Invariant(pred, s) && Invariant(pred, t) && Next(pred, s, step, t) && Inserted(s, calls)
    ensures Inserted(t, calls + if step.Swap? then [Carried(s, step.thread)] else [])
  {
    if step.Swap? {
      assert InserterOk(pred, s, step.thread);
    }
    OrderStays(pred, s, step, t);
  }

  lemma OrderStays<T>(pred: (T, T) -> bool, s: State<T>, step: Step<T>, t: State<T>)
    requires ListOk(s) && ListOk(t) && Next(pred, s, step, t)
    ensures |s.order| <= |t.order|
    ensures forall i :: 0 <= i < |s.order| ==>
              t.order[i] == s.order[i] && t.heap[t.order[i]].data == s.heap[s.order[i]].data
              && t.viaPushIf[i] == s.viaPushIf[i]
  {
    forall i | 0 <= i < |s.order|
      ensures t.order[i] == s.order[i] && t.heap[t.order[i]].data == s.heap[s.order[i]].data
    {
      DataStays(pred, s, step, t, s.order[i]);
    }
  }

  /**
   * The list holds exactly the arguments of the calls that succeeded, in the order of their
   * compare-exchanges, each marked with the kind of call it came from.
   */
  lemma {:induction false} ListIsCalls<T>(pred: (T, T) -> bool, run: Run<T>, k: nat)
    requires run.Valid(pred) && k < |run.states|
    ensures ListOk(run.states[k]) && Inserted(run.states[k], Calls(run.steps[..k]))
  {
    ReachableInvariant(pred, run, k);
    if k > 0 {
      var s, step := run.states[k - 1], run.steps[k - 1];
      ListIsCalls(pred, run, k - 1);
      ReachableInvariant(pred, run, k - 1);
      InsertedOn(pred, s, step, run.states[k], Calls(run.steps[..k - 1]));
      CallsUnfold(run.steps, k, 0);
      if step.Swap? {
        CarriedIsCall(pred, run, k - 1, step.thread);
      }
    }
  }

  /**
   * In every reachable state the links from the head visit the items newest first, and the argument
   * of each push_if that succeeded satisfies the predicate against that of every earlier insertion.
   */
  lemma PushIfKeepsPairwise<T>(pred: (T, T) -> bool, run: Run<T>, k: nat, i: nat, j: nat)
    requires run.Valid(pred) && k < |run.states|
    requires i < j < |run.states[k].order|
    ensures var s, calls := run.states[k], Calls(run.steps[..k]);
            && ListOk(s) && Inserted(s, calls)
            && (calls[j].pushIf ==> pred(calls[j].data, calls[i].data))
  {
    ReachableInvariant(pred, run, k);
    ListIsCalls(pred, run, k);
    var s := run.states[k];
    if s.viaPushIf[j] {
      assert Passed(pred, s, s.heap[s.order[j]].data, 0, j);
    }
  }

  /** The item that made a check fail is linked; the rejected one is not. */
  lemma RejectedAgainst<T>(pred: (T, T) -> bool, s: State<T>, th: Thread, t: State<T>) returns (i: nat)
    requires Invariant(pred, s) && NextCheckFail(pred, s, th, t)
    ensures th in s.active && s.active[th].Checking? && s.active[th].item in s.heap && s.active[th].item !in s.order
    ensures i < |s.order| && Carried(s, th).Call? && !pred(Carried(s, th).data, s.heap[s.order[i]].data)
  {
    assert InserterOk(pred, s, th);
    InspectedNode(pred, s, th);
    i := s.active[th].ptrAt - 1;
  }

  /**
   * push_if gives up only for a reason: its argument fails the predicate against that of an insertion
   * that had succeeded, and was itself never linked.
   */
  lemma RejectionIsJustified<T>(pred: (T, T) -> bool, run: Run<T>, k: nat) returns (i: nat)
    requires run.Valid(pred) && k < |run.steps| && run.steps[k].CheckFail?
    ensures var s, th := run.states[k], run.steps[k].thread;
            th in s.active && s.active[th].Checking? && s.active[th].item in s.heap && s.active[th].item !in s.order
    ensures var call, calls := LastCall(run.steps[..k], run.steps[k].thread), Calls(run.steps[..k]);
            call.Call? && i < |calls| && calls[i].Call? && !pred(call.data, calls[i].data)
  {
    var s, th := run.states[k], run.steps[k].thread;
    ReachableInvariant(pred, run, k);
    assert Next(pred, s, run.steps[k], run.states[k + 1]);
    i := RejectedAgainst(pred, s, th, run.states[k + 1]);
    ListIsCalls(pred, run, k);
    CarriedIsCall(pred, run, k, th);
  }
}
