/**
 * The multi-producer queue lf_queue of core/Utilities/lockless.h.
 *
 * Producers prepend a node with a compare-exchange loop; a consumer takes the whole list with one
 * exchange and reverses it in place. Every load, allocation, compare-exchange, link store and
 * deallocation is one step, and a freed address may be handed out again, so a producer can meet
 * an old head value that meanwhile names another node. The module proves that the queue is a
 * linearizable FIFO under every interleaving.
 */
module LockFreeQueue {

  type Thread = nat

  /** 0 is the null pointer. */
  type Addr = nat

  datatype Node<T> = Node(link: Addr, data: T)

  type Heap<T> = map<Addr, Node<T>>

  /** A thread inside push: what it has done so far, with its local variables oldv (here seen) and item. */
  datatype Producer<T> =
    | Loaded(seen: Addr, data: T)
    | Ready(seen: Addr, item: Addr)
    | Relink(seen: Addr, item: Addr)

  /**
   * A thread inside pop_all, or holding the slice pop_all returned. The fields done, rest, nodes,
   * batch and used are history: no step reads them.
   */
  datatype Consumer =
    | Peeked
    | Taken(first: Addr, nodes: seq<Addr>, batch: nat)
    | Reversing(head: Addr, prev: Addr, done: seq<Addr>, rest: seq<Addr>, batch: nat)
    | Slice(front: Addr, nodes: seq<Addr>, batch: nat, used: nat)

  /** Which list a node belongs to (history). */
  datatype Owner = Shared | Producing(thread: Thread) | Consuming(thread: Thread)

  /**
   * head and nonNull are the two words of fat_ptr. History: chain lists the nodes from head on,
   * pushed the data in the order of the successful compare-exchanges, flags what each of these
   * pushes returned, drained the lists taken by the exchanges, oldest item first.
   */
  datatype State<T> = State(
    heap: Heap<T>,
    head: Addr,
    nonNull: bool,
    producers: map<Thread, Producer<T>>,
    consumers: map<Thread, Consumer>,
    owner: map<Addr, Owner>,
    chain: seq<Addr>,
    pushed: seq<T>,
    flags: seq<bool>,
    drained: seq<seq<T>>)

  function Initial<T>(): State<T> {
    State(map[], 0, false, map[], map[], map[], [], [], [], [])
  }

  datatype Step<T> =
    | PushLoad(thread: Thread, data: T)
    | PushAlloc(thread: Thread, item: Addr)
    | PushSwap(thread: Thread)
    | PushRetry(thread: Thread)
    | PushRelink(thread: Thread)
    | PopPeek(thread: Thread)
    | PopExchange(thread: Thread)
    | PopCut(thread: Thread)
    | PopTurn(thread: Thread)
    | PopReturn(thread: Thread)
    | PopFront(thread: Thread)

  // ----- Sequences -----

  function Reverse<A>(s: seq<A>): (r: seq<A>)
    ensures |r| == |s|
  {
    if s == [] then [] else Reverse(s[1..]) + [s[0]]
  }

  function Concat<A>(ss: seq<seq<A>>): seq<A> {
    if ss == [] then [] else Concat(ss[..|ss| - 1]) + ss[|ss| - 1]
  }

  /** What the pushes of one batch of n items returned: true for the first, false for the others. */
  function BatchFlags(n: nat): seq<bool> {
    if n == 0 then [] else if n == 1 then [true] else BatchFlags(n - 1) + [false]
  }

  function AllFlags<A>(ss: seq<seq<A>>): seq<bool> {
    if ss == [] then [] else AllFlags(ss[..|ss| - 1]) + BatchFlags(|ss[|ss| - 1]|)
  }

  function Data<T>(heap: Heap<T>, nodes: seq<Addr>): (r: seq<T>)
    requires forall x :: x in nodes ==> x in heap
    ensures |r| == |nodes|
  {
    seq(|nodes|, i requires 0 <= i < |nodes| => heap[nodes[i]].data)
  }

  // ----- Linked lists in the heap -----

  /** Following the links from a visits exactly nodes and then reaches null. */
  ghost predicate IsList<T>(heap: Heap<T>, a: Addr, nodes: seq<Addr>)
    decreases nodes
  {
    if nodes == [] then a == 0
    else a == nodes[0] && a != 0 && a in heap && IsList(heap, heap[a].link, nodes[1..])
  }

  ghost predicate OwnedBy(owner: map<Addr, Owner>, nodes: seq<Addr>, who: Owner) {
    && (forall x :: x in nodes ==> x in owner && owner[x] == who)
    && forall i, j :: 0 <= i < j < |nodes| ==> nodes[i] != nodes[j]
  }

  lemma {:induction false} ListInHeap<T>(heap: Heap<T>, a: Addr, nodes: seq<Addr>)
    requires IsList(heap, a, nodes)
    ensures forall x :: x in nodes ==> x in heap && x != 0
    decreases nodes
  {
    if nodes != [] {
      ListInHeap(heap, heap[a].link, nodes[1..]);
      forall x | x in nodes ensures x in heap && x != 0 {
        if x != nodes[0] {
          assert x in nodes[1..];
        }
      }
    }
  }

  /** A list only depends on its own nodes. */
  lemma {:induction false} ListFrame<T>(before: Heap<T>, after: Heap<T>, a: Addr, nodes: seq<Addr>)
    requires IsList(before, a, nodes)
    requires forall x :: x in nodes ==> x in before && x in after && after[x] == before[x]
    ensures IsList(after, a, nodes)
    decreases nodes
  {
    if nodes != [] {
      ListFrame(before, after, before[a].link, nodes[1..]);
    }
  }

  // ----- Steps -----

  // The guards that ask for a node to be in the heap hold whenever a thread gets there: see
  // NoDanglingNode and LinearizableFifo.

  ghost predicate NextPushLoad<T>(s: State<T>, th: Thread, data: T, t: State<T>) {
    && th !in s.producers && th !in s.consumers
    && t == s.(producers := s.producers[th := Loaded(s.head, data)])
  }

  ghost predicate NextPushAlloc<T>(s: State<T>, th: Thread, item: Addr, t: State<T>) {
    && th in s.producers && s.producers[th].Loaded?
    && item != 0 && item !in s.heap
    && t == s.(heap := s.heap[item := Node(s.producers[th].seen, s.producers[th].data)],
               owner := s.owner[item := Producing(th)],
               producers := s.producers[th := Ready(s.producers[th].seen, item)])
  }

  ghost predicate NextPushSwap<T>(s: State<T>, th: Thread, t: State<T>) {
    && th in s.producers && s.producers[th].Ready?
    && s.head == s.producers[th].seen
    && s.producers[th].item in s.heap
    && var item := s.producers[th].item;
       t == s.(head := item,
               nonNull := item != 0,
               producers := s.producers - {th},
               owner := s.owner[item := Shared],
               chain := [item] + s.chain,
               pushed := s.pushed + [s.heap[item].data],
               flags := s.flags + [s.producers[th].seen == 0])
  }

  ghost predicate NextPushRetry<T>(s: State<T>, th: Thread, t: State<T>) {
    && th in s.producers && s.producers[th].Ready?
    && s.head != s.producers[th].seen
    && t == s.(producers := s.producers[th := Relink(s.head, s.producers[th].item)])
  }

  ghost predicate NextPushRelink<T>(s: State<T>, th: Thread, t: State<T>) {
    && th in s.producers && s.producers[th].Relink?
    && s.producers[th].item in s.heap
    && var seen, item := s.producers[th].seen, s.producers[th].item;
       t == s.(heap := s.heap[item := Node(seen, s.heap[item].data)],
               producers := s.producers[th := Ready(seen, item)])
  }

  ghost predicate NextPopPeek<T>(s: State<T>, th: Thread, t: State<T>) {
    && th !in s.producers && th !in s.consumers
    && t == s.(consumers := if s.head == 0 then s.consumers else s.consumers[th := Peeked])
  }

  /** The shared nodes now belong to the consumer th. */
  ghost predicate Handover(before: map<Addr, Owner>, after: map<Addr, Owner>, th: Thread) {
    && after.Keys == before.Keys
    && forall x :: x in before ==> after[x] == if before[x] == Shared then Consuming(th) else before[x]
  }

  ghost predicate NextPopExchange<T>(s: State<T>, th: Thread, t: State<T>) {
    && th in s.consumers && s.consumers[th].Peeked?
    && (forall x :: x in s.chain ==> x in s.heap)
    && Handover(s.owner, t.owner, th)
    && t == s.(head := 0,
               nonNull := false,
               consumers := s.consumers[th := if s.head == 0 then Slice(0, [], |s.drained|, 0)
                                             else Taken(s.head, s.chain, |s.drained|)],
               owner := t.owner,
               chain := [],
               drained := s.drained + [Reverse(Data(s.heap, s.chain))])
  }

  ghost predicate NextPopCut<T>(s: State<T>, th: Thread, t: State<T>) {
    && th in s.consumers && s.consumers[th].Taken?
    && s.consumers[th].first in s.heap && s.consumers[th].nodes != []
    && var c, node := s.consumers[th], s.heap[s.consumers[th].first];
       t == s.(heap := if node.link == 0 then s.heap else s.heap[c.first := Node(0, node.data)],
               consumers := s.consumers[th := Reversing(c.first, node.link, [c.first], c.nodes[1..], c.batch)])
  }

  ghost predicate NextPopTurn<T>(s: State<T>, th: Thread, t: State<T>) {
    && th in s.consumers && s.consumers[th].Reversing? && s.consumers[th].prev != 0
    && s.consumers[th].prev in s.heap && s.consumers[th].rest != []
    && var c, node := s.consumers[th], s.heap[s.consumers[th].prev];
       t == s.(heap := s.heap[c.prev := Node(c.head, node.data)],
               consumers := s.consumers[th := Reversing(c.prev, node.link, [c.prev] + c.done, c.rest[1..], c.batch)])
  }

  ghost predicate NextPopReturn<T>(s: State<T>, th: Thread, t: State<T>) {
    && th in s.consumers && s.consumers[th].Reversing? && s.consumers[th].prev == 0
    && var c := s.consumers[th];
       t == s.(consumers := s.consumers[th := Slice(c.head, c.done, c.batch, 0)])
  }

  ghost predicate NextPopFront<T>(s: State<T>, th: Thread, t: State<T>) {
    && th in s.consumers && s.consumers[th].Slice?
    && (s.consumers[th].front == 0 ==> t == s.(consumers := s.consumers - {th}))
    && (s.consumers[th].front != 0 ==>
          && s.consumers[th].front in s.heap && s.consumers[th].nodes != []
          && var c := s.consumers[th];
             t == s.(heap := s.heap - {c.front},
                     consumers := s.consumers[th := Slice(s.heap[c.front].link, c.nodes[1..], c.batch, c.used + 1)]))
  }

  ghost predicate Next<T>(s: State<T>, step: Step<T>, t: State<T>) {
    match step
    case PushLoad(th, data) => NextPushLoad(s, th, data, t)
    case PushAlloc(th, item) => NextPushAlloc(s, th, item, t)
    case PushSwap(th) => NextPushSwap(s, th, t)
    case PushRetry(th) => NextPushRetry(s, th, t)
    case PushRelink(th) => NextPushRelink(s, th, t)
    case PopPeek(th) => NextPopPeek(s, th, t)
    case PopExchange(th) => NextPopExchange(s, th, t)
    case PopCut(th) => NextPopCut(s, th, t)
    case PopTurn(th) => NextPopTurn(s, th, t)
    case PopReturn(th) => NextPopReturn(s, th, t)
    case PopFront(th) => NextPopFront(s, th, t)
  }

  // ----- Invariant -----

  ghost predicate ProducerOk<T>(s: State<T>, th: Thread)
    requires th in s.producers
  {
    match s.producers[th]
    case Loaded(_, _) => true
    case Ready(seen, item) =>
      && item != 0 && item in s.heap && item in s.owner && s.owner[item] == Producing(th)
      && s.heap[item].link == seen
    case Relink(_, item) =>
      item != 0 && item in s.heap && item in s.owner && s.owner[item] == Producing(th)
  }

  /** Where a consumer is in delivering the batch it took, walking the links of the heap. */
  ghost predicate ConsumerOk<T>(s: State<T>, th: Thread)
    requires th in s.consumers
  {
    match s.consumers[th]
    case Peeked => true
    case Taken(first, nodes, batch) =>
      && nodes != [] && batch < |s.drained|
      && IsList(s.heap, first, nodes) && OwnedBy(s.owner, nodes, Consuming(th))
      && HasData(s.heap, nodes, Reverse(s.drained[batch]))
    case Reversing(head, prev, done, rest, batch) =>
      && batch < |s.drained|
      && IsList(s.heap, head, done) && IsList(s.heap, prev, rest)
      && OwnedBy(s.owner, done, Consuming(th)) && OwnedBy(s.owner, rest, Consuming(th))
      && (forall x :: x in done ==> x !in rest)
      && |done| <= |s.drained[batch]|
      && HasData(s.heap, done, s.drained[batch][|s.drained[batch]| - |done|..])
      && HasData(s.heap, rest, Reverse(s.drained[batch][..|s.drained[batch]| - |done|]))
    case Slice(front, nodes, batch, used) =>
      && batch < |s.drained| && used <= |s.drained[batch]|
      && IsList(s.heap, front, nodes) && OwnedBy(s.owner, nodes, Consuming(th))
      && HasData(s.heap, nodes, s.drained[batch][used..])
  }

  ghost predicate HasData<T>(heap: Heap<T>, nodes: seq<Addr>, data: seq<T>) {
    && |nodes| == |data|
    && forall i :: 0 <= i < |nodes| ==> nodes[i] in heap && heap[nodes[i]].data == data[i]
  }

  ghost predicate QueueOk<T>(s: State<T>) {
    && 0 !in s.heap
    && IsList(s.heap, s.head, s.chain)
    && OwnedBy(s.owner, s.chain, Shared)
    && (forall x :: x in s.chain ==> x in s.heap)
    && s.nonNull == (s.head != 0)
    && s.pushed == Concat(s.drained) + Reverse(Data(s.heap, s.chain))
    && s.flags == AllFlags(s.drained) + BatchFlags(|s.chain|)
  }

  ghost predicate Invariant<T>(s: State<T>) {
    && QueueOk(s)
    && (forall th :: th in s.producers ==> ProducerOk(s, th))
    && (forall th :: th in s.consumers ==> ConsumerOk(s, th))
  }

  // ----- Sequence lemmas -----

  lemma {:induction false} ReverseIndex<A>(s: seq<A>, i: nat)
    requires i < |s|
    ensures Reverse(s)[i] == s[|s| - 1 - i]
  {
    if i < |s| - 1 {
      ReverseIndex(s[1..], i);
    }
  }

  lemma ReverseTwice<A>(s: seq<A>)
    ensures Reverse(Reverse(s)) == s
  {
    forall i | 0 <= i < |s| ensures Reverse(Reverse(s))[i] == s[i] {
      ReverseIndex(Reverse(s), i);
      ReverseIndex(s, |s| - 1 - i);
    }
  }

  lemma ReversePrefix<A>(s: seq<A>, n: nat)
    requires 0 < n <= |s|
    ensures Reverse(s[..n])[0] == s[n - 1]
    ensures Reverse(s[..n])[1..] == Reverse(s[..n - 1])
  {
    ReverseIndex(s[..n], 0);
    forall i | 0 <= i < n - 1 ensures Reverse(s[..n])[1..][i] == Reverse(s[..n - 1])[i] {
      ReverseIndex(s[..n], i + 1);
      ReverseIndex(s[..n - 1], i);
    }
  }

  /** Extending the list at its head extends the push order at its end. */
  lemma ReverseCons<A>(x: A, s: seq<A>)
    ensures Reverse([x] + s) == Reverse(s) + [x]
  {
    assert ([x] + s)[1..] == s;
  }

  // ----- Frames: what a step by somebody else leaves alone -----

  lemma ProducerFrame<T>(s: State<T>, t: State<T>, th: Thread)
    requires th in s.producers && ProducerOk(s, th)
    requires th in t.producers && t.producers[th] == s.producers[th]
    requires forall x :: x in s.owner && x in s.heap && s.owner[x] == Producing(th) ==>
                           x in t.heap && t.heap[x] == s.heap[x] && x in t.owner && t.owner[x] == s.owner[x]
    ensures ProducerOk(t, th)
  {
  }

  ghost predicate DrainedGrows<T>(s: State<T>, t: State<T>) {
    |s.drained| <= |t.drained| && forall b :: 0 <= b < |s.drained| ==> t.drained[b] == s.drained[b]
  }

  /** Everything thread th owns as a consumer is as it was. */
  ghost predicate ConsumerUntouched<T>(s: State<T>, t: State<T>, th: Thread) {
    forall x :: x in s.owner && x in s.heap && s.owner[x] == Consuming(th) ==>
                  x in t.heap && t.heap[x] == s.heap[x] && x in t.owner && t.owner[x] == s.owner[x]
  }

  lemma ListKept<T>(s: State<T>, t: State<T>, th: Thread, a: Addr, nodes: seq<Addr>, data: seq<T>)
    requires ConsumerUntouched(s, t, th)
    requires IsList(s.heap, a, nodes) && OwnedBy(s.owner, nodes, Consuming(th)) && HasData(s.heap, nodes, data)
    ensures IsList(t.heap, a, nodes) && OwnedBy(t.owner, nodes, Consuming(th)) && HasData(t.heap, nodes, data)
  {
    ListInHeap(s.heap, a, nodes);
    ListFrame(s.heap, t.heap, a, nodes);
  }

  lemma ReversingFrame<T>(s: State<T>, t: State<T>, th: Thread)
    requires th in s.consumers && s.consumers[th].Reversing? && ConsumerOk(s, th)
    requires th in t.consumers && t.consumers[th] == s.consumers[th]
    requires DrainedGrows(s, t) && ConsumerUntouched(s, t, th)
    ensures ConsumerOk(t, th)
  {
    var Reversing(head, prev, done, rest, batch) := s.consumers[th];
    var all := s.drained[batch];
    ListKept(s, t, th, head, done, all[|all| - |done|..]);
    ListKept(s, t, th, prev, rest, Reverse(all[..|all| - |done|]));
  }

  lemma ConsumerFrame<T>(s: State<T>, t: State<T>, th: Thread)
    requires th in s.consumers && ConsumerOk(s, th)
    requires th in t.consumers && t.consumers[th] == s.consumers[th]
    requires DrainedGrows(s, t) && ConsumerUntouched(s, t, th)
    ensures ConsumerOk(t, th)
  {
    match s.consumers[th]
    case Peeked =>
    case Taken(first, nodes, batch) =>
      ListKept(s, t, th, first, nodes, Reverse(s.drained[batch]));
    case Reversing(head, prev, done, rest, batch) =>
      ReversingFrame(s, t, th);
    case Slice(front, nodes, batch, used) =>
      ListKept(s, t, th, front, nodes, s.drained[batch][used..]);
  }

  lemma ChainFrame<T>(s: State<T>, t: State<T>)
    requires QueueOk(s) && 0 !in t.heap
    requires t.head == s.head && t.nonNull == s.nonNull && t.chain == s.chain
    requires t.pushed == s.pushed && t.flags == s.flags && t.drained == s.drained
    requires forall x :: x in s.chain ==>
                           x in t.heap && t.heap[x] == s.heap[x] && x in t.owner && t.owner[x] == s.owner[x]
    ensures QueueOk(t)
  {
    ListFrame(s.heap, t.heap, s.head, s.chain);
    assert Data(t.heap, t.chain) == Data(s.heap, s.chain);
  }

  /** A step of th changes no other thread, no node another thread owns, and no drained batch. */
  ghost predicate StepOf<T>(s: State<T>, t: State<T>, th: Thread) {
    && (forall p :: p in t.producers && p != th ==> p in s.producers && t.producers[p] == s.producers[p])
    && (forall c :: c in t.consumers && c != th ==> c in s.consumers && t.consumers[c] == s.consumers[c])
    && DrainedGrows(s, t)
    && forall x :: x in s.owner && x in s.heap && OfOther(s.owner[x], th) ==>
                     x in t.heap && t.heap[x] == s.heap[x] && x in t.owner && t.owner[x] == s.owner[x]
  }

  predicate OfOther(who: Owner, th: Thread) {
    !who.Shared? && who.thread != th
  }

  /** th changed at most its own node a and its own program position. */
  ghost predicate LocalStep<T>(s: State<T>, t: State<T>, th: Thread, a: Addr) {
    && t == s.(heap := t.heap, producers := t.producers, consumers := t.consumers)
    && t.producers - {th} == s.producers - {th} && t.consumers - {th} == s.consumers - {th}
    && (a == 0 || (a in s.owner && !s.owner[a].Shared? && s.owner[a].thread == th))
    && forall x :: x in s.heap && x != a ==> x in t.heap && t.heap[x] == s.heap[x]
  }

  lemma LocalStepFrame<T>(s: State<T>, t: State<T>, th: Thread, a: Addr)
    requires Invariant(s) && LocalStep(s, t, th, a)
    requires 0 !in t.heap
    ensures StepOf(s, t, th) && QueueOk(t)
  {
    ListInHeap(s.heap, s.head, s.chain);
    ChainFrame(s, t);
    forall p | p in t.producers && p != th ensures p in s.producers && t.producers[p] == s.producers[p] {
      assert p in t.producers - {th};
    }
    forall c | c in t.consumers && c != th ensures c in s.consumers && t.consumers[c] == s.consumers[c] {
      assert c in t.consumers - {th};
    }
  }

  /** So after a step of th only the queue and th's own part are left to prove. */
  lemma Assemble<T>(s: State<T>, t: State<T>, th: Thread)
    requires Invariant(s) && StepOf(s, t, th)
    requires QueueOk(t)
    requires th in t.producers ==> ProducerOk(t, th)
    requires th in t.consumers ==> ConsumerOk(t, th)
    ensures Invariant(t)
  {
    forall p | p in t.producers ensures ProducerOk(t, p) {
      if p != th {
        ProducerFrame(s, t, p);
      }
    }
    forall c | c in t.consumers ensures ConsumerOk(t, c) {
      if c != th {
        ConsumerFrame(s, t, c);
      }
    }
  }

  // ----- Every step keeps the invariant -----

  lemma PushAllocKeeps<T>(s: State<T>, th: Thread, item: Addr, t: State<T>)
    requires Invariant(s) && NextPushAlloc(s, th, item, t)
    ensures Invariant(t)
  {
    ListInHeap(s.heap, s.head, s.chain);
    ChainFrame(s, t);
    if th in t.consumers {
      assert ConsumerOk(s, th);
      ConsumerFrame(s, t, th);
    }
    Assemble(s, t, th);
  }

  lemma PushSwapKeeps<T>(s: State<T>, th: Thread, t: State<T>)
    requires Invariant(s) && NextPushSwap(s, th, t)
    ensures Invariant(t)
    ensures t.flags[|t.flags| - 1] <==> s.chain == []
  {
    assert ProducerOk(s, th);
    SwapKeepsQueue(s, th, t);
    if th in t.consumers {
      assert ConsumerOk(s, th);
      ConsumerFrame(s, t, th);
    }
    Assemble(s, t, th);
  }

  lemma SwapKeepsQueue<T>(s: State<T>, th: Thread, t: State<T>)
    requires Invariant(s) && NextPushSwap(s, th, t)
    ensures QueueOk(t)
    ensures t.flags[|t.flags| - 1] <==> s.chain == []
  {
    assert ProducerOk(s, th);
    var item := s.producers[th].item;
    assert item !in s.chain;
    assert t.chain[1..] == s.chain;
    assert IsList(t.heap, t.head, t.chain);
    assert (s.chain == []) == (s.head == 0);
    SwapHistory(s.heap, s.chain, item, t.chain);
    MoreFlags(AllFlags(s.drained), |s.chain|);
    assert Concat(s.drained) + Reverse(Data(s.heap, s.chain)) + [s.heap[item].data]
        == Concat(s.drained) + (Reverse(Data(s.heap, s.chain)) + [s.heap[item].data]);
  }

  lemma SwapHistory<T>(heap: Heap<T>, chain: seq<Addr>, item: Addr, longer: seq<Addr>)
    requires item in heap && longer == [item] + chain
    requires (forall x :: x in chain ==> x in heap) && forall x :: x in longer ==> x in heap
    ensures Reverse(Data(heap, longer)) == Reverse(Data(heap, chain)) + [heap[item].data]
  {
    assert Data(heap, longer) == [heap[item].data] + Data(heap, chain);
    ReverseCons(heap[item].data, Data(heap, chain));
  }

  lemma MoreFlags(flags: seq<bool>, n: nat)
    ensures flags + BatchFlags(n) + [n == 0] == flags + BatchFlags(n + 1)
  {
    assert BatchFlags(n + 1) == BatchFlags(n) + [n == 0];
  }

  lemma PushRelinkKeeps<T>(s: State<T>, th: Thread, t: State<T>)
    requires Invariant(s) && NextPushRelink(s, th, t)
    ensures Invariant(t)
  {
    assert ProducerOk(s, th);
    LocalStepFrame(s, t, th, s.producers[th].item);
    if th in t.consumers {
      assert ConsumerOk(s, th);
      ConsumerFrame(s, t, th);
    }
    Assemble(s, t, th);
  }

  lemma PopExchangeKeeps<T>(s: State<T>, th: Thread, t: State<T>)
    requires Invariant(s) && NextPopExchange(s, th, t)
    ensures Invariant(t)
  {
    ExchangeKeepsQueue(s, th, t);
    ExchangeConsumer(s, th, t);
    if th in t.producers {
      assert ProducerOk(s, th);
      ProducerFrame(s, t, th);
    }
    Assemble(s, t, th);
  }

  lemma ExchangeKeepsQueue<T>(s: State<T>, th: Thread, t: State<T>)
    requires QueueOk(s) && NextPopExchange(s, th, t)
    ensures QueueOk(t)
  {
    assert t.drained[..|t.drained| - 1] == s.drained;
    assert Reverse(Data(t.heap, t.chain)) == [];
  }

  lemma ExchangeConsumer<T>(s: State<T>, th: Thread, t: State<T>)
    requires QueueOk(s) && NextPopExchange(s, th, t)
    ensures ConsumerOk(t, th)
  {
    var batch := Reverse(Data(s.heap, s.chain));
    ReverseTwice(Data(s.heap, s.chain));
    if s.head != 0 {
      assert s.chain != [];
      assert HasData(t.heap, s.chain, Reverse(t.drained[|s.drained|]));
    } else {
      assert s.chain == [];
      assert batch == [];
    }
  }

  lemma CutIsLocal<T>(s: State<T>, th: Thread, t: State<T>)
    requires Invariant(s) && NextPopCut(s, th, t)
    ensures StepOf(s, t, th) && QueueOk(t)
  {
    assert ConsumerOk(s, th);
    assert s.consumers[th].nodes[0] == s.consumers[th].first;
    LocalStepFrame(s, t, th, s.consumers[th].first);
  }

  lemma CutProducer<T>(s: State<T>, th: Thread, t: State<T>)
    requires NextPopCut(s, th, t) && ConsumerOk(s, th) && th in s.producers && ProducerOk(s, th)
    ensures th in t.producers && ProducerOk(t, th)
  {
    assert s.consumers[th].nodes[0] == s.consumers[th].first;
  }

  lemma PopCutKeeps<T>(s: State<T>, th: Thread, t: State<T>)
    requires Invariant(s) && NextPopCut(s, th, t)
    ensures Invariant(t)
  {
    CutIsLocal(s, th, t);
    assert ConsumerOk(s, th);
    CutConsumer(s, th, t);
    if th in s.producers {
      assert ProducerOk(s, th);
      CutProducer(s, th, t);
    }
    Assemble(s, t, th);
  }

  lemma CutLists<T>(s: State<T>, th: Thread, t: State<T>)
    requires th in s.consumers && ConsumerOk(s, th) && NextPopCut(s, th, t)
    ensures var c := t.consumers[th];
            IsList(t.heap, c.head, c.done) && IsList(t.heap, c.prev, c.rest)
            && OwnedBy(t.owner, c.done, Consuming(th)) && OwnedBy(t.owner, c.rest, Consuming(th))
            && (forall x :: x in c.done ==> x !in c.rest)
  {
    var c := s.consumers[th];
    assert [c.first] + c.nodes[1..] == c.nodes;
    ListInHeap(s.heap, s.heap[c.first].link, c.nodes[1..]);
    assert c.first !in c.nodes[1..];
    ListFrame(s.heap, t.heap, s.heap[c.first].link, c.nodes[1..]);
    assert [c.first][1..] == [];
    assert IsList(t.heap, c.first, [c.first]);
  }

  lemma CutData<T>(s: State<T>, th: Thread, t: State<T>)
    requires th in s.consumers && ConsumerOk(s, th) && NextPopCut(s, th, t)
    ensures var c := t.consumers[th];
            && c.batch < |t.drained| && |c.done| <= |t.drained[c.batch]|
            && var all := t.drained[c.batch];
               && HasData(t.heap, c.done, all[|all| - |c.done|..])
               && HasData(t.heap, c.rest, Reverse(all[..|all| - |c.done|]))
  {
    var c := s.consumers[th];
    var all := s.drained[c.batch];
    ReverseIndex(all, 0);
    assert all[..|all|] == all && c.nodes[0] == c.first && [c.first] + [] == [c.first];
    MoveDatum(s.heap, t.heap, [], c.nodes, all, |all|);
  }

  lemma CutConsumer<T>(s: State<T>, th: Thread, t: State<T>)
    requires th in s.consumers && ConsumerOk(s, th) && NextPopCut(s, th, t)
    ensures ConsumerOk(t, th)
  {
    CutLists(s, th, t);
    CutData(s, th, t);
  }

  lemma PopTurnKeeps<T>(s: State<T>, th: Thread, t: State<T>)
    requires Invariant(s) && NextPopTurn(s, th, t)
    ensures Invariant(t)
  {
    assert ConsumerOk(s, th);
    assert s.consumers[th].prev == s.consumers[th].rest[0];
    LocalStepFrame(s, t, th, s.consumers[th].prev);
    TurnLists(s, th, t);
    TurnData(s, th, t);
    if th in t.producers {
      assert ProducerOk(s, th);
      ProducerFrame(s, t, th);
    }
    Assemble(s, t, th);
  }

  lemma TurnLists<T>(s: State<T>, th: Thread, t: State<T>)
    requires th in s.consumers && ConsumerOk(s, th) && NextPopTurn(s, th, t)
    ensures var c := t.consumers[th];
            IsList(t.heap, c.head, c.done) && IsList(t.heap, c.prev, c.rest)
            && OwnedBy(t.owner, c.done, Consuming(th)) && OwnedBy(t.owner, c.rest, Consuming(th))
            && (forall x :: x in c.done ==> x !in c.rest)
  {
    var c := s.consumers[th];
    assert c.prev == c.rest[0];
    ListInHeap(s.heap, c.head, c.done);
    ListInHeap(s.heap, c.prev, c.rest);
    assert c.prev !in c.done && c.prev !in c.rest[1..];
    ListFrame(s.heap, t.heap, c.head, c.done);
    ListFrame(s.heap, t.heap, s.heap[c.prev].link, c.rest[1..]);
    assert ([c.prev] + c.done)[1..] == c.done;
  }

  lemma TurnData<T>(s: State<T>, th: Thread, t: State<T>)
    requires th in s.consumers && ConsumerOk(s, th) && NextPopTurn(s, th, t)
    ensures var c := t.consumers[th];
            && c.batch < |t.drained| && |c.done| <= |t.drained[c.batch]|
            && var all := t.drained[c.batch];
               && HasData(t.heap, c.done, all[|all| - |c.done|..])
               && HasData(t.heap, c.rest, Reverse(all[..|all| - |c.done|]))
  {
    var c := s.consumers[th];
    var all := s.drained[c.batch];
    MoveDatum(s.heap, t.heap, c.done, c.rest, all, |all| - |c.done|);
  }

  /** Moving one node from rest to done moves one datum from the undelivered part of the batch. */
  lemma MoveDatum<T>(before: Heap<T>, after: Heap<T>, done: seq<Addr>, rest: seq<Addr>, all: seq<T>, n: nat)
    requires n <= |all| && rest != []
    requires HasData(before, done, all[n..]) && HasData(before, rest, Reverse(all[..n]))
    requires forall x :: x in before ==> x in after && after[x].data == before[x].data
    ensures 0 < n
    ensures HasData(after, [rest[0]] + done, all[n - 1..])
    ensures HasData(after, rest[1..], Reverse(all[..n - 1]))
  {
    ReversePrefix(all, n);
    assert all[n - 1..] == [all[n - 1]] + all[n..];
    var left := Reverse(all[..n]);
    assert forall i :: 0 <= i < n - 1 ==> rest[1..][i] == rest[i + 1] && left[1..][i] == left[i + 1];
  }

  lemma PopFrontKeeps<T>(s: State<T>, th: Thread, t: State<T>)
    requires Invariant(s) && NextPopFront(s, th, t)
    ensures Invariant(t)
  {
    assert ConsumerOk(s, th);
    assert s.consumers[th].front != 0 ==> s.consumers[th].nodes[0] == s.consumers[th].front;
    LocalStepFrame(s, t, th, s.consumers[th].front);
    if s.consumers[th].front != 0 {
      FrontConsumer(s, th, t);
    }
    if th in t.producers {
      assert ProducerOk(s, th);
      ProducerFrame(s, t, th);
    }
    Assemble(s, t, th);
  }

  lemma FrontConsumer<T>(s: State<T>, th: Thread, t: State<T>)
    requires th in s.consumers && ConsumerOk(s, th) && NextPopFront(s, th, t) && s.consumers[th].front != 0
    ensures ConsumerOk(t, th)
  {
    var c := s.consumers[th];
    var rest := c.nodes[1..];
    var all := s.drained[c.batch];
    assert c.front !in rest;
    ListInHeap(s.heap, s.heap[c.front].link, rest);
    ListFrame(s.heap, t.heap, s.heap[c.front].link, rest);
    assert forall i :: 0 <= i < |rest| ==> rest[i] == c.nodes[i + 1] && all[c.used + 1..][i] == all[c.used..][i + 1];
  }

  /** The steps that touch neither the heap nor the shared head. */
  lemma QuietKeeps<T>(s: State<T>, step: Step<T>, t: State<T>)
    requires Invariant(s) && Next(s, step, t)
    requires step.PushLoad? || step.PushRetry? || step.PopPeek? || step.PopReturn?
    ensures Invariant(t)
  {
    var th := step.thread;
    LocalStepFrame(s, t, th, 0);
    if step.PopReturn? {
      assert ConsumerOk(s, th);
      ReturnConsumer(s, th, t);
    } else if th in t.consumers && th in s.consumers {
      assert ConsumerOk(s, th);
      ConsumerFrame(s, t, th);
    }
    assert th in s.producers ==> ProducerOk(s, th);
    Assemble(s, t, th);
  }

  lemma ReturnConsumer<T>(s: State<T>, th: Thread, t: State<T>)
    requires th in s.consumers && ConsumerOk(s, th) && NextPopReturn(s, th, t)
    ensures ConsumerOk(t, th)
  {
    var c := s.consumers[th];
    var all := s.drained[c.batch];
    assert c.rest == [];
    assert |Reverse(all[..|all| - |c.done|])| == 0;
    assert all[|all| - |c.done|..] == all[0..];
  }

  lemma NextKeepsInvariant<T>(s: State<T>, step: Step<T>, t: State<T>)
    requires Invariant(s) && Next(s, step, t)
    ensures Invariant(t)
  {
    match step
    case PushAlloc(th, item) => PushAllocKeeps(s, th, item, t);
    case PushSwap(th) => PushSwapKeeps(s, th, t);
    case PushRelink(th) => PushRelinkKeeps(s, th, t);
    case PopExchange(th) => PopExchangeKeeps(s, th, t);
    case PopCut(th) => PopCutKeeps(s, th, t);
    case PopTurn(th) => PopTurnKeeps(s, th, t);
    case PopFront(th) => PopFrontKeeps(s, th, t);
    case _ => QuietKeeps(s, step, t);
  }

  // ----- Whole runs -----

  datatype Run<T> = Run(states: seq<State<T>>, steps: seq<Step<T>>) {
    ghost predicate StepAt(i: nat)
      requires i < |steps| && |states| == |steps| + 1
    {
      Next(states[i], steps[i], states[i + 1])
    }

    ghost predicate Valid() {
      && |states| == |steps| + 1
      && states[0] == Initial()
      && forall i :: 0 <= i < |steps| ==> StepAt(i)
    }
  }

  lemma {:induction false} ReachableInvariant<T>(run: Run<T>, k: nat)
    requires run.Valid() && k < |run.states|
    ensures Invariant(run.states[k])
  {
    if k > 0 {
      ReachableInvariant(run, k - 1);
      assert run.StepAt(k - 1);
      NextKeepsInvariant(run.states[k - 1], run.steps[k - 1], run.states[k]);
    }
  }

  // ----- What was pushed, told from the calls alone -----

  datatype Option<T> = None | Some(value: T)

  /** The argument of the last push that th began. */
  function Argument<T>(steps: seq<Step<T>>, th: Thread): Option<T> {
    if steps == [] then None
    else
      var last := steps[|steps| - 1];
      if last.PushLoad? && last.thread == th then Some(last.data) else Argument(steps[..|steps| - 1], th)
  }

  /** The arguments of the pushes that succeeded, in the order of their compare-exchanges. */
  function Arguments<T>(steps: seq<Step<T>>): seq<Option<T>> {
    if steps == [] then []
    else
      var init, last := steps[..|steps| - 1], steps[|steps| - 1];
      Arguments(init) + if last.PushSwap? then [Argument(init, last.thread)] else []
  }

  /** The item a thread inside push is about to insert. */
  function Carried<T>(s: State<T>, th: Thread): Option<T> {
    if th !in s.producers then None
    else if s.producers[th].Loaded? then Some(s.producers[th].data)
    else if s.producers[th].item in s.heap then Some(s.heap[s.producers[th].item].data)
    else None
  }

  /** A thread goes on with its item, unless the step began its push. */
  ghost predicate CarriedOn<T>(s: State<T>, step: Step<T>, t: State<T>, th: Thread) {
    if step.PushLoad? && step.thread == th then Carried(t, th) == Some(step.data)
    else th in s.producers && Carried(t, th) == Carried(s, th)
  }

  /** No step changes the data of a node. */
  lemma DataStays<T>(s: State<T>, step: Step<T>, t: State<T>, x: Addr)
    requires Next(s, step, t) && x in s.heap && x in t.heap
    ensures t.heap[x].data == s.heap[x].data
  {
  }

  /** A producer goes on with the data or the node it has. */
  lemma ProducerGoesOn<T>(s: State<T>, step: Step<T>, t: State<T>, th: Thread)
    requires Next(s, step, t) && th in t.producers && !(step.PushLoad? && step.thread == th)
    ensures th in s.producers
    ensures s.producers[th].Loaded? && step.thread != th ==> t.producers[th] == s.producers[th]
    ensures !s.producers[th].Loaded? ==> !t.producers[th].Loaded? && t.producers[th].item == s.producers[th].item
    ensures s.producers[th].Loaded? && step.thread == th ==> Carried(t, th) == Some(s.producers[th].data)
  {
  }

  lemma CarriedStays<T>(s: State<T>, step: Step<T>, t: State<T>, th: Thread)
    requires Next(s, step, t) && th in t.producers && ProducerOk(t, th) && (th in s.producers ==> ProducerOk(s, th))
    ensures CarriedOn(s, step, t, th)
  {
    if step.PushLoad? && step.thread == th {
    } else {
      ProducerGoesOn(s, step, t, th);
      if !s.producers[th].Loaded? {
        DataStays(s, step, t, s.producers[th].item);
      }
    }
  }

  lemma PushedStays<T>(s: State<T>, step: Step<T>, t: State<T>)
    requires Invariant(s) && Next(s, step, t)
    ensures !step.PushSwap? ==> t.pushed == s.pushed
    ensures step.PushSwap? ==>
              Carried(s, step.thread).Some? && t.pushed == s.pushed + [Carried(s, step.thread).value]
  {
  }

  ghost predicate PushedAre<T>(pushed: seq<T>, arguments: seq<Option<T>>) {
    |pushed| == |arguments| && forall i :: 0 <= i < |pushed| ==> arguments[i] == Some(pushed[i])
  }

  lemma ArgumentsUnfold<T>(steps: seq<Step<T>>, k: nat, th: Thread)
    requires 0 < k <= |steps|
    ensures Argument(steps[..k], th)
         == var step := steps[k - 1];
            if step.PushLoad? && step.thread == th then Some(step.data) else Argument(steps[..k - 1], th)
    ensures Arguments(steps[..k])
         == Arguments(steps[..k - 1])
            + if steps[k - 1].PushSwap? then [Argument(steps[..k - 1], steps[k - 1].thread)] else []
  {
    assert steps[..k][..k - 1] == steps[..k - 1];
  }

  lemma ReachableProducer<T>(run: Run<T>, k: nat, th: Thread)
    requires run.Valid() && k < |run.states|
    ensures th in run.states[k].producers ==> ProducerOk(run.states[k], th)
  {
    ReachableInvariant(run, k);
  }

  lemma CarriedAt<T>(run: Run<T>, k: nat, th: Thread)
    requires run.Valid() && k < |run.steps| && th in run.states[k + 1].producers
    ensures CarriedOn(run.states[k], run.steps[k], run.states[k + 1], th)
  {
    ReachableProducer(run, k, th);
    ReachableProducer(run, k + 1, th);
    assert run.StepAt(k);
    CarriedStays(run.states[k], run.steps[k], run.states[k + 1], th);
  }

  lemma {:induction false} CarriedIsArgument<T>(run: Run<T>, k: nat, th: Thread)
    requires run.Valid() && k < |run.states| && th in run.states[k].producers
    ensures Argument(run.steps[..k], th) == Carried(run.states[k], th)
  {
    if k > 0 {
      CarriedAt(run, k - 1, th);
      ArgumentsUnfold(run.steps, k, th);
      if th in run.states[k - 1].producers {
        CarriedIsArgument(run, k - 1, th);
      }
    }
  }

  lemma {:induction false} PushedIsArguments<T>(run: Run<T>, k: nat)
    requires run.Valid() && k < |run.states|
    ensures PushedAre(run.states[k].pushed, Arguments(run.steps[..k]))
  {
    if k > 0 {
      PushedIsArguments(run, k - 1);
      ReachableInvariant(run, k - 1);
      assert run.StepAt(k - 1);
      PushedStays(run.states[k - 1], run.steps[k - 1], run.states[k]);
      ArgumentsUnfold(run.steps, k, 0);
      if run.steps[k - 1].PushSwap? {
        CarriedIsArgument(run, k - 1, run.steps[k - 1].thread);
      }
    }
  }

  /**
   * Linearizable FIFO. In every reachable state the drained batches, in exchange order and each
   * oldest item first, followed by the items still linked from the head, oldest first, are exactly
   * the arguments of the pushes that succeeded, in the order of their compare-exchanges: nothing is
   * lost, duplicated, changed or reordered.
   */
  lemma LinearizableFifo<T>(run: Run<T>, k: nat)
    requires run.Valid() && k < |run.states|
    ensures var s := run.states[k];
            && IsList(s.heap, s.head, s.chain)
            && (forall x :: x in s.chain ==> x in s.heap)
            && PushedAre(Concat(s.drained) + Reverse(Data(s.heap, s.chain)), Arguments(run.steps[..k]))
  {
    ReachableInvariant(run, k);
    PushedIsArguments(run, k);
  }

  /**
   * push returned true exactly for the first item of each drained batch and of the current list:
   * one wake-up of the consumer for each time the queue became non-empty.
   */
  lemma PushReportsEmptyQueue<T>(run: Run<T>, k: nat)
    requires run.Valid() && k < |run.states|
    ensures var s := run.states[k]; s.flags == AllFlags(s.drained) + BatchFlags(|s.chain|)
    ensures k < |run.steps| && run.steps[k].PushSwap? ==>
              var t := run.states[k + 1];
              |t.flags| == |run.states[k].flags| + 1
              && (t.flags[|t.flags| - 1] <==> run.states[k].head == 0 && !run.states[k].nonNull)
  {
    ReachableInvariant(run, k);
    if k < |run.steps| && run.steps[k].PushSwap? {
      assert run.StepAt(k);
      PushSwapKeeps(run.states[k], run.steps[k].thread, run.states[k + 1]);
    }
  }

  /** A consumer that looks at a non-empty queue goes on to take it. */
  lemma PeekSeesItems<T>(run: Run<T>, k: nat)
    requires run.Valid() && k < |run.steps| && run.steps[k].PopPeek?
    ensures run.steps[k].thread in run.states[k + 1].consumers <==> run.states[k].chain != []
  {
    ReachableInvariant(run, k);
    assert run.StepAt(k);
  }

  /** Its exchange takes everything that is linked at that moment. */
  lemma ExchangeTakesAll<T>(run: Run<T>, k: nat)
    requires run.Valid() && k < |run.steps| && run.steps[k].PopExchange?
    ensures var s, t := run.states[k], run.states[k + 1];
            && (forall x :: x in s.chain ==> x in s.heap)
            && t.chain == [] && t.head == 0 && t.drained == s.drained + [Reverse(Data(s.heap, s.chain))]
  {
    ReachableInvariant(run, k);
    assert run.StepAt(k);
  }

  /** A slice is used up only when its whole batch has been delivered. */
  lemma SliceEndsWithBatch<T>(run: Run<T>, k: nat, th: Thread)
    requires run.Valid() && k < |run.states|
    requires th in run.states[k].consumers && run.states[k].consumers[th].Slice?
    ensures var s := run.states[k]; var c := s.consumers[th];
            && c.batch < |s.drained| && c.used <= |s.drained[c.batch]|
            && (c.front == 0 <==> c.used == |s.drained[c.batch]|)
            && (c.front != 0 ==> c.front in s.heap && s.heap[c.front].data == s.drained[c.batch][c.used])
  {
    SliceDeliversBatch(run, k, th);
    var c := run.states[k].consumers[th];
    if c.nodes != [] {
      assert c.nodes[0] == c.front;
    }
  }

  /**
   * What a consumer gets by following the links of its slice is the not yet used part of the
   * batch it took, oldest first, although the list was reversed in place while other threads ran.
   */
  lemma SliceDeliversBatch<T>(run: Run<T>, k: nat, th: Thread)
    requires run.Valid() && k < |run.states|
    requires th in run.states[k].consumers && run.states[k].consumers[th].Slice?
    ensures var s := run.states[k]; var c := s.consumers[th];
            && c.batch < |s.drained| && c.used <= |s.drained[c.batch]|
            && IsList(s.heap, c.front, c.nodes)
            && HasData(s.heap, c.nodes, s.drained[c.batch][c.used..])
  {
    ReachableInvariant(run, k);
    assert ConsumerOk(run.states[k], th);
  }

  /** The address a thread is about to dereference; 0 when its next step dereferences nothing. */
  function Dereferenced<T>(s: State<T>, th: Thread): Addr {
    if th in s.producers then
      if s.producers[th].Loaded? then 0 else s.producers[th].item
    else if th in s.consumers then
      match s.consumers[th]
      case Peeked => 0
      case Taken(first, _, _) => first
      case Reversing(_, prev, _, _, _) => prev
      case Slice(front, _, _, _) => front
    else 0
  }

  /** Memory safety: no thread ever touches a node that was freed, and no two the same node. */
  lemma NoDanglingNode<T>(run: Run<T>, k: nat, th: Thread)
    requires run.Valid() && k < |run.states|
    ensures var s := run.states[k];
            Dereferenced(s, th) == 0 || Dereferenced(s, th) in s.heap
    ensures var s := run.states[k];
            Dereferenced(s, th) != 0 ==>
              forall other :: other != th ==> Dereferenced(s, other) != Dereferenced(s, th)
  {
    ReachableInvariant(run, k);
    DereferencedIsOwned(run.states[k], th);
    forall other | other != th && Dereferenced(run.states[k], th) != 0
      ensures Dereferenced(run.states[k], other) != Dereferenced(run.states[k], th)
    {
      DereferencedIsOwned(run.states[k], other);
    }
  }

  lemma DereferencedIsOwned<T>(s: State<T>, th: Thread)
    requires Invariant(s)
    ensures var a := Dereferenced(s, th);
            a != 0 ==> a in s.heap && a in s.owner && s.owner[a] in {Producing(th), Consuming(th)}
  {
    if th in s.producers {
      assert ProducerOk(s, th);
    } else if th in s.consumers {
      assert ConsumerOk(s, th);
    }
  }

  // ----- The reversal loop on mutable nodes, as the thread that owns them runs it -----

  class Item<T> {
    var link: Item?<T>
    const data: T

    constructor (link: Item?<T>, data: T)
      ensures this.link == link && this.data == data
    {
      this.link := link;
      this.data := data;
    }
  }

  function At<T>(nodes: seq<Item<T>>, i: int): Item?<T> {
    if 0 <= i < |nodes| then nodes[i] else null
  }

  ghost predicate LinksOn<T>(nodes: seq<Item<T>>, i: nat)
    requires i < |nodes|
    reads nodes
  {
    nodes[i].link == At(nodes, i + 1)
  }

  ghost predicate LinksBack<T>(nodes: seq<Item<T>>, i: nat)
    requires i < |nodes|
    reads nodes
  {
    nodes[i].link == At(nodes, i - 1)
  }

  ghost predicate Distinct<T>(nodes: seq<Item<T>>) {
    forall i, j :: 0 <= i < j < |nodes| ==> nodes[i] != nodes[j]
  }

  /** The links lead from first through nodes, each visited once, to null. */
  ghost predicate Linked<T>(first: Item?<T>, nodes: seq<Item<T>>)
    reads nodes
  {
    first == At(nodes, 0) && Distinct(nodes) && forall i :: 0 <= i < |nodes| ==> LinksOn(nodes, i)
  }

  method ReverseLinks<T>(first: Item?<T>, ghost nodes: seq<Item<T>>) returns (head: Item?<T>)
    requires Linked(first, nodes)
    modifies nodes
    ensures Linked(head, Reverse(nodes))
  {
    head := first;
    assert nodes != [] ==> LinksOn(nodes, 0);
    if head != null && head.link != null {
      var prev := head.link;
      head.link := null;
      ghost var k := 1;
      forall i | 1 <= i < |nodes|
        ensures LinksOn(nodes, i)
      {
        assert old(LinksOn(nodes, i)) && nodes[0] != nodes[i];
      }
      assert LinksBack(nodes, 0);
      while prev != null
        invariant 1 <= k <= |nodes|
        invariant head == nodes[k - 1]
        invariant prev == At(nodes, k)
        invariant forall i :: 0 <= i < k ==> LinksBack(nodes, i)
        invariant forall i :: k <= i < |nodes| ==> LinksOn(nodes, i)
        decreases |nodes| - k
      {
        assert LinksOn(nodes, k);
        var pprev := prev.link;
        label Before:
        prev.link := head;
        forall i | 0 <= i < k
          ensures LinksBack(nodes, i)
        {
          assert old@Before(LinksBack(nodes, i)) && nodes[i] != nodes[k];
        }
        forall i | k < i < |nodes|
          ensures LinksOn(nodes, i)
        {
          assert old@Before(LinksOn(nodes, i)) && nodes[k] != nodes[i];
        }
        assert LinksBack(nodes, k);
        head, prev := prev, pprev;
        k := k + 1;
      }
    } else if head != null {
      assert LinksBack(nodes, 0);
    }
    BackwardsIsReversed(nodes);
  }

  lemma BackwardsIsReversed<T>(nodes: seq<Item<T>>)
    requires Distinct(nodes) && forall i :: 0 <= i < |nodes| ==> LinksBack(nodes, i)
    ensures Linked(At(nodes, |nodes| - 1), Reverse(nodes))
  {
    var back := Reverse(nodes);
    forall i | 0 <= i < |nodes| ensures back[i] == nodes[|nodes| - 1 - i] {
      ReverseIndex(nodes, i);
    }
    forall i | 0 <= i < |back|
      ensures LinksOn(back, i)
    {
      assert LinksBack(nodes, |nodes| - 1 - i);
    }
  }
}
