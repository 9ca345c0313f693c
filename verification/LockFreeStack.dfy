/** The lock-free stack with split reference counts (concurrent/chapter7/lockfree_stack.cpp) as a machine
    whose steps are the atomic operations of `push` and `pop`, interleaved at will. */
module LockFreeStack {
  import opened Options

  /** counted_node_ptr; address 0 is the null pointer. */
  datatype Counted = Counted(ext: int, ptr: nat)

  datatype Node<V> = Node(data: Option<V>, internal: int, next: Counted)

  /** Where a thread stands: the next atomic operation it performs, with its local variables. */
  datatype PC<V> =
    | Idle
    | PushNew(v: V)                          // allocate the node
    | PushLoad(node: nat)                    // load head into node->next
    | PushCas(node: nat)                     // CAS head from node->next to the node
    | PopLoad                                // load head
    | Inc(seen: Counted)                      // CAS in increase_head_count
    | Held(seen: Counted)                     // test ptr, read ptr->next
    | PopCas(seen: Counted, next: Counted)    // CAS head from `seen` to `next`
    | Took(seen: Counted)                     // swap the data out
    | Swapped(seen: Counted, res: Option<V>)  // add external_count - 2 to internal_count
    | FreeTaken(ptr: nat, res: Option<V>)    // delete, after a pop
    | Missed(ptr: nat, now: Counted)        // add -1 to internal_count
    | FreeMissed(ptr: nat, now: Counted)    // delete, after a failed CAS
    | Return(res: Option<V>)

  /** `heap` holds the allocated nodes only: freeing removes, and an address may be allocated again. */
  datatype State<V> = State(head: Counted, heap: map<nat, Node<V>>, threads: seq<PC<V>>)

  /** What the code does not decide: the operation called, the address allocated, a weak CAS failing spuriously. */
  datatype Choice<V> = Choice(push: bool, v: V, addr: nat, spurious: bool)

  function Init<V>(n: nat): State<V> {
    State(Counted(0, 0), map[], seq(n, _ => Idle))
  }

  function Go<V>(s: State<V>, t: nat, pc: PC<V>): State<V>
    requires t < |s.threads|
  {
    s.(threads := s.threads[t := pc])
  }

  function SetNode<V>(s: State<V>, n: nat, d: Node<V>): State<V> {
    s.(heap := s.heap[n := d])
  }

  /** One atomic operation of thread `t`; None when it touches or frees memory that is not allocated. */
  function Perform<V>(s: State<V>, t: nat, c: Choice<V>): Option<State<V>>
    requires t < |s.threads|
  {
    match s.threads[t]
    case Idle => Some(Go(s, t, if c.push then PushNew(c.v) else PopLoad))
    case PushNew(v) =>
      if c.addr == 0 || c.addr in s.heap then Some(s)
      else Some(Go(SetNode(s, c.addr, Node(Option.Some(v), 0, Counted(0, 0))), t, PushLoad(c.addr)))
    case PushLoad(n) =>
      if n !in s.heap then None
      else Some(Go(SetNode(s, n, s.heap[n].(next := s.head)), t, PushCas(n)))
    case PushCas(n) =>
      if n !in s.heap then None
      else if s.head == s.heap[n].next && !c.spurious then Some(Go(s.(head := Counted(1, n)), t, Idle))
      else Some(SetNode(s, n, s.heap[n].(next := s.head)))
    case PopLoad => Some(Go(s, t, Inc(s.head)))
    case Inc(seen) =>
      if s.head == seen then
        var newCounter := Counted(seen.ext + 1, seen.ptr);
        Some(Go(s.(head := newCounter), t, Held(newCounter)))
      else Some(Go(s, t, Inc(s.head)))
    case Held(seen) =>
      if seen.ptr == 0 then Some(Go(s, t, Return(None)))
      else if seen.ptr !in s.heap then None
      else Some(Go(s, t, PopCas(seen, s.heap[seen.ptr].next)))
    case PopCas(seen, next) =>
      if s.head == seen then Some(Go(s.(head := next), t, Took(seen)))
      else Some(Go(s, t, Missed(seen.ptr, s.head)))
    case Took(seen) =>
      if seen.ptr !in s.heap then None
      else
        var d := s.heap[seen.ptr];
        Some(Go(SetNode(s, seen.ptr, d.(data := None)), t, Swapped(seen, d.data)))
    case Swapped(seen, res) =>
      if seen.ptr !in s.heap then None
      else
        var d := s.heap[seen.ptr];
        var increase := seen.ext - 2;
        Some(Go(SetNode(s, seen.ptr, d.(internal := d.internal + increase)), t,
                if d.internal == -increase then FreeTaken(seen.ptr, res) else Return(res)))
    case FreeTaken(n, res) =>
      if n !in s.heap then None else Some(Go(s.(heap := s.heap - {n}), t, Return(res)))
    case Missed(n, now) =>
      if n !in s.heap then None
      else
        var d := s.heap[n];
        Some(Go(SetNode(s, n, d.(internal := d.internal - 1)), t,
                if d.internal == 1 then FreeMissed(n, now) else Inc(now)))
    case FreeMissed(n, now) =>
      if n !in s.heap then None else Some(Go(s.(heap := s.heap - {n}), t, Inc(now)))
    case Return(_) => Some(Go(s, t, Idle))
  }

  /** One entry of a schedule: which thread moves, with which choices. A thread that does not exist does nothing. */
  function Turn<V>(s: State<V>, turn: (nat, Choice<V>)): Option<State<V>> {
    if turn.0 < |s.threads| then Perform(s, turn.0, turn.1) else Some(s)
  }

  /** The states a schedule goes through, none of whose steps touches or frees memory that is not allocated. */
  ghost predicate IsRun<V>(states: seq<State<V>>, schedule: seq<(nat, Choice<V>)>) {
    && |states| == |schedule| + 1
    && forall k | 0 <= k < |schedule| :: Turn(states[k], schedule[k]) == Option.Some(states[k + 1])
  }

  // ---- Counting references ----

  datatype Role = Holder | Owner | Deleter | Pusher

  /** Holder: has counted itself on the node. Owner: has unlinked it and not yet settled its count. */
  predicate Is<V>(pc: PC<V>, role: Role, n: nat) {
    match role
    case Holder =>
      n != 0 && match pc {
        case Held(seen) => seen.ptr == n
        case PopCas(seen, _) => seen.ptr == n
        case Took(seen) => seen.ptr == n
        case Swapped(seen, _) => seen.ptr == n
        case Missed(p, _) => p == n
        case _ => false
      }
    case Owner => (pc.Took? || pc.Swapped?) && pc.seen.ptr == n
    case Deleter => (pc.FreeTaken? || pc.FreeMissed?) && pc.ptr == n
    case Pusher => (pc.PushLoad? || pc.PushCas?) && pc.node == n
  }

  function Bit<V>(pc: PC<V>, role: Role, n: nat): nat {
    if Is(pc, role, n) then 1 else 0
  }

  function Count<V>(ts: seq<PC<V>>, role: Role, n: nat): nat {
    if ts == [] then 0 else Bit(ts[0], role, n) + Count(ts[1..], role, n)
  }

  lemma {:induction false} Moved<V>(ts: seq<PC<V>>, t: nat, pc: PC<V>, role: Role, n: nat)
    requires t < |ts|
    ensures Count(ts[t := pc], role, n) == Count(ts, role, n) - Bit(ts[t], role, n) + Bit(pc, role, n)
  {
    if t == 0 {
      assert ts[t := pc][1..] == ts[1..];
    } else {
      Moved(ts[1..], t - 1, pc, role, n);
      assert ts[t := pc][1..] == ts[1..][t - 1 := pc];
    }
  }

  lemma {:induction false} CountAtLeast<V>(ts: seq<PC<V>>, t: nat, role: Role, n: nat)
    requires t < |ts| && Is(ts[t], role, n)
    ensures Count(ts, role, n) >= 1
  {
    if t > 0 {
      CountAtLeast(ts[1..], t - 1, role, n);
    }
  }

  lemma {:induction false} CountTwo<V>(ts: seq<PC<V>>, t: nat, u: nat, role: Role, n: nat)
    requires t < u < |ts| && Is(ts[t], role, n) && Is(ts[u], role, n)
    ensures Count(ts, role, n) >= 2
  {
    if t > 0 {
      CountTwo(ts[1..], t - 1, u - 1, role, n);
    } else {
      CountAtLeast(ts[1..], u - 1, role, n);
    }
  }

  // ---- The invariant ----

  /** History: the linked nodes from the head down, and the external count each unsettled node was taken with. */
  datatype History = History(list: seq<nat>, taken: map<nat, int>)

  /** The linked nodes below a counted pointer; on each, holders = external_count - 1 + internal_count. */
  ghost predicate ListOk<V>(ts: seq<PC<V>>, heap: map<nat, Node<V>>, head: Counted, list: seq<nat>)
    decreases |list|
  {
    if list == [] then head.ptr == 0
    else
      var n := list[0];
      && head.ptr == n && n in heap && n !in list[1..]
      && Count(ts, Holder, n) == head.ext - 1 + heap[n].internal
      && ListOk(ts, heap, heap[n].next, list[1..])
  }

  /** The list only depends on the next fields of its nodes, and on holders less internal count. */
  lemma {:induction false} ListFrame<V>(ts: seq<PC<V>>, heap: map<nat, Node<V>>, head: Counted, list: seq<nat>,
                                        ts': seq<PC<V>>, heap': map<nat, Node<V>>)
    requires ListOk(ts, heap, head, list)
    requires forall n | n in list && n in heap ::
      && n in heap' && heap'[n].next == heap[n].next
      && Count(ts', Holder, n) - heap'[n].internal == Count(ts, Holder, n) - heap[n].internal
    ensures ListOk(ts', heap', head, list)
    decreases |list|
  {
    hide Count;
    if list != [] {
      ListFrame(ts, heap, heap[list[0]].next, list[1..], ts', heap');
    }
  }

  /** Nobody refers to memory that is not allocated; an allocated node is linked, taken, private or settled. */
  ghost predicate NodeOk<V>(s: State<V>, x: History, n: nat) {
    var holders, owners := Count(s.threads, Holder, n), Count(s.threads, Owner, n);
    var deleters, pushers := Count(s.threads, Deleter, n), Count(s.threads, Pusher, n);
    if n == 0 || n !in s.heap then
      n !in s.heap && n !in x.list && n !in x.taken && holders == 0 && owners == 0 && deleters == 0 && pushers == 0
    else
      var d := s.heap[n];
      if n in x.list then
        n !in x.taken && owners == 0 && deleters == 0 && pushers == 0 && d.internal <= 0 && d.data.Some?
      else if n in x.taken then
        owners == 1 && deleters == 0 && pushers == 0 && d.internal <= 0 && holders == x.taken[n] - 1 + d.internal
      else if pushers > 0 then
        pushers == 1 && owners == 0 && deleters == 0 && holders == 0 && d.internal == 0 && d.data.Some?
      else
        owners == 0 && holders == d.internal && deleters == if d.internal == 0 then 1 else 0
  }

  ghost predicate ThreadOk<V>(s: State<V>, x: History, t: nat)
    requires t < |s.threads|
  {
    match s.threads[t]
    case PopCas(seen, next) => seen.ptr != 0 && seen.ptr in s.heap && s.heap[seen.ptr].next == next
    case Took(seen) =>
      seen.ptr in x.taken && x.taken[seen.ptr] == seen.ext && seen.ptr in s.heap && s.heap[seen.ptr].data.Some?
    case Swapped(seen, res) => seen.ptr in x.taken && x.taken[seen.ptr] == seen.ext
    case Missed(n, _) => n != 0
    case _ => true
  }

  ghost predicate Inv<V>(s: State<V>, x: History) {
    && ListOk(s.threads, s.heap, s.head, x.list)
    && (forall n: nat :: NodeOk(s, x, n))
    && (forall t | 0 <= t < |s.threads| :: ThreadOk(s, x, t))
  }

  // ---- The atomic stack ----

  datatype Status<V> = Quiet | Pushing(v: V) | Popping | Popped(res: Option<V>)

  datatype Atomic<V> = Atomic(stack: seq<V>, threads: seq<Status<V>>)

  /** Calls and returns move a thread alone; a push and a pop take effect in one step. */
  ghost predicate AtomicStep<V>(a: Atomic<V>, b: Atomic<V>, t: nat) {
    a == b
    || (t < |a.threads| == |b.threads| && b.threads == a.threads[t := b.threads[t]]
        && match (a.threads[t], b.threads[t]) {
             case (Quiet, Pushing(_)) => b.stack == a.stack
             case (Quiet, Popping) => b.stack == a.stack
             case (Pushing(v), Quiet) => b.stack == [v] + a.stack
             case (Popping, Popped(None)) => a.stack == [] == b.stack
             case (Popping, Popped(Some(v))) => a.stack == [v] + b.stack
             case (Popped(_), Quiet) => b.stack == a.stack
             case _ => false
           })
  }

  /** What a thread is doing, as now from outside: an operation takes effect at its successful CAS on head. */
  function StatusOf<V>(heap: map<nat, Node<V>>, pc: PC<V>): Status<V> {
    match pc
    case Idle => Quiet
    case PushNew(v) => Pushing(v)
    case PushLoad(n) => if n in heap && heap[n].data.Some? then Pushing(heap[n].data.value) else Quiet
    case PushCas(n) => if n in heap && heap[n].data.Some? then Pushing(heap[n].data.value) else Quiet
    case PopLoad => Popping
    case Inc(_) => Popping
    case Held(seen) => if seen.ptr == 0 then Popped(None) else Popping
    case PopCas(_, _) => Popping
    case Took(seen) => if seen.ptr in heap then Popped(heap[seen.ptr].data) else Popping
    case Swapped(_, res) => Popped(res)
    case FreeTaken(_, res) => Popped(res)
    case Missed(_, _) => Popping
    case FreeMissed(_, _) => Popping
    case Return(res) => Popped(res)
  }

  ghost function Abs<V>(s: State<V>, x: History): (a: Atomic<V>)
    requires Inv(s, x)
    ensures |a.stack| == |x.list| && |a.threads| == |s.threads|
    ensures forall k | 0 <= k < |x.list| :: x.list[k] in s.heap && s.heap[x.list[k]].data == Option.Some(a.stack[k])
  {
    assert forall k | 0 <= k < |x.list| :: NodeOk(s, x, x.list[k]);
    Atomic(seq(|x.list|, k requires 0 <= k < |x.list| => s.heap[x.list[k]].data.value),
           seq(|s.threads|, t requires 0 <= t < |s.threads| => StatusOf(s.heap, s.threads[t])))
  }

  // ---- Every step keeps the invariant and is a step of the atomic stack ----

  ghost predicate Refines<V>(s: State<V>, x: History, t: nat, s': State<V>, x': History) {
    Inv(s, x) && Inv(s', x') && AtomicStep(Abs(s, x), Abs(s', x'), t)
  }

  lemma {:induction false} MovedAll<V>(s: State<V>, s': State<V>, t: nat, pc: PC<V>)
    requires t < |s.threads| && s'.threads == s.threads[t := pc]
    ensures forall role: Role, n: nat ::
      Count(s'.threads, role, n) == Count(s.threads, role, n) - Bit(s.threads[t], role, n) + Bit(pc, role, n)
  {
    forall role: Role, n: nat
      ensures Count(s'.threads, role, n) == Count(s.threads, role, n) - Bit(s.threads[t], role, n) + Bit(pc, role, n)
    {
      Moved(s.threads, t, pc, role, n);
    }
  }

  /** A thread that keeps its references and touches no memory keeps the invariant. */
  lemma {:induction false} LocalMove<V>(s: State<V>, x: History, t: nat, pc: PC<V>)
    requires Inv(s, x) && t < |s.threads| && ThreadOk(Go(s, t, pc), x, t)
    requires forall role: Role, n: nat :: Is(pc, role, n) == Is(s.threads[t], role, n)
    ensures Inv(Go(s, t, pc), x)
  {
    hide Count, Is;
    var s' := Go(s, t, pc);
    MovedAll(s, s', t, pc);
    ListFrame(s.threads, s.heap, s.head, x.list, s'.threads, s'.heap);
    hide ListOk;
    forall n: nat
      ensures NodeOk(s', x, n)
    {
      assert NodeOk(s, x, n);
    }
    forall u | 0 <= u < |s'.threads|
      ensures ThreadOk(s', x, u)
    {
      assert ThreadOk(s, x, u);
    }
  }

  lemma {:induction false} LocalRefines<V>(s: State<V>, x: History, t: nat, pc: PC<V>)
    requires Inv(s, x) && t < |s.threads| && ThreadOk(Go(s, t, pc), x, t)
    requires forall role: Role, n: nat :: Is(pc, role, n) == Is(s.threads[t], role, n)
    requires var a, b := StatusOf(s.heap, s.threads[t]), StatusOf(s.heap, pc);
      a == b || (a == Quiet && (b.Pushing? || b.Popping?)) || (a.Popped? && b == Quiet)
    ensures Refines(s, x, t, Go(s, t, pc), x)
  {
    LocalMove(s, x, t, pc);
    var s' := Go(s, t, pc);
    hide Inv, StatusOf, Is;
    assert Abs(s', x).stack == Abs(s, x).stack;
    assert Abs(s', x).threads == Abs(s, x).threads[t := StatusOf(s.heap, pc)];
  }

  /** Whoever works on a node as its pusher or owner refers to allocated memory. */
  lemma {:induction false} RefersToHeap<V>(s: State<V>, x: History, u: nat, role: Role, n: nat)
    requires Inv(s, x) && u < |s.threads| && Is(s.threads[u], role, n)
    ensures n != 0 && n in s.heap
  {
    hide Is;
    CountAtLeast(s.threads, u, role, n);
    assert NodeOk(s, x, n);
  }

  /** The list and its data stay, and only thread `t` changes its status, in a way that is a step. */
  lemma StackKept<V>(s: State<V>, x: History, t: nat, pc: PC<V>, s': State<V>, x': History)
    requires Inv(s, x) && Inv(s', x') && t < |s.threads| && s'.threads == s.threads[t := pc] && x'.list == x.list
    requires forall k | 0 <= k < |x.list| ::
      x.list[k] in s.heap && x.list[k] in s'.heap ==> s'.heap[x.list[k]].data == s.heap[x.list[k]].data
    requires forall u | 0 <= u < |s.threads| && u != t :: StatusOf(s'.heap, s.threads[u]) == StatusOf(s.heap, s.threads[u])
    requires var a, b := StatusOf(s.heap, s.threads[t]), StatusOf(s'.heap, pc);
      a == b || (a == Quiet && (b.Pushing? || b.Popping?)) || (a.Popped? && b == Quiet)
    ensures Refines(s, x, t, s', x')
  {
  }

  lemma {:induction false} AllocStep<V>(s: State<V>, x: History, t: nat, c: Choice<V>)
    requires Inv(s, x) && t < |s.threads| && s.threads[t].PushNew?
    ensures Perform(s, t, c).Some? && Refines(s, x, t, Perform(s, t, c).value, x)
  {
    if c.addr == 0 || c.addr in s.heap {
    } else {
      var n := c.addr;
      var s' := Perform(s, t, c).value;
      assert NodeOk(s, x, n);
      AllocInv(s, x, t, n);
      forall u | 0 <= u < |s.threads| && u != t
        ensures StatusOf(s'.heap, s.threads[u]) == StatusOf(s.heap, s.threads[u])
      {
        if Is(s.threads[u], Pusher, n) {
          RefersToHeap(s, x, u, Pusher, n);
        } else if Is(s.threads[u], Owner, n) {
          RefersToHeap(s, x, u, Owner, n);
        }
      }
      hide Inv;
      StackKept(s, x, t, PushLoad(n), s', x);
    }
  }

  lemma {:induction false} AllocInv<V>(s: State<V>, x: History, t: nat, n: nat)
    requires Inv(s, x) && t < |s.threads| && s.threads[t].PushNew? && n != 0 && n !in s.heap
    ensures Inv(Go(SetNode(s, n, Node(Option.Some(s.threads[t].v), 0, Counted(0, 0))), t, PushLoad(n)), x)
  {
    hide Count;
    var s' := Go(SetNode(s, n, Node(Option.Some(s.threads[t].v), 0, Counted(0, 0))), t, PushLoad(n));
    MovedAll(s, s', t, PushLoad(n));
    ListFrame(s.threads, s.heap, s.head, x.list, s'.threads, s'.heap);
    hide ListOk;
    forall m: nat
      ensures NodeOk(s', x, m)
    {
      assert NodeOk(s, x, m);
    }
    forall u | 0 <= u < |s'.threads|
      ensures ThreadOk(s', x, u)
    {
      assert ThreadOk(s, x, u);
    }
  }

  /** Loading head into the next field of a private node. */
  lemma {:induction false} LoadNextInv<V>(s: State<V>, x: History, t: nat, n: nat)
    requires Inv(s, x) && t < |s.threads| && Is(s.threads[t], Pusher, n) && n in s.heap
    ensures Inv(Go(SetNode(s, n, s.heap[n].(next := s.head)), t, PushCas(n)), x)
  {
    hide Count;
    var s' := Go(SetNode(s, n, s.heap[n].(next := s.head)), t, PushCas(n));
    MovedAll(s, s', t, PushCas(n));
    CountAtLeast(s.threads, t, Pusher, n);
    assert NodeOk(s, x, n);
    ListFrame(s.threads, s.heap, s.head, x.list, s'.threads, s'.heap);
    hide ListOk;
    forall m: nat
      ensures NodeOk(s', x, m)
    {
      assert NodeOk(s, x, m);
    }
    forall u | 0 <= u < |s'.threads|
      ensures ThreadOk(s', x, u)
    {
      assert ThreadOk(s, x, u);
      if Is(s.threads[u], Holder, n) {
        CountAtLeast(s.threads, u, Holder, n);
      }
    }
  }

  lemma {:induction false} LoadNextStep<V>(s: State<V>, x: History, t: nat, n: nat)
    requires Inv(s, x) && t < |s.threads| && Is(s.threads[t], Pusher, n)
    ensures n in s.heap && Refines(s, x, t, Go(SetNode(s, n, s.heap[n].(next := s.head)), t, PushCas(n)), x)
  {
    RefersToHeap(s, x, t, Pusher, n);
    LoadNextInv(s, x, t, n);
    var s' := Go(SetNode(s, n, s.heap[n].(next := s.head)), t, PushCas(n));
    forall u | 0 <= u < |s.threads|
      ensures StatusOf(s'.heap, s.threads[u]) == StatusOf(s.heap, s.threads[u])
    {
    }
    hide Inv;
    StackKept(s, x, t, PushCas(n), s', x);
  }

  /** A successful push links the node in front. */
  lemma {:induction false} LinkInv<V>(s: State<V>, x: History, t: nat, n: nat)
    requires Inv(s, x) && t < |s.threads| && Is(s.threads[t], Pusher, n) && n in s.heap && s.head == s.heap[n].next
    ensures Inv(Go(s.(head := Counted(1, n)), t, Idle), History([n] + x.list, x.taken))
  {
    hide Count;
    var s' := Go(s.(head := Counted(1, n)), t, Idle);
    var x' := History([n] + x.list, x.taken);
    MovedAll(s, s', t, Idle);
    CountAtLeast(s.threads, t, Pusher, n);
    assert NodeOk(s, x, n);
    ListFrame(s.threads, s.heap, s.head, x.list, s'.threads, s'.heap);
    assert x'.list[1..] == x.list;
    assert ListOk(s'.threads, s'.heap, s'.head, x'.list);
    hide ListOk;
    forall m: nat
      ensures NodeOk(s', x', m)
    {
      assert NodeOk(s, x, m);
      assert m in x'.list <==> m == n || m in x.list;
    }
    forall u | 0 <= u < |s'.threads|
      ensures ThreadOk(s', x', u)
    {
      assert ThreadOk(s, x, u);
    }
  }

  /** The values along a list with one more node in front. */
  lemma {:induction false} FrontStack<V>(heap: map<nat, Node<V>>, n: nat, list: seq<nat>, a: seq<V>, b: seq<V>)
    requires n in heap && (forall k | 0 <= k < |list| :: list[k] in heap) && |a| == |list| && |b| == |list| + 1
    requires forall k | 0 <= k < |list| :: heap[list[k]].data == Option.Some(a[k])
    requires forall k | 0 <= k < |b| :: heap[([n] + list)[k]].data == Option.Some(b[k])
    ensures heap[n].data == Option.Some(b[0]) && b == [b[0]] + a
  {
    assert ([n] + list)[0] == n;
    forall k | 0 <= k < |list|
      ensures b[k + 1] == a[k]
    {
      assert ([n] + list)[k + 1] == list[k];
    }
  }

  lemma {:induction false} LinkStep<V>(s: State<V>, x: History, t: nat, n: nat)
    requires Inv(s, x) && t < |s.threads| && s.threads[t] == PushCas(n) && n in s.heap && s.head == s.heap[n].next
    ensures Refines(s, x, t, Go(s.(head := Counted(1, n)), t, Idle), History([n] + x.list, x.taken))
  {
    LinkInv(s, x, t, n);
    var s' := Go(s.(head := Counted(1, n)), t, Idle);
    var x' := History([n] + x.list, x.taken);
    CountAtLeast(s.threads, t, Pusher, n);
    assert NodeOk(s, x, n);
    assert forall k | 0 <= k < |x.list| :: NodeOk(s, x, x.list[k]);
    hide Inv, NodeOk;
    var a, b := Abs(s, x), Abs(s', x');
    FrontStack(s.heap, n, x.list, a.stack, b.stack);
    assert a.threads[t] == Pushing(b.stack[0]);
    assert forall u | 0 <= u < |s.threads| :: b.threads[u] == if u == t then Quiet else a.threads[u];
    hide StatusOf, Abs;
    assert b.threads == a.threads[t := Quiet];
  }

  /** Counting oneself on the head. */
  lemma {:induction false} IncInv<V>(s: State<V>, x: History, t: nat)
    requires Inv(s, x) && t < |s.threads| && s.threads[t] == Inc(s.head)
    ensures Inv(Go(s.(head := Counted(s.head.ext + 1, s.head.ptr)), t, Held(Counted(s.head.ext + 1, s.head.ptr))), x)
  {
    hide Count;
    var c := Counted(s.head.ext + 1, s.head.ptr);
    var s' := Go(s.(head := c), t, Held(c));
    MovedAll(s, s', t, Held(c));
    assert NodeOk(s, x, 0);
    if x.list != [] {
      ListFrame(s.threads, s.heap, s.heap[x.list[0]].next, x.list[1..], s'.threads, s'.heap);
    }
    assert ListOk(s'.threads, s'.heap, s'.head, x.list);
    hide ListOk;
    forall m: nat
      ensures NodeOk(s', x, m)
    {
      assert NodeOk(s, x, m);
    }
    forall u | 0 <= u < |s'.threads|
      ensures ThreadOk(s', x, u)
    {
      assert ThreadOk(s, x, u);
    }
  }

  lemma {:induction false} IncStep<V>(s: State<V>, x: History, t: nat)
    requires Inv(s, x) && t < |s.threads| && s.threads[t] == Inc(s.head)
    ensures Refines(s, x, t, Go(s.(head := Counted(s.head.ext + 1, s.head.ptr)), t, Held(Counted(s.head.ext + 1, s.head.ptr))), x)
  {
    IncInv(s, x, t);
    var c := Counted(s.head.ext + 1, s.head.ptr);
    var s' := Go(s.(head := c), t, Held(c));
    assert NodeOk(s, x, 0);
    assert s.head.ptr == 0 ==> x.list == [];
    hide Inv;
    assert Abs(s', x).stack == Abs(s, x).stack;
    assert Abs(s', x).threads == Abs(s, x).threads[t := StatusOf(s.heap, Held(c))];
  }

  /** A successful pop unlinks the front node, which its taker still has to settle. */
  lemma {:induction false} TakeInv<V>(s: State<V>, x: History, t: nat, next: Counted)
    requires Inv(s, x) && t < |s.threads| && s.threads[t] == PopCas(s.head, next)
    ensures |x.list| > 0 && x.list[0] == s.head.ptr
    ensures Inv(Go(s.(head := next), t, Took(s.head)), History(x.list[1..], x.taken[s.head.ptr := s.head.ext]))
  {
    hide Count;
    var n := s.head.ptr;
    var s' := Go(s.(head := next), t, Took(s.head));
    MovedAll(s, s', t, Took(s.head));
    assert ThreadOk(s, x, t) && NodeOk(s, x, n);
    CountAtLeast(s.threads, t, Holder, n);
    var x' := History(x.list[1..], x.taken[n := s.head.ext]);
    assert x.list == [n] + x'.list;
    ListFrame(s.threads, s.heap, next, x'.list, s'.threads, s'.heap);
    hide ListOk;
    forall m: nat
      ensures NodeOk(s', x', m)
    {
      assert NodeOk(s, x, m);
      assert m in x.list <==> m == n || m in x'.list;
    }
    forall u | 0 <= u < |s'.threads|
      ensures ThreadOk(s', x', u)
    {
      assert ThreadOk(s, x, u);
    }
  }

  lemma {:induction false} TakeStep<V>(s: State<V>, x: History, t: nat, next: Counted)
    requires Inv(s, x) && t < |s.threads| && s.threads[t] == PopCas(s.head, next)
    ensures |x.list| > 0
    ensures Refines(s, x, t, Go(s.(head := next), t, Took(s.head)), History(x.list[1..], x.taken[s.head.ptr := s.head.ext]))
  {
    TakeInv(s, x, t, next);
    var n := s.head.ptr;
    var s' := Go(s.(head := next), t, Took(s.head));
    var x' := History(x.list[1..], x.taken[n := s.head.ext]);
    assert n in x.list && n in s.heap && x.list == [n] + x'.list;
    assert forall k | 0 <= k < |x'.list| :: x'.list[k] in s'.heap by {
      assert forall k | 0 <= k < |x'.list| :: NodeOk(s', x', x'.list[k]);
    }
    hide Inv, NodeOk, ListOk;
    var a, b := Abs(s, x), Abs(s', x');
    FrontStack(s.heap, n, x'.list, b.stack, a.stack);
    assert b.threads == a.threads[t := Popped(Option.Some(a.stack[0]))];
  }

  /** Only one thread owns a node. */
  lemma {:induction false} OneOwner<V>(s: State<V>, x: History, t: nat, u: nat, n: nat)
    requires Inv(s, x) && t < |s.threads| && u < |s.threads| && t != u && Is(s.threads[t], Owner, n)
    ensures !Is(s.threads[u], Owner, n)
  {
    hide Is;
    assert NodeOk(s, x, n);
    if Is(s.threads[u], Owner, n) {
      if t < u {
        CountTwo(s.threads, t, u, Owner, n);
      } else {
        CountTwo(s.threads, u, t, Owner, n);
      }
    }
  }

  /** The owner swaps the data out. */
  lemma {:induction false} SwapStep<V>(s: State<V>, x: History, t: nat, seen: Counted)
    requires Inv(s, x) && t < |s.threads| && s.threads[t] == Took(seen)
    ensures seen.ptr in s.heap
    ensures Refines(s, x, t, Go(SetNode(s, seen.ptr, s.heap[seen.ptr].(data := None)), t, Swapped(seen, s.heap[seen.ptr].data)), x)
  {
    hide Count;
    var n := seen.ptr;
    RefersToHeap(s, x, t, Owner, n);
    CountAtLeast(s.threads, t, Owner, n);
    assert ThreadOk(s, x, t) && NodeOk(s, x, n);
    var pc := Swapped(seen, s.heap[n].data);
    var s' := Go(SetNode(s, n, s.heap[n].(data := None)), t, pc);
    MovedAll(s, s', t, pc);
    ListFrame(s.threads, s.heap, s.head, x.list, s'.threads, s'.heap);
    hide ListOk;
    forall m: nat
      ensures NodeOk(s', x, m)
    {
      assert NodeOk(s, x, m);
    }
    forall u | 0 <= u < |s'.threads|
      ensures ThreadOk(s', x, u)
      ensures u != t ==> StatusOf(s'.heap, s.threads[u]) == StatusOf(s.heap, s.threads[u])
    {
      assert ThreadOk(s, x, u);
      if u != t {
        OneOwner(s, x, t, u, n);
        if Is(s.threads[u], Pusher, n) {
          CountAtLeast(s.threads, u, Pusher, n);
        }
      }
    }
    assert Inv(s', x);
    hide Inv;
    StackKept(s, x, t, pc, s', x);
  }

  /** The owner adds what it knows of the external count, and frees the node if nobody else holds it. */
  lemma {:induction false} SettleStep<V>(s: State<V>, x: History, t: nat, c: Choice<V>)
    requires Inv(s, x) && t < |s.threads| && s.threads[t].Swapped?
    ensures Perform(s, t, c).Some?
    ensures Refines(s, x, t, Perform(s, t, c).value, History(x.list, x.taken - {s.threads[t].seen.ptr}))
  {
    hide Count;
    var n := s.threads[t].seen.ptr;
    RefersToHeap(s, x, t, Owner, n);
    CountAtLeast(s.threads, t, Owner, n);
    assert ThreadOk(s, x, t) && NodeOk(s, x, n);
    var s', x' := Perform(s, t, c).value, History(x.list, x.taken - {n});
    var pc := s'.threads[t];
    MovedAll(s, s', t, pc);
    ListFrame(s.threads, s.heap, s.head, x.list, s'.threads, s'.heap);
    hide ListOk;
    forall m: nat
      ensures NodeOk(s', x', m)
    {
      assert NodeOk(s, x, m);
    }
    forall u | 0 <= u < |s'.threads|
      ensures ThreadOk(s', x', u)
      ensures u != t ==> StatusOf(s'.heap, s.threads[u]) == StatusOf(s.heap, s.threads[u])
    {
      assert ThreadOk(s, x, u);
      if u != t {
        OneOwner(s, x, t, u, n);
      }
    }
    assert Inv(s', x');
    hide Inv;
    StackKept(s, x, t, pc, s', x');
  }

  /** A thread that missed takes itself off the count, and frees the node if it was the last holder. */
  lemma {:induction false} MissStep<V>(s: State<V>, x: History, t: nat, c: Choice<V>)
    requires Inv(s, x) && t < |s.threads| && s.threads[t].Missed?
    ensures Perform(s, t, c).Some? && Refines(s, x, t, Perform(s, t, c).value, x)
  {
    hide Count;
    var n := s.threads[t].ptr;
    assert ThreadOk(s, x, t);
    RefersToHeap(s, x, t, Holder, n);
    CountAtLeast(s.threads, t, Holder, n);
    assert NodeOk(s, x, n);
    var s' := Perform(s, t, c).value;
    var pc := s'.threads[t];
    MovedAll(s, s', t, pc);
    ListFrame(s.threads, s.heap, s.head, x.list, s'.threads, s'.heap);
    hide ListOk;
    forall m: nat
      ensures NodeOk(s', x, m)
    {
      assert NodeOk(s, x, m);
    }
    forall u | 0 <= u < |s'.threads|
      ensures ThreadOk(s', x, u)
    {
      assert ThreadOk(s, x, u);
    }
    assert Inv(s', x);
    hide Inv;
    StackKept(s, x, t, pc, s', x);
  }

  /** A node is freed when it is allocated, unlinked, and held by nobody. */
  lemma {:induction false} FreeStep<V>(s: State<V>, x: History, t: nat, c: Choice<V>)
    requires Inv(s, x) && t < |s.threads| && (s.threads[t].FreeTaken? || s.threads[t].FreeMissed?)
    ensures Perform(s, t, c).Some? && Refines(s, x, t, Perform(s, t, c).value, x)
    ensures Count(s.threads, Holder, s.threads[t].ptr) == 0 && s.threads[t].ptr !in x.list
  {
    hide Count;
    var n := s.threads[t].ptr;
    RefersToHeap(s, x, t, Deleter, n);
    CountAtLeast(s.threads, t, Deleter, n);
    assert NodeOk(s, x, n);
    var s' := Perform(s, t, c).value;
    var pc := s'.threads[t];
    MovedAll(s, s', t, pc);
    ListFrame(s.threads, s.heap, s.head, x.list, s'.threads, s'.heap);
    hide ListOk;
    forall m: nat
      ensures NodeOk(s', x, m)
    {
      assert NodeOk(s, x, m);
    }
    forall u | 0 <= u < |s'.threads|
      ensures ThreadOk(s', x, u)
      ensures u != t ==> StatusOf(s'.heap, s.threads[u]) == StatusOf(s.heap, s.threads[u])
    {
      assert ThreadOk(s, x, u);
      if Is(s.threads[u], Holder, n) {
        CountAtLeast(s.threads, u, Holder, n);
      } else if Is(s.threads[u], Pusher, n) {
        CountAtLeast(s.threads, u, Pusher, n);
      } else if Is(s.threads[u], Owner, n) {
        CountAtLeast(s.threads, u, Owner, n);
      }
    }
    assert Inv(s', x);
    hide Inv;
    StackKept(s, x, t, pc, s', x);
  }

  lemma ThreadIsOk<V>(s: State<V>, x: History, t: nat)
    requires Inv(s, x) && t < |s.threads|
    ensures ThreadOk(s, x, t)
  {
  }

  /** Every step of the machine: no freed memory is touched, the invariant holds again, the atomic stack follows. */
  lemma {:induction false} StepRefines<V>(s: State<V>, x: History, t: nat, c: Choice<V>) returns (x': History)
    requires Inv(s, x) && t < |s.threads|
    ensures Perform(s, t, c).Some? && Refines(s, x, t, Perform(s, t, c).value, x')
  {
    hide Inv, AtomicStep;
    x' := x;
    match s.threads[t]
    case Idle =>
      LocalRefines(s, x, t, if c.push then PushNew(c.v) else PopLoad);
    case PushNew(v) =>
      AllocStep(s, x, t, c);
    case PushLoad(n) =>
      LoadNextStep(s, x, t, n);
    case PushCas(n) =>
      LoadNextStep(s, x, t, n);
      if s.head == s.heap[n].next && !c.spurious {
        LinkStep(s, x, t, n);
        x' := History([n] + x.list, x.taken);
      } else {
        assert s.threads[t := PushCas(n)] == s.threads;
      }
    case PopLoad =>
      LocalRefines(s, x, t, Inc(s.head));
    case Inc(seen) =>
      if s.head == seen {
        IncStep(s, x, t);
      } else {
        LocalRefines(s, x, t, Inc(s.head));
      }
    case Held(seen) =>
      if seen.ptr == 0 {
        LocalRefines(s, x, t, Return(None));
      } else {
        RefersToHeap(s, x, t, Holder, seen.ptr);
        LocalRefines(s, x, t, PopCas(seen, s.heap[seen.ptr].next));
      }
    case PopCas(seen, next) =>
      if s.head == seen {
        TakeStep(s, x, t, next);
        x' := History(x.list[1..], x.taken[s.head.ptr := s.head.ext]);
      } else {
        ThreadIsOk(s, x, t);
        LocalRefines(s, x, t, Missed(seen.ptr, s.head));
      }
    case Took(seen) =>
      SwapStep(s, x, t, seen);
    case Swapped(seen, _) =>
      SettleStep(s, x, t, c);
      x' := History(x.list, x.taken - {seen.ptr});
    case Missed(_, _) =>
      MissStep(s, x, t, c);
    case FreeTaken(_, _) =>
      FreeStep(s, x, t, c);
    case FreeMissed(_, _) =>
      FreeStep(s, x, t, c);
    case Return(_) =>
      LocalRefines(s, x, t, Idle);
  }

  // ---- Whole runs ----

  lemma {:induction false} InitCount<V>(n: nat, role: Role, m: nat)
    ensures Count(seq<PC<V>>(n, _ => Idle), role, m) == 0
  {
    if n > 0 {
      var ts := seq<PC<V>>(n, _ => Idle);
      assert ts[1..] == seq<PC<V>>(n - 1, _ => Idle);
      InitCount<V>(n - 1, role, m);
    }
  }

  lemma {:induction false} InitInv<V>(n: nat)
    ensures Inv(Init<V>(n), History([], map[])) && Abs(Init<V>(n), History([], map[])) == Atomic([], seq(n, _ => Quiet))
  {
    hide Count;
    forall role: Role, m: nat
      ensures Count(Init<V>(n).threads, role, m) == 0
    {
      InitCount<V>(n, role, m);
    }
    assert Abs(Init<V>(n), History([], map[])).threads == seq<Status<V>>(n, _ => Quiet);
  }

  /** A run of the atomic stack on the same schedule, which at every point is what the machine stands for. */
  ghost predicate Alongside<V>(states: seq<State<V>>, xs: seq<History>, trace: seq<Atomic<V>>, schedule: seq<(nat, Choice<V>)>) {
    && |states| == |xs| == |trace| == |schedule| + 1
    && (forall k | 0 <= k < |states| :: Inv(states[k], xs[k]) && trace[k] == Abs(states[k], xs[k]))
    && (forall k | 0 <= k < |schedule| :: AtomicStep(trace[k], trace[k + 1], schedule[k].0))
  }

  /** What can be seen of an operation from outside: who has called what, and what a pop returns. */
  ghost predicate Shows<V>(pc: PC<V>, status: Status<V>) {
    match pc
    case Idle => status == Quiet
    case PushNew(v) => status == Pushing(v)
    case PushLoad(_) => status.Pushing?
    case PushCas(_) => status.Pushing?
    case PopLoad => status == Popping
    case Return(res) => status == Popped(res)
    case _ => status == Popping || status.Popped?
  }

  lemma {:induction false} AbsShows<V>(s: State<V>, x: History, t: nat)
    requires Inv(s, x) && t < |s.threads|
    ensures Shows(s.threads[t], Abs(s, x).threads[t])
  {
    if s.threads[t].PushLoad? || s.threads[t].PushCas? {
      var n := s.threads[t].node;
      RefersToHeap(s, x, t, Pusher, n);
      CountAtLeast(s.threads, t, Pusher, n);
      assert NodeOk(s, x, n);
    }
  }

  lemma {:induction false} NextTurn<V>(s: State<V>, x: History, turn: (nat, Choice<V>)) returns (s': State<V>, x': History)
    requires Inv(s, x)
    ensures Turn(s, turn) == Option.Some(s') && Inv(s', x') && AtomicStep(Abs(s, x), Abs(s', x'), turn.0)
  {
    hide Inv, Perform, Abs;
    if turn.0 < |s.threads| {
      x' := StepRefines(s, x, turn.0, turn.1);
      s' := Perform(s, turn.0, turn.1).value;
    } else {
      s', x' := s, x;
    }
  }

  /** Any number of threads, any schedule: no run touches or frees memory that is not allocated, the counts are exact
      at every point of it, and next to it the atomic stack runs from empty on the same schedule, with the same calls
      and the same results. */
  lemma {:induction false} EveryRunRefines<V>(n: nat, schedule: seq<(nat, Choice<V>)>)
    returns (states: seq<State<V>>, xs: seq<History>, trace: seq<Atomic<V>>)
    ensures IsRun(states, schedule) && states[0] == Init<V>(n)
    ensures Alongside(states, xs, trace, schedule) && trace[0] == Atomic([], seq(n, _ => Quiet))
    ensures forall k, t | 0 <= k < |states| && 0 <= t < n ::
              t < |states[k].threads| && t < |trace[k].threads| && Shows(states[k].threads[t], trace[k].threads[t])
  {
    hide Inv, AtomicStep, Turn, Abs, Shows;
    InitInv<V>(n);
    var x := History([], map[]);
    states, xs, trace := [Init<V>(n)], [x], [Abs(Init<V>(n), x)];
    for k := 0 to |schedule|
      invariant IsRun(states, schedule[..k]) && Alongside(states, xs, trace, schedule[..k])
      invariant states[0] == Init<V>(n) && trace[0] == Atomic([], seq(n, _ => Quiet))
      invariant forall i | 0 <= i < |states| :: |states[i].threads| == n
    {
      var s, x := NextTurn(states[k], xs[k], schedule[k]);
      ThreadsStay(states[k], schedule[k]);
      states, xs, trace := states + [s], xs + [x], trace + [Abs(s, x)];
    }
    assert schedule[..|schedule|] == schedule;
    forall k, t | 0 <= k < |states| && 0 <= t < n
      ensures t < |trace[k].threads| && Shows(states[k].threads[t], trace[k].threads[t])
    {
      AbsShows(states[k], xs[k], t);
    }
  }

  lemma ThreadsStay<V>(s: State<V>, turn: (nat, Choice<V>))
    ensures Turn(s, turn).Some? ==> |Turn(s, turn).value.threads| == |s.threads|
  {
  }

  lemma {:induction false} QuietCount<V>(ts: seq<PC<V>>, role: Role, m: nat)
    requires forall t | 0 <= t < |ts| :: ts[t] == Idle
    ensures Count(ts, role, m) == 0
  {
    if ts != [] {
      QuietCount(ts[1..], role, m);
    }
  }

  /** No leak: when no operation is in progress, exactly the linked nodes are allocated. */
  lemma {:induction false} QuietMeansNoLeak<V>(s: State<V>, x: History)
    requires Inv(s, x) && forall t | 0 <= t < |s.threads| :: s.threads[t] == Idle
    ensures forall n :: n in s.heap <==> n in x.list
  {
    hide Count;
    forall n
      ensures n in s.heap <==> n in x.list
    {
      assert NodeOk(s, x, n);
      QuietCount(s.threads, Holder, n);
      QuietCount(s.threads, Owner, n);
      QuietCount(s.threads, Deleter, n);
      QuietCount(s.threads, Pusher, n);
    }
  }
}
