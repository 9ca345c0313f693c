/** The list with a mutex in every node and hand-over-hand locking (concurrent/chapter6/threadsafe_list.cpp),
    as a machine whose steps are the lock operations and pointer accesses, interleaved at will. */
module LockedList {
  import opened Options

  /** A node; `head` has no data. Its mutex is in the lock table of the state. */
  datatype Node<V> = Node(data: Option<V>, next: Option<nat>)

  const HEAD: nat := 0

  datatype Op<!V> = ForEach | FindFirstIf(p: V -> bool) | RemoveIf(p: V -> bool)

  /** Where a thread stands: what it does next, with its local variables. */
  datatype PC<!V> =
    | Idle
    | PushNew(v: V)                           // allocate the node
    | PushLock(node: nat)                     // lock head.m
    | PushLink(node: nat)                     // move head.next into the node and the node into head.next
    | PushUnlock
    | Start(op: Op<V>)                        // lock head.m
    | At(op: Op<V>, cur: nat)                 // holds cur; read cur->next
    | Want(op: Op<V>, cur: nat, next: nat)    // holds cur; lock next->m
    | Both(op: Op<V>, cur: nat, next: nat)    // holds both
    | Visit(op: Op<V>, cur: nat)              // holds cur only; f or p on its data
    | Removed(op: Op<V>, cur: nat, next: nat) // holds both; next is unlinked
    | Freeing(op: Op<V>, cur: nat, next: nat) // holds cur; next is unlocked, delete it

  /** A node is named by when it was allocated: a name is never used again. */
  datatype State<!V> = State(heap: map<nat, Node<V>>, locks: map<nat, nat>, threads: seq<PC<V>>, unused: nat)

  datatype Choice<!V> = Push(v: V) | Walk(op: Op<V>)

  function Init<V>(n: nat): State<V> {
    State(map[HEAD := Node(None, None)], map[], seq(n, _ => Idle), 1)
  }

  function Go<V>(s: State<V>, t: nat, pc: PC<V>): State<V>
    requires t < |s.threads|
  {
    s.(threads := s.threads[t := pc])
  }

  function Lock<V>(s: State<V>, t: nat, n: nat): State<V> { s.(locks := s.locks[n := t]) }

  function Unlock<V>(s: State<V>, n: nat): State<V> { s.(locks := s.locks - {n}) }

  predicate Owns<V>(s: State<V>, t: nat, n: nat) { n in s.heap && n in s.locks && s.locks[n] == t }

  /** The two moves of push_front. */
  function LinkIn<V>(heap: map<nat, Node<V>>, n: nat): map<nat, Node<V>>
    requires n in heap && HEAD in heap
  {
    var linked := heap[n := heap[n].(next := heap[HEAD].next)];
    linked[HEAD := linked[HEAD].(next := Option.Some(n))]
  }

  /** The two moves of remove_if. */
  function LinkOut<V>(heap: map<nat, Node<V>>, cur: nat, n: nat): map<nat, Node<V>>
    requires cur in heap && n in heap
  {
    var unlinked := heap[cur := heap[cur].(next := heap[n].next)];
    unlinked[n := unlinked[n].(next := None)]
  }

  /** Somebody waits for the mutex of `n`. */
  predicate Wanted<V>(s: State<V>, n: nat) {
    exists u | 0 <= u < |s.threads| :: s.threads[u].Want? && s.threads[u].next == n
  }

  /** One step of thread `t`. A thread waiting for a mutex that is taken stays where it is. None when the step
      touches a destroyed node, unlocks a mutex the thread does not own, or destroys one in use. */
  function Perform<V>(s: State<V>, t: nat, c: Choice<V>): Option<State<V>>
    requires t < |s.threads|
  {
    match s.threads[t]
    case Idle => Some(Go(s, t, if c.Push? then PushNew(c.v) else Start(c.op)))
    case PushNew(v) =>
      var n := s.unused;
      Some(Go(s.(heap := s.heap[n := Node(Option.Some(v), None)], unused := n + 1), t, PushLock(n)))
    case PushLock(n) =>
      if HEAD !in s.heap then None
      else if HEAD in s.locks then Some(s)
      else Some(Go(Lock(s, t, HEAD), t, PushLink(n)))
    case PushLink(n) =>
      if n !in s.heap || !Owns(s, t, HEAD) then None
      else Some(Go(s.(heap := LinkIn(s.heap, n)), t, PushUnlock))
    case PushUnlock => if !Owns(s, t, HEAD) then None else Some(Go(Unlock(s, HEAD), t, Idle))
    case Start(op) =>
      if HEAD !in s.heap then None
      else if HEAD in s.locks then Some(s)
      else Some(Go(Lock(s, t, HEAD), t, At(op, HEAD)))
    case At(op, cur) =>
      if !Owns(s, t, cur) then None
      else
        (match s.heap[cur].next
         case None => Some(Go(Unlock(s, cur), t, Idle))
         case Some(n) => Some(Go(s, t, Want(op, cur, n))))
    case Want(op, cur, n) =>
      if n !in s.heap then None
      else if n in s.locks then Some(s)
      else Some(Go(Lock(s, t, n), t, Both(op, cur, n)))
    case Both(op, cur, n) =>
      if !Owns(s, t, cur) || !Owns(s, t, n) || s.heap[n].data.None? then None
      else if op.RemoveIf? then
        if op.p(s.heap[n].data.value) then
          Some(Go(s.(heap := LinkOut(s.heap, cur, n)), t, Removed(op, cur, n)))
        else Some(Go(Unlock(s, cur), t, At(op, n)))
      else Some(Go(Unlock(s, cur), t, Visit(op, n)))
    case Visit(op, cur) =>
      if !Owns(s, t, cur) || s.heap[cur].data.None? then None
      else if op.FindFirstIf? && op.p(s.heap[cur].data.value) then Some(Go(Unlock(s, cur), t, Idle))
      else Some(Go(s, t, At(op, cur)))
    case Removed(op, cur, n) =>
      if !Owns(s, t, n) then None else Some(Go(Unlock(s, n), t, Freeing(op, cur, n)))
    case Freeing(op, cur, n) =>
      if n !in s.heap || n in s.locks || Wanted(s, n) then None
      else Some(Go(s.(heap := s.heap - {n}), t, At(op, cur)))
  }

  /** One entry of a schedule: which thread moves, with which choice. A thread that does not exist does nothing. */
  function Turn<V>(s: State<V>, turn: (nat, Choice<V>)): Option<State<V>> {
    if turn.0 < |s.threads| then Perform(s, turn.0, turn.1) else Some(s)
  }

  /** The states a schedule goes through, none of whose steps does what it must not. */
  ghost predicate IsRun<V>(states: seq<State<V>>, schedule: seq<(nat, Choice<V>)>) {
    && |states| == |schedule| + 1
    && forall k | 0 <= k < |schedule| :: Turn(states[k], schedule[k]) == Option.Some(states[k + 1])
  }

  // ---- The invariant ----

  /** A walk so far: the nodes linked when it began, and those it has handed to its function and left in the list. */
  datatype Sweep = Sweep(since: set<nat>, seen: set<nat>)

  /** History: the linked nodes from the head on, and the last walk of each thread. */
  datatype History = History(list: seq<nat>, walks: seq<Sweep>)

  /** The mutexes a thread owns. */
  function Held<V>(pc: PC<V>): set<nat> {
    match pc
    case PushLink(_) => {HEAD}
    case PushUnlock => {HEAD}
    case At(_, cur) => {cur}
    case Want(_, cur, _) => {cur}
    case Both(_, cur, n) => {cur, n}
    case Visit(_, cur) => {cur}
    case Removed(_, cur, n) => {cur, n}
    case Freeing(_, cur, _) => {cur}
    case _ => {}
  }

  /** The node a thread keeps that is not linked. */
  function Loose<V>(pc: PC<V>): Option<nat> {
    match pc
    case PushLock(n) => Some(n)
    case PushLink(n) => Some(n)
    case Removed(_, _, n) => Some(n)
    case Freeing(_, _, n) => Some(n)
    case _ => None
  }

  /** A walk that has begun; `cur` is its place. */
  predicate Walking<V>(pc: PC<V>) {
    pc.At? || pc.Want? || pc.Both? || pc.Visit? || pc.Removed? || pc.Freeing?
  }

  /** Nothing to be found or removed here. */
  predicate Passes<V>(op: Op<V>, v: V) { op.ForEach? || !op.p(v) }

  function NextIn(list: seq<nat>, k: nat): Option<nat> {
    if k + 1 < |list| then Some(list[k + 1]) else None
  }

  ghost predicate ListOk<V>(heap: map<nat, Node<V>>, list: seq<nat>) {
    && list != [] && list[0] == HEAD
    && (forall i, j | 0 <= i < j < |list| :: list[i] != list[j])
    && (forall k | 0 <= k < |list| :: list[k] in heap && heap[list[k]].next == NextIn(list, k))
    && (forall k | 0 < k < |list| :: heap[list[k]].data.Some?)
  }

  ghost predicate ThreadOk<V>(s: State<V>, x: History, t: nat)
    requires t < |s.threads|
  {
    var pc := s.threads[t];
    && (forall n | n in Held(pc) :: Owns(s, t, n))
    && (Walking(pc) ==> pc.cur in x.list)
    && (pc.Want? || pc.Both? ==> pc.cur in s.heap && s.heap[pc.cur].next == Option.Some(pc.next))
    && (pc.Visit? ==> pc.cur != HEAD && !pc.op.RemoveIf?)
    && (Loose(pc).Some? ==> var n := Loose(pc).value; n in s.heap && n != HEAD && n !in x.list && n < s.unused)
    && (pc.Freeing? ==> pc.next !in s.locks)
    && (pc.PushLock? || pc.PushLink? ==> s.heap[pc.node].data.Some?)
  }

  /** Every mutex that is locked is owned by a thread that knows it; loose nodes have one keeper. */
  ghost predicate Owned<V>(s: State<V>) {
    && (forall n | n in s.locks :: s.locks[n] < |s.threads| && n in Held(s.threads[s.locks[n]]))
    && (forall t, u | 0 <= t < u < |s.threads| && Loose(s.threads[t]).Some? :: Loose(s.threads[t]) != Loose(s.threads[u]))
  }

  ghost predicate Inv<V>(s: State<V>, x: History) {
    && ListOk(s.heap, x.list)
    && (forall n | n in s.heap :: n < s.unused)
    && (forall n | n in s.heap :: n in x.list || exists t | 0 <= t < |s.threads| :: Loose(s.threads[t]) == Option.Some(n))
    && (forall t | 0 <= t < |s.threads| :: ThreadOk(s, x, t))
    && Owned(s)
  }

  // ---- Every step keeps the invariant ----

  lemma Exclusive<V>(s: State<V>, x: History, t: nat, u: nat, n: nat)
    requires Inv(s, x) && t < |s.threads| && u < |s.threads| && t != u && n in Held(s.threads[t])
    ensures n !in Held(s.threads[u])
  {
    assert ThreadOk(s, x, t) && ThreadOk(s, x, u);
  }

  lemma HeadLinked<V>(s: State<V>, x: History)
    requires Inv(s, x)
    ensures HEAD in x.list && HEAD in s.heap
  {
    assert x.list[0] == HEAD;
  }

  lemma ListFrame<V>(heap: map<nat, Node<V>>, heap': map<nat, Node<V>>, list: seq<nat>)
    requires ListOk(heap, list) && forall n | n in list && n in heap :: n in heap' && heap'[n].next == heap[n].next && heap'[n].data == heap[n].data
    ensures ListOk(heap', list)
  {
  }

  /** A thread that touches nothing shared and keeps its mutexes and its loose node. */
  lemma {:induction false} LocalStep<V>(s: State<V>, x: History, t: nat, pc: PC<V>)
    requires Inv(s, x) && t < |s.threads| && Held(pc) == Held(s.threads[t]) && Loose(pc) == Loose(s.threads[t])
    requires ThreadOk(Go(s, t, pc), x, t)
    ensures Inv(Go(s, t, pc), x)
  {
    hide ListOk;
    var s' := Go(s, t, pc);
    SameLoose(s, x, t, pc, s');
    forall u | 0 <= u < |s'.threads|
      ensures ThreadOk(s', x, u)
    {
      assert ThreadOk(s, x, u);
    }
  }

  /** Only thread `t` changes its loose node. */
  lemma {:induction false} LooseMoves<V>(s: State<V>, x: History, t: nat, pc: PC<V>, s': State<V>, x': History)
    requires Inv(s, x) && t < |s.threads| && s'.threads == s.threads[t := pc]
    requires forall n | n in s'.heap && n !in x'.list ::
      Loose(pc) == Option.Some(n) || (n in s.heap && n !in x.list && Loose(s.threads[t]) != Option.Some(n))
    requires Loose(pc).Some? ==> forall u | 0 <= u < |s.threads| && u != t :: Loose(s.threads[u]) != Loose(pc)
    ensures forall n | n in s'.heap :: n in x'.list || exists u | 0 <= u < |s'.threads| :: Loose(s'.threads[u]) == Option.Some(n)
    ensures forall u, v | 0 <= u < v < |s'.threads| && Loose(s'.threads[u]).Some? :: Loose(s'.threads[u]) != Loose(s'.threads[v])
  {
    hide ListOk, ThreadOk, Loose;
    forall n | n in s'.heap && n !in x'.list
      ensures exists u | 0 <= u < |s'.threads| :: Loose(s'.threads[u]) == Option.Some(n)
    {
      if Loose(pc) == Option.Some(n) {
        assert Loose(s'.threads[t]) == Option.Some(n);
      } else {
        var u :| 0 <= u < |s.threads| && Loose(s.threads[u]) == Option.Some(n);
        assert Loose(s'.threads[u]) == Option.Some(n);
      }
    }
  }

  lemma {:induction false} SameLoose<V>(s: State<V>, x: History, t: nat, pc: PC<V>, s': State<V>)
    requires Inv(s, x) && t < |s.threads| && Loose(pc) == Loose(s.threads[t]) && s'.threads == s.threads[t := pc] && s'.heap == s.heap
    ensures forall n | n in s.heap :: n in x.list || exists u | 0 <= u < |s'.threads| :: Loose(s'.threads[u]) == Option.Some(n)
    ensures forall u, v | 0 <= u < v < |s'.threads| && Loose(s'.threads[u]).Some? :: Loose(s'.threads[u]) != Loose(s'.threads[v])
  {
    hide ListOk, ThreadOk, Loose;
    LooseMoves(s, x, t, pc, s', x);
  }

  lemma {:induction false} LockStep<V>(s: State<V>, x: History, t: nat, n: nat, pc: PC<V>)
    requires Inv(s, x) && t < |s.threads| && n in s.heap && n !in s.locks
    requires Held(pc) == Held(s.threads[t]) + {n} && Loose(pc) == Loose(s.threads[t])
    requires ThreadOk(Go(Lock(s, t, n), t, pc), x, t)
    requires n in x.list
    ensures Inv(Go(Lock(s, t, n), t, pc), x)
  {
    hide ListOk;
    var s' := Go(Lock(s, t, n), t, pc);
    SameLoose(s, x, t, pc, s');
    forall u | 0 <= u < |s'.threads|
      ensures ThreadOk(s', x, u)
    {
      assert ThreadOk(s, x, u);
    }
  }

  lemma {:induction false} UnlockStep<V>(s: State<V>, x: History, t: nat, n: nat, pc: PC<V>)
    requires Inv(s, x) && t < |s.threads| && n in Held(s.threads[t])
    requires Held(pc) == Held(s.threads[t]) - {n} && Loose(pc) == Loose(s.threads[t])
    requires ThreadOk(Go(Unlock(s, n), t, pc), x, t)
    ensures Owns(s, t, n) && Inv(Go(Unlock(s, n), t, pc), x)
  {
    hide ListOk;
    assert ThreadOk(s, x, t);
    var s' := Go(Unlock(s, n), t, pc);
    SameLoose(s, x, t, pc, s');
    forall u | 0 <= u < |s'.threads|
      ensures ThreadOk(s', x, u)
    {
      assert ThreadOk(s, x, u);
      if u != t {
        Exclusive(s, x, t, u, n);
      }
    }
  }

  lemma {:induction false} AllocStep<V>(s: State<V>, x: History, t: nat, v: V)
    requires Inv(s, x) && t < |s.threads| && s.threads[t] == PushNew(v)
    ensures Inv(Go(s.(heap := s.heap[s.unused := Node(Option.Some(v), None)], unused := s.unused + 1), t, PushLock(s.unused)), x)
  {
    hide ListOk;
    var n := s.unused;
    var s' := Go(s.(heap := s.heap[n := Node(Option.Some(v), None)], unused := n + 1), t, PushLock(n));
    HeadLinked(s, x);
    NotLinked(s, x, n);
    ListFrame(s.heap, s'.heap, x.list);
    hide ThreadOk;
    forall u | 0 <= u < |s.threads|
      ensures ThreadOk(s', x, u)
      ensures Loose(s.threads[u]) != Option.Some(n)
    {
      AllocThread(s, x, t, v, u);
    }
    hide Loose;
    LooseMoves(s, x, t, PushLock(n), s', x);
  }

  lemma {:induction false} AllocThread<V>(s: State<V>, x: History, t: nat, v: V, u: nat)
    requires Inv(s, x) && t < |s.threads| && u < |s.threads| && s.threads[t] == PushNew(v)
    ensures ThreadOk(Go(s.(heap := s.heap[s.unused := Node(Option.Some(v), None)], unused := s.unused + 1), t, PushLock(s.unused)), x, u)
    ensures Loose(s.threads[u]) != Option.Some(s.unused)
  {
    hide Inv, ListOk, Owned;
    HeadLinked(s, x);
    BelowUnused(s, x);
    NotLinked(s, x, s.unused);
    ThreadIsOk(s, x, u);
  }

  lemma BelowUnused<V>(s: State<V>, x: History)
    requires Inv(s, x)
    ensures forall n | n in s.heap :: n < s.unused
  {
  }

  lemma NotLinked<V>(s: State<V>, x: History, n: nat)
    requires Inv(s, x) && n !in s.heap
    ensures n !in x.list
  {
  }

  /** push_front: the node goes between the head and what followed it. */
  lemma {:induction false} LinkStep<V>(s: State<V>, x: History, t: nat, n: nat)
    requires Inv(s, x) && t < |s.threads| && s.threads[t] == PushLink(n)
    ensures n in s.heap && Owns(s, t, HEAD) && x.list != []
    ensures Inv(Go(s.(heap := LinkIn(s.heap, n)), t, PushUnlock), x.(list := [HEAD, n] + x.list[1..]))
  {
    hide ListOk, ThreadOk, Loose, Held;
    HeadLinked(s, x);
    HeadFirst(s, x);
    PushFacts(s, x, t, n);
    var s' := Go(s.(heap := LinkIn(s.heap, n)), t, PushUnlock);
    var x' := x.(list := [HEAD, n] + x.list[1..]);
    LinkList(s.heap, x.list, n);
    Membership(x.list, n);
    forall u | 0 <= u < |s'.threads|
      ensures ThreadOk(s', x', u)
    {
      if u == t {
        UnlockHead(s', x', t);
      } else {
        LinkOther(s, x, t, n, u, s', x');
      }
    }
    LooseMoves(s, x, t, PushUnlock, s', x');
  }

  lemma PushFacts<V>(s: State<V>, x: History, t: nat, n: nat)
    requires Inv(s, x) && t < |s.threads| && s.threads[t] == PushLink(n)
    ensures n in s.heap && n != HEAD && n !in x.list && s.heap[n].data.Some? && n < s.unused && Owns(s, t, HEAD)
    ensures Held(s.threads[t]) == {HEAD} == Held<V>(PushUnlock)
    ensures Loose(s.threads[t]) == Option.Some(n) && Loose<V>(PushUnlock) == None
  {
    assert ThreadOk(s, x, t);
  }

  lemma UnlockHead<V>(s: State<V>, x: History, t: nat)
    requires t < |s.threads| && s.threads[t] == PushUnlock && Owns(s, t, HEAD)
    ensures ThreadOk(s, x, t)
  {
  }

  lemma HeadFirst<V>(s: State<V>, x: History)
    requires Inv(s, x)
    ensures x.list != [] && x.list[0] == HEAD
  {
  }

  lemma {:induction false} LinkOther<V>(s: State<V>, x: History, t: nat, n: nat, u: nat, s': State<V>, x': History)
    requires Inv(s, x) && t < |s.threads| && s.threads[t] == PushLink(n) && u < |s.threads| && u != t
    requires s'.threads == s.threads[t := PushUnlock] && s'.locks == s.locks && s'.unused == s.unused
    requires forall m | m in s.heap :: m in s'.heap && s'.heap[m].data == s.heap[m].data
    requires forall m | m in s.heap && m != n && m != HEAD :: s'.heap[m].next == s.heap[m].next
    requires forall m :: m in x'.list <==> m in x.list || m == n
    ensures ThreadOk(s', x', u)
  {
    hide ListOk, Owned;
    assert ThreadOk(s, x, t) && ThreadOk(s, x, u);
    Exclusive(s, x, t, u, HEAD);
    LooseApart(s, x, t, u);
  }

  lemma LooseApart<V>(s: State<V>, x: History, t: nat, u: nat)
    requires Inv(s, x) && t < |s.threads| && u < |s.threads| && t != u && Loose(s.threads[t]).Some?
    ensures Loose(s.threads[u]) != Loose(s.threads[t])
  {
    hide Loose;
  }

  lemma Membership(list: seq<nat>, n: nat)
    requires list != [] && list[0] == HEAD
    ensures forall m :: m in [HEAD, n] + list[1..] <==> m in list || m == n
  {
    assert list == [HEAD] + list[1..];
  }

  lemma {:induction false} LinkList<V>(heap: map<nat, Node<V>>, list: seq<nat>, n: nat)
    requires ListOk(heap, list) && n in heap && n !in list && heap[n].data.Some?
    ensures HEAD in heap && ListOk(LinkIn(heap, n), [HEAD, n] + list[1..])
  {
    assert list[0] == HEAD;
    var heap' := LinkIn(heap, n);
    var list' := [HEAD, n] + list[1..];
    assert forall k | 2 <= k < |list'| :: list'[k] == list[k - 1];
    forall k | 0 <= k < |list'|
      ensures list'[k] in heap' && heap'[list'[k]].next == NextIn(list', k)
      ensures k > 0 ==> heap'[list'[k]].data.Some?
    {
      if k >= 2 {
        assert list'[k] == list[k - 1] && list[k - 1] != HEAD;
      }
    }
  }

  /** The place of a node and of its successor. */
  lemma PlaceOf<V>(heap: map<nat, Node<V>>, list: seq<nat>, cur: nat, n: nat) returns (i: nat)
    requires ListOk(heap, list) && cur in list && cur in heap && heap[cur].next == Option.Some(n)
    ensures i + 1 < |list| && list[i] == cur && list[i + 1] == n
  {
    i :| i < |list| && list[i] == cur;
  }

  /** The list without its i-th node. */
  function Without(list: seq<nat>, i: nat): seq<nat>
    requires i < |list|
  {
    list[..i] + list[i + 1..]
  }

  lemma {:induction false} WithoutAt(list: seq<nat>, i: nat, k: nat)
    requires i < |list| && k < |list| - 1
    ensures |Without(list, i)| == |list| - 1
    ensures Without(list, i)[k] == list[if k < i then k else k + 1]
  {
  }

  lemma {:induction false} WithoutMembers(list: seq<nat>, i: nat)
    requires i < |list| && forall j, k | 0 <= j < k < |list| :: list[j] != list[k]
    ensures forall m :: m in Without(list, i) <==> m in list && m != list[i]
  {
    forall m
      ensures m in Without(list, i) <==> m in list && m != list[i]
    {
      if m in list && m != list[i] {
        var j :| 0 <= j < |list| && list[j] == m;
        WithoutAt(list, i, if j < i then j else j - 1);
      }
    }
  }

  lemma {:induction false} UnlinkList<V>(heap: map<nat, Node<V>>, list: seq<nat>, i: nat)
    requires ListOk(heap, list) && i + 1 < |list|
    ensures ListOk(LinkOut(heap, list[i], list[i + 1]), Without(list, i + 1))
    ensures forall m :: m in Without(list, i + 1) <==> m in list && m != list[i + 1]
  {
    hide Without, NextIn;
    WithoutMembers(list, i + 1);
    var n := list[i + 1];
    var heap', list' := LinkOut(heap, list[i], n), Without(list, i + 1);
    WithoutDistinct(list, i + 1);
    forall k | 0 <= k < |list'|
      ensures list'[k] in heap' && heap'[list'[k]].next == NextIn(list', k)
      ensures k > 0 ==> heap'[list'[k]].data.Some?
    {
      UnlinkAt(heap, list, i, k);
    }
    WithoutAt(list, i + 1, 0);
  }

  lemma {:induction false} WithoutDistinct(list: seq<nat>, i: nat)
    requires i < |list| && forall j, k | 0 <= j < k < |list| :: list[j] != list[k]
    ensures |Without(list, i)| == |list| - 1
    ensures forall j, k | 0 <= j < k < |Without(list, i)| :: Without(list, i)[j] != Without(list, i)[k]
  {
    var l := Without(list, i);
    forall j, k | 0 <= j < k < |l|
      ensures l[j] != l[k]
    {
      WithoutAt(list, i, j);
      WithoutAt(list, i, k);
    }
  }

  lemma {:induction false} UnlinkAt<V>(heap: map<nat, Node<V>>, list: seq<nat>, i: nat, k: nat)
    requires ListOk(heap, list) && i + 1 < |list| && k < |list| - 1
    ensures var heap', list' := LinkOut(heap, list[i], list[i + 1]), Without(list, i + 1);
      && |list'| == |list| - 1 && list'[k] in heap' && heap'[list'[k]].next == NextIn(list', k)
      && (k > 0 ==> heap'[list'[k]].data.Some?)
  {
    WithoutAt(list, i + 1, k);
    if k + 1 < |list| - 1 {
      WithoutAt(list, i + 1, k + 1);
    }
    hide Without, LinkOut;
    var j := if k <= i then k else k + 1;
    OtherPlaces(list, i, j);
    LinkOutAt(heap, list[i], list[i + 1], list[j]);
    assert list[j] in heap && heap[list[j]].next == NextIn(list, j);
    assert list[i + 1] in heap && heap[list[i + 1]].next == NextIn(list, i + 1);
    assert k > 0 ==> heap[list[j]].data.Some?;
    hide ListOk;
  }

  lemma LinkOutAt<V>(heap: map<nat, Node<V>>, cur: nat, n: nat, m: nat)
    requires cur in heap && n in heap && m in heap && m != n
    ensures var heap' := LinkOut(heap, cur, n);
      m in heap' && heap'[m].data == heap[m].data && heap'[m].next == if m == cur && cur != n then heap[n].next else heap[m].next
  {
  }

  lemma OtherPlaces(list: seq<nat>, i: nat, j: nat)
    requires i + 1 < |list| && j < |list| && j != i + 1 && forall j, k | 0 <= j < k < |list| :: list[j] != list[k]
    ensures list[j] != list[i + 1] && (list[j] == list[i] ==> j == i) && list[i] != list[i + 1]
  {
  }

  lemma {:induction false} UnlinkOther<V>(s: State<V>, x: History, t: nat, u: nat, s': State<V>, x': History)
    requires Inv(s, x) && t < |s.threads| && s.threads[t].Both? && u < |s.threads| && u != t
    requires var pc := s.threads[t];
      && s'.threads == s.threads[t := Removed(pc.op, pc.cur, pc.next)] && s'.locks == s.locks && s'.unused == s.unused
      && (forall m | m in s.heap :: m in s'.heap && s'.heap[m].data == s.heap[m].data)
      && (forall m | m in s.heap && m != pc.cur && m != pc.next :: s'.heap[m].next == s.heap[m].next)
      && (forall m :: m in x'.list <==> m in x.list && m != pc.next)
    ensures ThreadOk(s', x', u)
  {
    hide ListOk, Owned;
    assert ThreadOk(s, x, t) && ThreadOk(s, x, u);
    Exclusive(s, x, t, u, s.threads[t].cur);
    Exclusive(s, x, t, u, s.threads[t].next);
  }

  lemma BothFacts<V>(s: State<V>, x: History, t: nat, op: Op<V>, cur: nat, n: nat) returns (i: nat)
    requires Inv(s, x) && t < |s.threads| && s.threads[t] == Both(op, cur, n)
    ensures i + 1 < |x.list| && x.list[i] == cur && x.list[i + 1] == n && cur != n && n != HEAD && n < s.unused
    ensures Owns(s, t, cur) && Owns(s, t, n) && s.heap[n].data.Some?
    ensures forall u | 0 <= u < |s.threads| && u != t :: Loose(s.threads[u]) != Option.Some(n)
    ensures s.heap[cur].next == Option.Some(n)
  {
    hide Inv, ListOk, Owned;
    ThreadIsOk(s, x, t);
    i := SuccessorLinked(s, x, cur, n);
    BelowUnused(s, x);
    assert cur in Held(s.threads[t]) && n in Held(s.threads[t]);
    forall u | 0 <= u < |s.threads| && u != t
      ensures Loose(s.threads[u]) != Option.Some(n)
    {
      ThreadIsOk(s, x, u);
    }
  }

  /** remove_if: the next node leaves the list and is kept by the thread alone. */
  lemma {:induction false} UnlinkStep<V>(s: State<V>, x: History, t: nat, op: Op<V>, cur: nat, n: nat) returns (i: nat)
    requires Inv(s, x) && t < |s.threads| && s.threads[t] == Both(op, cur, n)
    ensures Owns(s, t, cur) && Owns(s, t, n) && s.heap[n].data.Some?
    ensures i + 1 < |x.list| && x.list[i] == cur && x.list[i + 1] == n
    ensures Inv(Go(s.(heap := LinkOut(s.heap, cur, n)), t, Removed(op, cur, n)), x.(list := Without(x.list, i + 1)))
  {
    hide ListOk, ThreadOk, LinkOut;
    i := BothFacts(s, x, t, op, cur, n);
    LinkOutKeeps(s.heap, cur, n);
    var pc := Removed(op, cur, n);
    var s' := Go(s.(heap := LinkOut(s.heap, cur, n)), t, pc);
    var x' := x.(list := Without(x.list, i + 1));
    UnlinkList(s.heap, x.list, i);
    hide Without;
    forall u | 0 <= u < |s'.threads|
      ensures ThreadOk(s', x', u)
    {
      if u == t {
        RemovedOk(s', x', t, cur, n);
      } else {
        UnlinkOther(s, x, t, u, s', x');
      }
    }
    LooseMoves(s, x, t, pc, s', x');
  }

  lemma LinkOutKeeps<V>(heap: map<nat, Node<V>>, cur: nat, n: nat)
    requires cur in heap && n in heap
    ensures LinkOut(heap, cur, n).Keys == heap.Keys
    ensures forall m | m in heap :: LinkOut(heap, cur, n)[m].data == heap[m].data
    ensures forall m | m in heap && m != cur && m != n :: LinkOut(heap, cur, n)[m].next == heap[m].next
  {
  }

  lemma RemovedOk<V>(s: State<V>, x: History, t: nat, cur: nat, n: nat)
    requires t < |s.threads| && s.threads[t].Removed? && s.threads[t].cur == cur && s.threads[t].next == n
    requires Owns(s, t, cur) && Owns(s, t, n) && cur in x.list && n !in x.list && n != HEAD && n < s.unused
    ensures ThreadOk(s, x, t)
  {
  }

  /** A node is deleted when nobody owns, waits for or knows it. */
  lemma {:induction false} FreeStep<V>(s: State<V>, x: History, t: nat, op: Op<V>, cur: nat, n: nat)
    requires Inv(s, x) && t < |s.threads| && s.threads[t] == Freeing(op, cur, n)
    ensures n in s.heap && n !in s.locks && !Wanted(s, n) && n !in x.list
    ensures Inv(Go(s.(heap := s.heap - {n}), t, At(op, cur)), x)
  {
    hide ListOk;
    assert ThreadOk(s, x, t);
    hide ThreadOk;
    var s' := Go(s.(heap := s.heap - {n}), t, At(op, cur));
    NobodyWaits(s, x, n);
    ListFrame(s.heap, s'.heap, x.list);
    forall u | 0 <= u < |s'.threads|
      ensures ThreadOk(s', x, u)
    {
      FreeThread(s, x, t, op, cur, n, u);
    }
    LooseMoves(s, x, t, At(op, cur), s', x);
  }

  lemma {:induction false} FreeThread<V>(s: State<V>, x: History, t: nat, op: Op<V>, cur: nat, n: nat, u: nat)
    requires Inv(s, x) && t < |s.threads| && s.threads[t] == Freeing(op, cur, n) && u < |s.threads|
    ensures ThreadOk(Go(s.(heap := s.heap - {n}), t, At(op, cur)), x, u)
  {
    hide ListOk, Owned;
    assert ThreadOk(s, x, t) && ThreadOk(s, x, u);
    var s' := Go(s.(heap := s.heap - {n}), t, At(op, cur));
    if u != t {
      LooseApart(s, x, t, u);
      assert s'.threads[u] == s.threads[u];
      assert forall m | m in Held(s.threads[u]) :: Owns(s', u, m);
    } else {
      assert cur in Held(s.threads[t]) && cur != n;
    }
  }

  /** Only linked nodes are waited for. */
  lemma NobodyWaits<V>(s: State<V>, x: History, n: nat)
    requires Inv(s, x) && n !in x.list
    ensures !Wanted(s, n)
  {
    forall u | 0 <= u < |s.threads| && s.threads[u].Want?
      ensures s.threads[u].next != n
    {
      assert ThreadOk(s, x, u);
      var i := PlaceOf(s.heap, x.list, s.threads[u].cur, s.threads[u].next);
    }
  }

  function Saw(x: History, t: nat, n: nat): History
    requires t < |x.walks|
  {
    x.(walks := x.walks[t := x.walks[t].(seen := x.walks[t].seen + {n})])
  }

  /** The history after a step: what is linked, what is linked when a walk begins, and what a walk hands to its function. */
  ghost function Later<V>(s: State<V>, x: History, t: nat): History
    requires Inv(s, x) && t < |s.threads| && |x.walks| == |s.threads|
  {
    var pc := s.threads[t];
    if pc.PushLink? && x.list != [] then x.(list := [HEAD, pc.node] + x.list[1..])
    else if pc.Start? && HEAD !in s.locks then x.(walks := x.walks[t := Sweep(set n | n in x.list, {})])
    else if pc.Both? && pc.op.RemoveIf? && pc.next in s.heap && s.heap[pc.next].data.Some? && pc.op.p(s.heap[pc.next].data.value)
            && pc.next in x.list then
      var i :| 0 <= i < |x.list| && x.list[i] == pc.next;
      x.(list := Without(x.list, i))
    else if pc.Both? && pc.op.RemoveIf? then Saw(x, t, pc.next)
    else if pc.Visit? then Saw(x, t, pc.cur)
    else x
  }

  lemma {:induction false} WalksIrrelevant<V>(s: State<V>, x: History, walks: seq<Sweep>)
    requires Inv(s, x)
    ensures Inv(s, x.(walks := walks))
  {
    hide ListOk;
    var x' := x.(walks := walks);
    forall t | 0 <= t < |s.threads|
      ensures ThreadOk(s, x', t)
    {
      assert ThreadOk(s, x, t);
    }
  }

  /** The steps of push_front. */
  lemma {:induction false} PushKeeps<V>(s: State<V>, x: History, t: nat, c: Choice<V>)
    requires Inv(s, x) && t < |s.threads| && |x.walks| == |s.threads|
    requires s.threads[t].Idle? || s.threads[t].PushNew? || s.threads[t].PushLock? || s.threads[t].PushLink? || s.threads[t].PushUnlock?
    ensures Perform(s, t, c).Some? && Inv(Perform(s, t, c).value, Later(s, x, t))
  {
    hide ListOk, Owned, Inv;
    ThreadIsOk(s, x, t);
    HeadLinked(s, x);
    match s.threads[t]
    case Idle =>
      LocalStep(s, x, t, if c.Push? then PushNew(c.v) else Start(c.op));
    case PushNew(v) =>
      AllocStep(s, x, t, v);
    case PushLock(n) =>
      if HEAD !in s.locks {
        LockStep(s, x, t, HEAD, PushLink(n));
      }
    case PushLink(n) =>
      LinkStep(s, x, t, n);
    case PushUnlock =>
      UnlockStep(s, x, t, HEAD, Idle);
  }

  /** Every step: no destroyed node is touched, no mutex is misused, and the invariant holds again. */
  lemma {:induction false} StepKeeps<V>(s: State<V>, x: History, t: nat, c: Choice<V>)
    requires Inv(s, x) && t < |s.threads| && |x.walks| == |s.threads|
    ensures Perform(s, t, c).Some? && Inv(Perform(s, t, c).value, Later(s, x, t))
  {
    hide ListOk, Owned, Inv;
    ThreadIsOk(s, x, t);
    HeadLinked(s, x);
    match s.threads[t]
    case Start(op) =>
      if HEAD !in s.locks {
        LockStep(s, x, t, HEAD, At(op, HEAD));
        WalksIrrelevant(Go(Lock(s, t, HEAD), t, At(op, HEAD)), x, Later(s, x, t).walks);
      }
    case At(op, cur) =>
      AtStep(s, x, t, op, cur, c);
    case Want(op, cur, n) =>
      var i := SuccessorLinked(s, x, cur, n);
      if n !in s.locks {
        LockStep(s, x, t, n, Both(op, cur, n));
      }
    case Both(op, cur, n) =>
      BothStep(s, x, t, op, cur, n, c);
    case Visit(op, cur) =>
      assert cur in Held(s.threads[t]);
      DataThere(s, x, cur);
      if op.FindFirstIf? && op.p(s.heap[cur].data.value) {
        UnlockStep(s, x, t, cur, Idle);
      } else {
        LocalStep(s, x, t, At(op, cur));
      }
      WalksIrrelevant(Perform(s, t, c).value, x, Later(s, x, t).walks);
    case Removed(op, cur, n) =>
      assert n in Held(s.threads[t]) && cur != n;
      UnlockStep(s, x, t, n, Freeing(op, cur, n));
    case Freeing(op, cur, n) =>
      FreeStep(s, x, t, op, cur, n);
    case _ =>
      PushKeeps(s, x, t, c);
  }

  lemma ThreadIsOk<V>(s: State<V>, x: History, t: nat)
    requires Inv(s, x) && t < |s.threads|
    ensures ThreadOk(s, x, t)
  {
  }

  lemma SuccessorLinked<V>(s: State<V>, x: History, cur: nat, n: nat) returns (i: nat)
    requires Inv(s, x) && cur in x.list && cur in s.heap && s.heap[cur].next == Option.Some(n)
    ensures i + 1 < |x.list| && x.list[i] == cur && x.list[i + 1] == n && n in x.list && n in s.heap && n != HEAD && n != cur
    ensures s.heap[n].data.Some?
  {
    i := PlaceOf(s.heap, x.list, cur, n);
  }

  lemma DataThere<V>(s: State<V>, x: History, n: nat)
    requires Inv(s, x) && n in x.list && n != HEAD
    ensures n in s.heap && s.heap[n].data.Some?
  {
    var i :| 0 <= i < |x.list| && x.list[i] == n;
  }

  lemma {:induction false} AtStep<V>(s: State<V>, x: History, t: nat, op: Op<V>, cur: nat, c: Choice<V>)
    requires Inv(s, x) && t < |s.threads| && s.threads[t] == At(op, cur)
    ensures Perform(s, t, c).Some? && Inv(Perform(s, t, c).value, x)
  {
    hide ListOk, Owned, Inv;
    ThreadIsOk(s, x, t);
    assert cur in Held(s.threads[t]);
    match s.heap[cur].next {
      case None => UnlockStep(s, x, t, cur, Idle);
      case Some(n) => LocalStep(s, x, t, Want(op, cur, n));
    }
  }

  lemma {:induction false} BothStep<V>(s: State<V>, x: History, t: nat, op: Op<V>, cur: nat, n: nat, c: Choice<V>)
    requires Inv(s, x) && t < |s.threads| && s.threads[t] == Both(op, cur, n) && |x.walks| == |s.threads|
    ensures Perform(s, t, c).Some? && Inv(Perform(s, t, c).value, Later(s, x, t))
  {
    hide ListOk, Owned;
    assert ThreadOk(s, x, t);
    var i := SuccessorLinked(s, x, cur, n);
    assert cur in Held(s.threads[t]) && n in Held(s.threads[t]);
    if op.RemoveIf? && op.p(s.heap[n].data.value) {
      var j := UnlinkStep(s, x, t, op, cur, n);
      OnePlace(s, x, j + 1);
    } else if op.RemoveIf? {
      UnlockStep(s, x, t, cur, At(op, n));
      WalksIrrelevant(Perform(s, t, c).value, x, Later(s, x, t).walks);
    } else {
      UnlockStep(s, x, t, cur, Visit(op, n));
    }
  }

  lemma OnePlace<V>(s: State<V>, x: History, i: nat)
    requires Inv(s, x) && i < |x.list|
    ensures forall j | 0 <= j < |x.list| && x.list[j] == x.list[i] :: j == i
  {
  }
}
