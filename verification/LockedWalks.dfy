/** What hand-over-hand locking gives the walks over the list (concurrent/chapter6/threadsafe_list.cpp):
    no deadlock, no overtaking, and nothing missed. */
module LockedWalks {
  import opened LockedList
  import opened Options

  // ---- No deadlock ----

  /** Waiting for a mutex that is taken. */
  predicate Blocked<V>(s: State<V>, t: nat)
    requires t < |s.threads|
  {
    var pc := s.threads[t];
    ((pc.PushLock? || pc.Start?) && HEAD in s.locks) || (pc.Want? && pc.next in s.locks)
  }

  /** Following the owners of mutexes leads forward in the list, to a thread that can move. */
  lemma {:induction false} OwnerChain<V>(s: State<V>, x: History, k: nat) returns (u: nat)
    requires Inv(s, x) && k < |x.list| && x.list[k] in s.locks
    ensures u < |s.threads| && !s.threads[u].Idle? && !Blocked(s, u)
    decreases |x.list| - k
  {
    hide ListOk, Inv, ThreadOk;
    u := OwnerOf(s, x, x.list[k]);
    if Blocked(s, u) {
      var i := WaitsFor(s, x, u);
      OnePlace(s, x, i);
      u := OwnerChain(s, x, i + 1);
    }
  }

  lemma OwnerOf<V>(s: State<V>, x: History, n: nat) returns (u: nat)
    requires Inv(s, x) && n in s.locks
    ensures u < |s.threads| && n in Held(s.threads[u])
  {
    hide ListOk, ThreadOk;
    u := s.locks[n];
  }

  lemma WaitsFor<V>(s: State<V>, x: History, u: nat) returns (i: nat)
    requires Inv(s, x) && u < |s.threads| && s.threads[u].Want?
    ensures i + 1 < |x.list| && x.list[i] == s.threads[u].cur && x.list[i + 1] == s.threads[u].next
  {
    hide ListOk, Inv;
    ThreadIsOk(s, x, u);
    i := SuccessorLinked(s, x, s.threads[u].cur, s.threads[u].next);
  }

  lemma {:induction false} NoDeadlock<V>(s: State<V>, x: History, t: nat) returns (u: nat)
    requires Inv(s, x) && t < |s.threads| && !s.threads[t].Idle?
    ensures u < |s.threads| && !s.threads[u].Idle? && !Blocked(s, u)
  {
    hide Inv;
    if !Blocked(s, t) {
      u := t;
    } else if s.threads[t].Want? {
      var i := WaitsFor(s, x, t);
      u := OwnerChain(s, x, i + 1);
    } else {
      HeadFirst(s, x);
      u := OwnerChain(s, x, 0);
    }
  }

  // ---- The order of the list ----

  ghost predicate Before(list: seq<nat>, a: nat, b: nat) {
    exists i, j :: 0 <= i < j < |list| && list[i] == a && list[j] == b
  }

  lemma {:induction false} BeforePushed(list: seq<nat>, n: nat, a: nat, b: nat)
    requires list != [] && list[0] == HEAD && a != n && b != n
    ensures Before([HEAD, n] + list[1..], a, b) <==> Before(list, a, b)
  {
    var l := [HEAD, n] + list[1..];
    assert forall k | 0 < k < |list| :: l[k + 1] == list[k];
    if i, j :| 0 <= i < j < |list| && list[i] == a && list[j] == b {
      assert l[if i == 0 then 0 else i + 1] == a && l[j + 1] == b;
    }
    if i, j :| 0 <= i < j < |l| && l[i] == a && l[j] == b {
      assert list[if i == 0 then 0 else i - 1] == a && list[j - 1] == b;
    }
  }

  lemma {:induction false} BeforeWithout(list: seq<nat>, r: nat, a: nat, b: nat)
    requires r < |list| && a != list[r] && b != list[r]
    ensures Before(Without(list, r), a, b) <==> Before(list, a, b)
  {
    var l := Without(list, r);
    if i, j :| 0 <= i < j < |list| && list[i] == a && list[j] == b {
      var i', j' := if i < r then i else i - 1, if j < r then j else j - 1;
      WithoutAt(list, r, i');
      WithoutAt(list, r, j');
      assert l[i'] == a && l[j'] == b;
    }
    if i, j :| 0 <= i < j < |l| && l[i] == a && l[j] == b {
      WithoutAt(list, r, i);
      WithoutAt(list, r, j);
      assert list[if i < r then i else i + 1] == a && list[if j < r then j else j + 1] == b;
    }
  }

  lemma ListDistinct<V>(s: State<V>, x: History)
    requires Inv(s, x)
    ensures forall i, j | 0 <= i < j < |x.list| :: x.list[i] != x.list[j]
  {
  }

  /** A step leaves the list as it is, puts a pushed node behind the head, or takes one node out. */
  lemma {:induction false} ListAfter<V>(s: State<V>, x: History, t: nat) returns (i: nat)
    requires Inv(s, x) && t < |s.threads| && |x.walks| == |s.threads|
    ensures var pc, l := s.threads[t], Later(s, x, t).list;
      || l == x.list
      || (pc.PushLink? && l == [HEAD, pc.node] + x.list[1..] && pc.node !in x.list)
      || (!pc.PushLink? && i < |x.list| && l == Without(x.list, i))
  {
    hide ListOk, Owned;
    ThreadIsOk(s, x, t);
    i := 0;
    var pc, l := s.threads[t], Later(s, x, t).list;
    if l != x.list && !pc.PushLink? {
      i :| 0 <= i < |x.list| && x.list[i] == pc.next && l == Without(x.list, i);
    }
  }

  /** The order of linked nodes does not change. */
  lemma {:induction false} OrderKept<V>(s: State<V>, x: History, t: nat, a: nat, b: nat)
    requires Inv(s, x) && t < |s.threads| && |x.walks| == |s.threads|
    requires a in Later(s, x, t).list && b in Later(s, x, t).list && a in x.list && b in x.list
    ensures Before(Later(s, x, t).list, a, b) <==> Before(x.list, a, b)
  {
    hide Inv, Later, Before, Without;
    HeadFirst(s, x);
    ListDistinct(s, x);
    var i := ListAfter(s, x, t);
    if Later(s, x, t).list != x.list {
      if s.threads[t].PushLink? {
        BeforePushed(x.list, s.threads[t].node, a, b);
      } else {
        WithoutMembers(x.list, i);
        BeforeWithout(x.list, i, a, b);
      }
    }
  }

  // ---- Walks do not overtake each other ----

  lemma BeforeSuccessor(list: seq<nat>, i: nat, b: nat)
    requires i + 1 < |list| && Before(list, list[i], b) && b != list[i + 1]
    requires forall j, k | 0 <= j < k < |list| :: list[j] != list[k]
    ensures Before(list, list[i + 1], b)
  {
  }

  lemma BeforeFurther(list: seq<nat>, a: nat, i: nat)
    requires i + 1 < |list| && Before(list, a, list[i])
    requires forall j, k | 0 <= j < k < |list| :: list[j] != list[k]
    ensures Before(list, a, list[i + 1])
  {
  }

  /** One step of thread `t`, with its history. */
  ghost predicate Step<V>(s: State<V>, x: History, t: nat, c: Choice<V>, s': State<V>, x': History) {
    && Inv(s, x) && t < |s.threads| == |s'.threads| && |x.walks| == |s.threads|
    && Perform(s, t, c) == Option.Some(s') && x' == Later(s, x, t)
  }

  lemma {:induction false} AfterStep<V>(s: State<V>, x: History, t: nat, c: Choice<V>, s': State<V>, x': History)
    requires Step(s, x, t, c, s', x')
    ensures Inv(s', x') && |x'.walks| == |s'.threads| && forall u | 0 <= u < |s.threads| && u != t :: s'.threads[u] == s.threads[u]
  {
    hide Inv;
    StepKeeps(s, x, t, c);
  }

  /** Where a walk stands after a step: in the same place, or one node further. */
  lemma {:induction false} Moves<V>(s: State<V>, x: History, t: nat, c: Choice<V>, s': State<V>, x': History, u: nat)
    requires Step(s, x, t, c, s', x') && u < |s.threads| && u < |s'.threads|
    requires Walking(s.threads[u]) && Walking(s'.threads[u])
    ensures var cur, cur' := s.threads[u].cur, s'.threads[u].cur;
      cur' == cur || (u == t && s.threads[t].Both? && cur' == s.threads[t].next && x'.list == x.list
                      && cur in s.heap && s.heap[cur].next == Option.Some(cur'))
  {
    hide ListOk, Owned;
    assert ThreadOk(s, x, t) && ThreadOk(s, x, u);
  }

  /** A walk that is ahead of another stays ahead. */
  lemma {:induction false} NoOvertaking<V>(s: State<V>, x: History, t: nat, c: Choice<V>, s': State<V>, x': History, u: nat, v: nat)
    requires Step(s, x, t, c, s', x') && u < |s.threads| && v < |s.threads| && u != v && |s'.threads| == |s.threads|
    requires Walking(s.threads[u]) && Walking(s.threads[v]) && Before(x.list, s.threads[u].cur, s.threads[v].cur)
    requires Walking(s'.threads[u]) && Walking(s'.threads[v])
    ensures Before(x'.list, s'.threads[u].cur, s'.threads[v].cur)
  {
    hide ListOk, Owned, Inv, Perform, Later, Before;
    AfterStep(s, x, t, c, s', x');
    var a, b := s.threads[u].cur, s.threads[v].cur;
    ThreadIsOk(s, x, u);
    ThreadIsOk(s, x, v);
    ThreadIsOk(s', x', u);
    ThreadIsOk(s', x', v);
    ListDistinct(s, x);
    Moves(s, x, t, c, s', x', u);
    Moves(s, x, t, c, s', x', v);
    if s'.threads[u].cur != a {
      var i := SuccessorLinked(s, x, a, s'.threads[u].cur);
      Exclusive(s, x, u, v, s'.threads[u].cur);
      assert b in Held(s.threads[v]);
      BeforeSuccessor(x.list, i, b);
    } else if s'.threads[v].cur != b {
      var i := SuccessorLinked(s, x, b, s'.threads[v].cur);
      BeforeFurther(x.list, a, i);
    } else {
      OrderKept(s, x, t, a, b);
    }
  }

  // ---- Walks miss nothing ----

  /** The step at which a walk hands node `n` to its function, or to its predicate without removing it. */
  predicate Hands<V>(pc: PC<V>, n: nat) {
    (pc.Visit? && pc.cur == n) || (pc.Both? && pc.op.RemoveIf? && pc.next == n)
  }

  /** The walk is beyond `n`, or at it and done with it. */
  ghost predicate Behind<V>(list: seq<nat>, n: nat, pc: PC<V>)
    requires Walking(pc)
  {
    Before(list, n, pc.cur) || (n == pc.cur && !pc.Visit?)
  }

  /** Behind its place, a walk leaves no node that was linked when it began and that it has not handed over, and before
      it there is none that it has. */
  ghost predicate SweptBy<V>(list: seq<nat>, w: Sweep, pc: PC<V>)
    requires Walking(pc)
  {
    && (forall n | n in list && n in w.since && n != HEAD && Behind(list, n, pc) :: n in w.seen)
    && (forall n | n in list && n in w.seen :: Behind(list, n, pc))
  }

  /** What a walk has handed over and left behind, it should neither have found nor removed. */
  ghost predicate PassedBy<V>(heap: map<nat, Node<V>>, w: Sweep, pc: PC<V>)
    requires Walking(pc)
  {
    forall n | n in w.seen && n in heap && heap[n].data.Some? :: Passes(pc.op, heap[n].data.value)
  }

  predicate Pushing<V>(pc: PC<V>) { pc.PushLock? || pc.PushLink? }

  ghost predicate Swept<V>(s: State<V>, x: History) {
    && |x.walks| == |s.threads|
    && (forall t | 0 <= t < |s.threads| && Walking(s.threads[t]) ::
          SweptBy(x.list, x.walks[t], s.threads[t]) && PassedBy(s.heap, x.walks[t], s.threads[t]))
    && (forall t, n | 0 <= t < |s.threads| && (n in x.walks[t].since || n in x.walks[t].seen) :: n < s.unused)
    && (forall t, u | 0 <= t < |s.threads| && 0 <= u < |s.threads| && Pushing(s.threads[t]) ::
          s.threads[t].node !in x.walks[u].since && s.threads[t].node !in x.walks[u].seen)
  }

  /** Data never changes, and names are used once. */
  lemma {:induction false} DataKept<V>(s: State<V>, x: History, t: nat, c: Choice<V>, s': State<V>, x': History)
    requires Step(s, x, t, c, s', x')
    ensures forall n | n in s.heap && n in s'.heap :: s'.heap[n].data == s.heap[n].data
    ensures forall n | n in s'.heap :: n in s.heap || n == s.unused
    ensures s.unused <= s'.unused
  {
    hide ListOk, Owned, ThreadOk, Later;
  }

  /** Only a push links a node. */
  lemma {:induction false} ListGrows<V>(s: State<V>, x: History, t: nat)
    requires Inv(s, x) && t < |s.threads| && |x.walks| == |s.threads|
    ensures var pc := s.threads[t];
      forall n | n in Later(s, x, t).list :: n in s.heap && (n in x.list || (pc.PushLink? && n == pc.node))
  {
    hide Inv, Later, Without;
    ThreadIsOk(s, x, t);
    HeadFirst(s, x);
    ListInHeap(s, x);
    ListDistinct(s, x);
    var i := ListAfter(s, x, t);
    if Later(s, x, t).list != x.list {
      if s.threads[t].PushLink? {
        Membership(x.list, s.threads[t].node);
      } else {
        WithoutMembers(x.list, i);
      }
    }
  }

  lemma ListInHeap<V>(s: State<V>, x: History)
    requires Inv(s, x)
    ensures forall n | n in x.list :: n in s.heap
  {
  }

  lemma CurLinked<V>(s: State<V>, x: History, u: nat)
    requires Inv(s, x) && u < |s.threads| && Walking(s.threads[u])
    ensures s.threads[u].cur in x.list
  {
    ThreadIsOk(s, x, u);
  }

  /** In this step, thread `u` hands `n` over and leaves it in the list. */
  predicate Left<V>(s: State<V>, t: nat, s': State<V>, u: nat, n: nat)
    requires u < |s.threads| && u < |s'.threads|
  {
    u == t && Hands(s.threads[u], n) && s'.threads[u].At?
  }

  /** A walk under way keeps its operation and what was linked when it began, and records what it hands over. */
  lemma {:induction false} WalkOf<V>(s: State<V>, x: History, t: nat, c: Choice<V>, s': State<V>, x': History, u: nat)
    requires Step(s, x, t, c, s', x') && u < |s.threads| && u < |s'.threads|
    requires Walking(s.threads[u]) && Walking(s'.threads[u])
    ensures u < |x'.walks| && x'.walks[u].since == x.walks[u].since && s'.threads[u].op == s.threads[u].op
    ensures forall n | n in x'.walks[u].seen :: n in x.walks[u].seen || Left(s, t, s', u, n)
    ensures forall n | n in x.walks[u].seen || Left(s, t, s', u, n) :: n in x'.walks[u].seen
  {
    hide ListOk, Owned, Inv;
    ThreadIsOk(s, x, u);
    if s.threads[u].Both? {
      var i := SuccessorLinked(s, x, s.threads[u].cur, s.threads[u].next);
    }
  }

  /** A walk that stays where it is. */
  lemma {:induction false} SweptInPlace<V>(s: State<V>, x: History, t: nat, c: Choice<V>, s': State<V>, x': History, u: nat)
    requires Step(s, x, t, c, s', x') && Swept(s, x) && u < |s.threads| && u < |s'.threads|
    requires Walking(s.threads[u]) && Walking(s'.threads[u]) && s'.threads[u].cur == s.threads[u].cur
    ensures u < |x'.walks| && SweptBy(x'.list, x'.walks[u], s'.threads[u])
  {
    hide ListOk, Owned, Inv, ThreadOk, Before, Later;
    AfterStep(s, x, t, c, s', x');
    WalkOf(s, x, t, c, s', x', u);
    if s.threads[u].Visit? && !s'.threads[u].Visit? {
      LeavesVisit(s, x, t, c, s', x', u);
    }
    var cur := s.threads[u].cur;
    ListGrows(s, x, t);
    CurLinked(s, x, u);
    CurLinked(s', x', u);
    forall n | n in x'.list && n in x.walks[u].since && n != HEAD && Behind(x'.list, n, s'.threads[u])
      ensures n in x'.walks[u].seen
    {
      OrderKept(s, x, t, n, cur);
    }
    forall n | n in x'.list && n in x'.walks[u].seen
      ensures Behind(x'.list, n, s'.threads[u])
    {
      if n in x.walks[u].seen {
        OrderKept(s, x, t, n, cur);
        StaysVisit(s, x, t, c, s', x', u);
      } else {
        LeftBehind(s, x, t, c, s', x', u, n);
      }
    }
  }

  lemma StaysVisit<V>(s: State<V>, x: History, t: nat, c: Choice<V>, s': State<V>, x': History, u: nat)
    requires Step(s, x, t, c, s', x') && u < |s.threads| && u < |s'.threads|
    requires Walking(s.threads[u]) && Walking(s'.threads[u]) && s'.threads[u].cur == s.threads[u].cur
    ensures s'.threads[u].Visit? ==> s.threads[u].Visit?
  {
    hide ListOk, Owned, Later;
    ThreadIsOk(s, x, u);
    if s.threads[u].Both? {
      var i := SuccessorLinked(s, x, s.threads[u].cur, s.threads[u].next);
    }
  }

  /** What a walk has just handed over is where it stands. */
  lemma LeftBehind<V>(s: State<V>, x: History, t: nat, c: Choice<V>, s': State<V>, x': History, u: nat, n: nat)
    requires Step(s, x, t, c, s', x') && u < |s.threads| && u < |s'.threads| && Left(s, t, s', u, n)
    ensures Behind(x'.list, n, s'.threads[u])
  {
    hide ListOk, Owned, Later;
    ThreadIsOk(s, x, u);
  }

  lemma LeavesVisit<V>(s: State<V>, x: History, t: nat, c: Choice<V>, s': State<V>, x': History, u: nat)
    requires Step(s, x, t, c, s', x') && u < |s.threads| && u < |s'.threads|
    requires Walking(s.threads[u]) && Walking(s'.threads[u]) && s.threads[u].Visit? && !s'.threads[u].Visit?
    ensures Left(s, t, s', u, s.threads[u].cur)
  {
    hide ListOk, Owned, Later;
    ThreadIsOk(s, x, u);
  }

  /** A walk that moves on: what was behind it still is, and it has handed over the node it left. */
  lemma {:induction false} SweptMoving<V>(s: State<V>, x: History, t: nat, c: Choice<V>, s': State<V>, x': History)
    requires Step(s, x, t, c, s', x') && Swept(s, x)
    requires Walking(s.threads[t]) && Walking(s'.threads[t]) && s'.threads[t].cur != s.threads[t].cur
    ensures t < |x'.walks| && SweptBy(x'.list, x'.walks[t], s'.threads[t])
  {
    hide ListOk, Owned, Inv, ThreadOk, Before, Later;
    AfterStep(s, x, t, c, s', x');
    Moves(s, x, t, c, s', x', t);
    WalkOf(s, x, t, c, s', x', t);
    ListDistinct(s, x);
    CurLinked(s, x, t);
    var cur, next := s.threads[t].cur, s'.threads[t].cur;
    var i := SuccessorLinked(s, x, cur, next);
    LeavesBoth(s, x, t, c, s', x');
    forall n | n in x'.list && n in x.walks[t].since && n != HEAD && Behind(x'.list, n, s'.threads[t])
      ensures n in x'.walks[t].seen
    {
      if n != next {
        BeforeNext(x.list, n, i);
      } else {
        NotBeforeItself(x.list, n);
      }
    }
    forall n | n in x'.list && n in x'.walks[t].seen
      ensures Behind(x'.list, n, s'.threads[t])
    {
      if n in x.walks[t].seen {
        NextIsFurther(x.list, n, i);
      } else {
        LeftBehind(s, x, t, c, s', x', t, n);
      }
    }
  }

  lemma NextIsFurther(list: seq<nat>, n: nat, i: nat)
    requires i + 1 < |list| && (forall j, k | 0 <= j < k < |list| :: list[j] != list[k])
    requires Before(list, n, list[i]) || n == list[i]
    ensures Before(list, n, list[i + 1])
  {
  }

  lemma NotBeforeItself(list: seq<nat>, n: nat)
    requires forall j, k | 0 <= j < k < |list| :: list[j] != list[k]
    ensures !Before(list, n, n)
  {
  }

  lemma BeforeNext(list: seq<nat>, n: nat, i: nat)
    requires i + 1 < |list| && (forall j, k | 0 <= j < k < |list| :: list[j] != list[k])
    requires Before(list, n, list[i + 1])
    ensures n == list[i] || Before(list, n, list[i])
  {
  }

  lemma LeavesBoth<V>(s: State<V>, x: History, t: nat, c: Choice<V>, s': State<V>, x': History)
    requires Step(s, x, t, c, s', x')
    requires Walking(s.threads[t]) && Walking(s'.threads[t]) && s'.threads[t].cur != s.threads[t].cur
    ensures s.threads[t].Both? && (s'.threads[t].Visit? || Left(s, t, s', t, s'.threads[t].cur))
  {
    hide ListOk, Owned, Later;
  }

  /** A walk that begins has nothing behind it. */
  lemma {:induction false} SweptStart<V>(s: State<V>, x: History, t: nat, c: Choice<V>, s': State<V>, x': History)
    requires Step(s, x, t, c, s', x') && !Walking(s.threads[t]) && Walking(s'.threads[t])
    ensures t < |x'.walks| && x'.walks[t] == Sweep(set n | n in x.list, {})
    ensures SweptBy(x'.list, x'.walks[t], s'.threads[t])
  {
    hide Owned, ThreadOk;
    AfterStep(s, x, t, c, s', x');
    assert s'.threads[t].cur == HEAD;
    HeadFirst(s', x');
    ListDistinct(s', x');
  }

  lemma {:induction false} PassedStep<V>(s: State<V>, x: History, t: nat, c: Choice<V>, s': State<V>, x': History, u: nat)
    requires Step(s, x, t, c, s', x') && Swept(s, x) && u < |s.threads| && u < |s'.threads|
    requires Walking(s.threads[u]) && Walking(s'.threads[u])
    ensures u < |x'.walks| && PassedBy(s'.heap, x'.walks[u], s'.threads[u])
  {
    hide Inv, ThreadOk, Before, Later, SweptBy, Perform;
    WalkOf(s, x, t, c, s', x', u);
    DataKept(s, x, t, c, s', x');
    forall n | n in x'.walks[u].seen && n in s'.heap && s'.heap[n].data.Some?
      ensures Passes(s'.threads[u].op, s'.heap[n].data.value)
    {
      if n !in x.walks[u].seen {
        LeftPasses(s, x, t, c, s', x', n);
      }
    }
  }

  lemma LeftPasses<V>(s: State<V>, x: History, t: nat, c: Choice<V>, s': State<V>, x': History, n: nat)
    requires Step(s, x, t, c, s', x') && t < |s'.threads| && Left(s, t, s', t, n)
    ensures n in s.heap && s.heap[n].data.Some? && Passes(s.threads[t].op, s.heap[n].data.value)
  {
    hide ListOk, Owned, Later;
    ThreadIsOk(s, x, t);
  }

  lemma {:induction false} SweptStep<V>(s: State<V>, x: History, t: nat, c: Choice<V>, s': State<V>, x': History)
    requires Step(s, x, t, c, s', x') && Swept(s, x)
    ensures Swept(s', x')
  {
    hide ListOk, Owned, Inv, ThreadOk, SweptBy, Perform;
    AfterStep(s, x, t, c, s', x');
    forall u | 0 <= u < |s'.threads| && Walking(s'.threads[u])
      ensures SweptBy(x'.list, x'.walks[u], s'.threads[u]) && PassedBy(s'.heap, x'.walks[u], s'.threads[u])
    {
      if u == t && !Walking(s.threads[t]) {
        SweptStart(s, x, t, c, s', x');
      } else {
        PassedStep(s, x, t, c, s', x', u);
        if s'.threads[u].cur == s.threads[u].cur {
          SweptInPlace(s, x, t, c, s', x', u);
        } else {
          SweptMoving(s, x, t, c, s', x');
        }
      }
    }
    SinceStep(s, x, t, c, s', x');
  }

  lemma {:induction false} SinceStep<V>(s: State<V>, x: History, t: nat, c: Choice<V>, s': State<V>, x': History)
    requires Step(s, x, t, c, s', x') && Swept(s, x)
    ensures |x'.walks| == |s'.threads|
    ensures forall u, n | 0 <= u < |s'.threads| && (n in x'.walks[u].since || n in x'.walks[u].seen) :: n < s'.unused
    ensures forall v, u | 0 <= v < |s'.threads| && 0 <= u < |s'.threads| && Pushing(s'.threads[v]) ::
              s'.threads[v].node !in x'.walks[u].since && s'.threads[v].node !in x'.walks[u].seen
  {
    hide Inv, SweptBy, PassedBy, Perform, Later;
    AfterStep(s, x, t, c, s', x');
    DataKept(s, x, t, c, s', x');
    SinceGrows(s, x, t);
    forall u, n | 0 <= u < |s'.threads| && (n in x'.walks[u].since || n in x'.walks[u].seen)
      ensures n < s.unused
    {
      assert n in x.walks[u].since || n in x.walks[u].seen || n in x.list;
    }
    forall v | 0 <= v < |s'.threads| && Pushing(s'.threads[v])
      ensures s'.threads[v].node !in x.list
      ensures forall u | 0 <= u < |s.threads| :: s'.threads[v].node !in x.walks[u].since && s'.threads[v].node !in x.walks[u].seen
    {
      NewOrOld(s, x, t, c, s', x', v);
    }
  }

  lemma SinceGrows<V>(s: State<V>, x: History, t: nat)
    requires Inv(s, x) && t < |s.threads| && |x.walks| == |s.threads|
    ensures |Later(s, x, t).walks| == |x.walks|
    ensures forall u, n | 0 <= u < |x.walks| && n in Later(s, x, t).walks[u].since :: n in x.walks[u].since || n in x.list
    ensures forall u, n | 0 <= u < |x.walks| && n in Later(s, x, t).walks[u].seen :: n in x.walks[u].seen || n in x.list
    ensures forall n | n in x.list :: n < s.unused
  {
    hide Owned;
    ThreadIsOk(s, x, t);
    var pc := s.threads[t];
    if pc.Both? {
      var i := SuccessorLinked(s, x, pc.cur, pc.next);
    }
  }

  lemma NewOrOld<V>(s: State<V>, x: History, t: nat, c: Choice<V>, s': State<V>, x': History, v: nat)
    requires Step(s, x, t, c, s', x') && Swept(s, x) && v < |s'.threads| && Pushing(s'.threads[v])
    ensures s'.threads[v].node !in x.list
    ensures forall u | 0 <= u < |s.threads| :: s'.threads[v].node !in x.walks[u].since && s'.threads[v].node !in x.walks[u].seen
  {
    hide Inv, SweptBy, PassedBy, Later, Perform;
    SinceGrows(s, x, t);
    PusherOf(s, x, t, c, s', x', v);
    if Pushing(s.threads[v]) {
      ThreadIsOk(s, x, v);
    }
  }

  lemma PusherOf<V>(s: State<V>, x: History, t: nat, c: Choice<V>, s': State<V>, x': History, v: nat)
    requires Step(s, x, t, c, s', x') && v < |s'.threads| && Pushing(s'.threads[v])
    ensures s'.threads[v].node == s.unused || (Pushing(s.threads[v]) && s.threads[v].node == s'.threads[v].node)
  {
    hide Inv, Later;
  }

  /** A walk at the end of the list has handed over every node that was linked from its beginning on, and none of
      them should have been found or removed. */
  lemma {:induction false} FinishedWalk<V>(s: State<V>, x: History, t: nat, op: Op<V>, cur: nat)
    requires Inv(s, x) && Swept(s, x) && t < |s.threads| && s.threads[t] == At(op, cur)
    requires cur in s.heap && s.heap[cur].next == None
    ensures forall n | n in x.list && n in x.walks[t].since && n != HEAD ::
              n in x.walks[t].seen && n in s.heap && s.heap[n].data.Some? && Passes(op, s.heap[n].data.value)
  {
    ThreadIsOk(s, x, t);
    var i :| 0 <= i < |x.list| && x.list[i] == cur;
    forall n | n in x.list && n in x.walks[t].since && n != HEAD
      ensures n in x.walks[t].seen && n in s.heap && s.heap[n].data.Some? && Passes(op, s.heap[n].data.value)
    {
      var j :| 0 <= j < |x.list| && x.list[j] == n;
      DataThere(s, x, n);
      assert j < i ==> Before(x.list, n, cur);
    }
  }

  // ---- Whole runs ----

  /** Reached from the head through the next pointers. */
  ghost predicate Linked<V>(s: State<V>, n: nat) {
    exists list :: ListOk(s.heap, list) && n in list
  }

  /** Linked, and `b` is reached through `a`. */
  ghost predicate Precedes<V>(s: State<V>, a: nat, b: nat) {
    exists list :: ListOk(s.heap, list) && Before(list, a, b)
  }

  /** The next pointers leave no choice. */
  lemma {:induction false} SamePlace<V>(heap: map<nat, Node<V>>, list: seq<nat>, other: seq<nat>, k: nat)
    requires ListOk(heap, list) && ListOk(heap, other) && k < |list| && k < |other|
    ensures list[k] == other[k]
  {
    if k > 0 {
      SamePlace(heap, list, other, k - 1);
      assert NextIn(list, k - 1) == NextIn(other, k - 1);
    }
  }

  lemma {:induction false} OneList<V>(heap: map<nat, Node<V>>, list: seq<nat>, other: seq<nat>)
    requires ListOk(heap, list) && ListOk(heap, other)
    ensures list == other
  {
    var last := (if |list| < |other| then |list| else |other|) - 1;
    SamePlace(heap, list, other, last);
    assert NextIn(list, last) == NextIn(other, last);
    forall k | 0 <= k <= last
      ensures list[k] == other[k]
    {
      SamePlace(heap, list, other, k);
    }
  }

  lemma {:induction false} LinkedInList<V>(s: State<V>, x: History)
    requires Inv(s, x)
    ensures forall n :: Linked(s, n) <==> n in x.list
    ensures forall a, b :: Precedes(s, a, b) <==> Before(x.list, a, b)
  {
    hide ThreadOk, Owned, Before;
    forall list | ListOk(s.heap, list)
      ensures list == x.list
    {
      OneList(s.heap, list, x.list);
    }
  }

  /** One entry of a schedule, with its history. */
  ghost predicate Follows<V>(s: State<V>, x: History, turn: (nat, Choice<V>), s': State<V>, x': History) {
    if turn.0 < |s.threads| then Step(s, x, turn.0, turn.1, s', x') else s' == s && x' == x
  }

  /** The histories of a run of `n` threads. */
  ghost predicate Recorded<V>(n: nat, states: seq<State<V>>, schedule: seq<(nat, Choice<V>)>, xs: seq<History>) {
    && |xs| == |states| == |schedule| + 1
    && states[0] == Init<V>(n)
    && (forall k | 0 <= k < |states| :: Inv(states[k], xs[k]) && Swept(states[k], xs[k]) && |states[k].threads| == n)
    && (forall k | 0 <= k < |schedule| :: Follows(states[k], xs[k], schedule[k], states[k + 1], xs[k + 1]))
  }

  lemma {:induction false} InitOk<V>(n: nat)
    ensures var x := History([HEAD], seq(n, _ => Sweep({}, {}))); Inv(Init<V>(n), x) && Swept(Init<V>(n), x)
  {
  }

  lemma {:induction false} NextTurn<V>(s: State<V>, x: History, turn: (nat, Choice<V>)) returns (s': State<V>, x': History)
    requires Inv(s, x) && Swept(s, x)
    ensures Turn(s, turn) == Option.Some(s') && Follows(s, x, turn, s', x')
    ensures Inv(s', x') && Swept(s', x') && |s'.threads| == |s.threads|
  {
    hide Inv, SweptBy, PassedBy, Perform;
    var (t, c) := turn;
    if t < |s.threads| {
      StepKeeps(s, x, t, c);
      ThreadsStay(s, t, c);
      s', x' := Perform(s, t, c).value, Later(s, x, t);
      SweptStep(s, x, t, c, s', x');
    } else {
      s', x' := s, x;
    }
  }

  lemma ThreadsStay<V>(s: State<V>, t: nat, c: Choice<V>)
    requires t < |s.threads|
    ensures Perform(s, t, c).Some? ==> |Perform(s, t, c).value.threads| == |s.threads|
  {
  }

  lemma {:induction false} OneMore<V>(n: nat, states: seq<State<V>>, schedule: seq<(nat, Choice<V>)>, xs: seq<History>,
                                      k: nat, s: State<V>, x: History)
    requires k < |schedule| && IsRun(states, schedule[..k]) && Recorded(n, states, schedule[..k], xs)
    requires Turn(states[k], schedule[k]) == Option.Some(s) && Follows(states[k], xs[k], schedule[k], s, x)
    requires Inv(s, x) && Swept(s, x) && |s.threads| == |states[k].threads|
    ensures IsRun(states + [s], schedule[..k + 1]) && Recorded(n, states + [s], schedule[..k + 1], xs + [x])
  {
    hide Inv, Swept, Turn, Follows;
    var ss, ys := states + [s], xs + [x];
    forall i | 0 <= i < k + 1
      ensures Turn(ss[i], schedule[..k + 1][i]) == Option.Some(ss[i + 1])
      ensures Follows(ss[i], ys[i], schedule[..k + 1][i], ss[i + 1], ys[i + 1])
    {
      if i < k {
        assert schedule[..k][i] == schedule[i];
      }
    }
  }

  /** Any number of threads, any schedule: no run touches a destroyed node, or unlocks or destroys a mutex it must not. */
  lemma {:induction false} EveryRunIsSafe<V>(n: nat, schedule: seq<(nat, Choice<V>)>) returns (states: seq<State<V>>, xs: seq<History>)
    ensures IsRun(states, schedule) && Recorded(n, states, schedule, xs)
  {
    hide Inv, Swept, Turn, Follows;
    InitOk<V>(n);
    states, xs := [Init<V>(n)], [History([HEAD], seq(n, _ => Sweep({}, {})))];
    for k := 0 to |schedule|
      invariant |states| == k + 1 && IsRun(states, schedule[..k]) && Recorded(n, states, schedule[..k], xs)
    {
      var s, x := NextTurn(states[k], xs[k], schedule[k]);
      OneMore(n, states, schedule, xs, k, s, x);
      states, xs := states + [s], xs + [x];
    }
    assert schedule[..|schedule|] == schedule;
  }

  lemma {:induction false} OneRun<V>(states: seq<State<V>>, other: seq<State<V>>, schedule: seq<(nat, Choice<V>)>)
    requires IsRun(states, schedule) && IsRun(other, schedule) && states[0] == other[0]
    ensures states == other
  {
    hide Turn;
    for k := 0 to |schedule|
      invariant states[..k + 1] == other[..k + 1]
    {
      assert states[k] == states[..k + 1][k] == other[k];
    }
  }

  lemma Histories<V>(n: nat, states: seq<State<V>>, schedule: seq<(nat, Choice<V>)>) returns (xs: seq<History>)
    requires IsRun(states, schedule) && states[0] == Init<V>(n)
    ensures Recorded(n, states, schedule, xs)
  {
    hide Inv, Swept, Turn, Follows;
    var others;
    others, xs := EveryRunIsSafe(n, schedule);
    OneRun(states, others, schedule);
  }

  /** At no point of a run are all the threads that are in an operation stuck. */
  lemma {:induction false} NeverStuck<V>(n: nat, states: seq<State<V>>, schedule: seq<(nat, Choice<V>)>, k: nat, t: nat) returns (u: nat)
    requires IsRun(states, schedule) && states[0] == Init<V>(n)
    requires k < |states| && t < |states[k].threads| && !states[k].threads[t].Idle?
    ensures u < |states[k].threads| && !states[k].threads[u].Idle? && !Blocked(states[k], u)
  {
    var xs := Histories(n, states, schedule);
    u := NoDeadlock(states[k], xs[k], t);
  }

  /** Thread `t` is in a walk from state `i` to state `j`. */
  predicate WalksOn<V>(states: seq<State<V>>, t: nat, i: nat, j: nat) {
    i <= j < |states| && forall k | i <= k <= j :: t < |states[k].threads| && Walking(states[k].threads[t])
  }

  /** Two walks keep their order for as long as both last, whatever happens meanwhile. */
  lemma {:induction false} WalksKeepOrder<V>(n: nat, states: seq<State<V>>, schedule: seq<(nat, Choice<V>)>, u: nat, v: nat, i: nat, j: nat)
    requires IsRun(states, schedule) && states[0] == Init<V>(n)
    requires u != v && WalksOn(states, u, i, j) && WalksOn(states, v, i, j)
    requires Precedes(states[i], states[i].threads[u].cur, states[i].threads[v].cur)
    ensures Precedes(states[j], states[j].threads[u].cur, states[j].threads[v].cur)
  {
    hide Inv, Swept, Turn, Step, Precedes, Before;
    var xs := Histories(n, states, schedule);
    LinkedInList(states[i], xs[i]);
    for k := i to j
      invariant Before(xs[k].list, states[k].threads[u].cur, states[k].threads[v].cur)
    {
      var (t, c) := schedule[k];
      assert Follows(states[k], xs[k], schedule[k], states[k + 1], xs[k + 1]);
      if t < n {
        NoOvertaking(states[k], xs[k], t, c, states[k + 1], xs[k + 1], u, v);
      }
    }
    LinkedInList(states[j], xs[j]);
  }

  /** Between states `i` and `j`, thread `t` handed `m` over. */
  ghost predicate HandedOver<V>(states: seq<State<V>>, t: nat, i: nat, j: nat, m: nat) {
    exists k | i <= k < j < |states| :: t < |states[k].threads| && Hands(states[k].threads[t], m)
  }

  /** The history of a walk is what was linked when it took the first mutex, and what it has handed over since. */
  lemma {:induction false} WalkRecorded<V>(n: nat, states: seq<State<V>>, schedule: seq<(nat, Choice<V>)>, xs: seq<History>, t: nat, i: nat, j: nat)
    requires Recorded(n, states, schedule, xs)
    requires i < j && WalksOn(states, t, i + 1, j) && t < |states[i].threads| && !Walking(states[i].threads[t])
    ensures t < |xs[j].walks| && xs[j].walks[t].since == set m | m in xs[i].list
    ensures forall m | m in xs[j].walks[t].seen :: HandedOver(states, t, i + 1, j, m)
  {
    hide Inv, SweptBy, PassedBy, Perform, Later;
    assert Follows(states[i], xs[i], schedule[i], states[i + 1], xs[i + 1]);
    Others(states[i], xs[i], schedule[i], states[i + 1], xs[i + 1], t);
    SweptStart(states[i], xs[i], t, schedule[i].1, states[i + 1], xs[i + 1]);
    for k := i + 1 to j
      invariant xs[k].walks[t].since == set m | m in xs[i].list
      invariant forall m | m in xs[k].walks[t].seen :: HandedOver(states, t, i + 1, k, m)
    {
      var (u, c) := schedule[k];
      assert Follows(states[k], xs[k], schedule[k], states[k + 1], xs[k + 1]);
      if u < n {
        WalkOf(states[k], xs[k], u, c, states[k + 1], xs[k + 1], t);
      }
    }
  }

  lemma Others<V>(s: State<V>, x: History, turn: (nat, Choice<V>), s': State<V>, x': History, t: nat)
    requires Follows(s, x, turn, s', x') && t < |s.threads| && t < |s'.threads| && s'.threads[t] != s.threads[t]
    ensures turn.0 == t
  {
    hide Inv;
    if turn.0 < |s.threads| && turn.0 != t {
      AfterStep(s, x, turn.0, turn.1, s', x');
    }
  }

  /** A walk that takes the first mutex after state `i` and stands at the end of the list in state `j` has handed over
      every node linked at both points, and none of them is one it should have found or removed. */
  lemma {:induction false} NothingMissed<V>(n: nat, states: seq<State<V>>, schedule: seq<(nat, Choice<V>)>, t: nat, i: nat, j: nat, op: Op<V>, cur: nat)
    requires IsRun(states, schedule) && states[0] == Init<V>(n)
    requires i < j && WalksOn(states, t, i + 1, j) && t < |states[i].threads| && !Walking(states[i].threads[t])
    requires states[j].threads[t] == At(op, cur) && cur in states[j].heap && states[j].heap[cur].next == None
    ensures forall m | m != HEAD && Linked(states[i], m) && Linked(states[j], m) ::
      && HandedOver(states, t, i + 1, j, m)
      && m in states[j].heap && states[j].heap[m].data.Some? && Passes(op, states[j].heap[m].data.value)
  {
    hide Inv, Swept, Linked, HandedOver;
    var xs := Histories(n, states, schedule);
    LinkedInList(states[i], xs[i]);
    LinkedInList(states[j], xs[j]);
    WalkRecorded(n, states, schedule, xs, t, i, j);
    FinishedWalk(states[j], xs[j], t, op, cur);
  }
}
