/** How the operations of the lock-free stack (concurrent/chapter7/lockfree_stack.cpp) get on: a thread whose head
    nobody else moves finishes soon and with the right result, and two pops can hinder each other for ever. */
module StackProgress {
  import opened LockFreeStack
  import opened Options

  /** The value that a thread expects to find in head at its next compare-exchange. */
  function Expected<V>(s: State<V>, t: nat): Option<Counted>
    requires t < |s.threads|
  {
    match s.threads[t]
    case PushCas(n) => if n in s.heap then Some(s.heap[n].next) else None
    case Inc(seen) => Some(seen)
    case Held(seen) => Some(seen)
    case PopCas(seen, _) => Some(seen)
    case Missed(_, now) => Some(now)
    case FreeMissed(_, now) => Some(now)
    case _ => None
  }

  /** The address is free and the weak compare-exchange does not fail spuriously. */
  predicate Effective<V>(s: State<V>, t: nat, c: Choice<V>)
    requires t < |s.threads|
  {
    && (s.threads[t].PushNew? ==> c.addr != 0 && c.addr !in s.heap)
    && (s.threads[t].PushCas? ==> !c.spurious)
  }

  /** The turns that a thread still needs as long as nobody else moves head. */
  function TurnsLeft<V>(s: State<V>, t: nat): (n: nat)
    requires t < |s.threads|
    ensures n <= 11
  {
    var current := Expected(s, t) == Option.Some(s.head);
    match s.threads[t]
    case Idle => 0
    case PushNew(_) => 3
    case PushLoad(_) => 2
    case PushCas(_) => if current then 1 else 2
    case PopLoad => 8
    case Inc(_) => if current then 7 else 8
    case Held(seen) => if seen.ptr == 0 then 2 else if current then 6 else 11
    case PopCas(_, _) => if current then 5 else 10
    case Took(_) => 4
    case Swapped(_, _) => 3
    case FreeTaken(_, _) => 2
    case Missed(_, _) => if current then 9 else 10
    case FreeMissed(_, _) => if current then 8 else 9
    case Return(_) => 1
  }

  // ---- One turn ----

  /** A turn of the thread itself leaves less to do, or as much when an address is taken or a failure spurious. */
  lemma {:induction false} OwnTurn<V>(s: State<V>, x: History, t: nat, c: Choice<V>)
    requires Inv(s, x) && t < |s.threads| && !s.threads[t].Idle? && Perform(s, t, c).Some?
    ensures var s' := Perform(s, t, c).value;
      && t < |s'.threads| && TurnsLeft(s', t) <= TurnsLeft(s, t)
      && (Effective(s, t, c) ==> TurnsLeft(s', t) < TurnsLeft(s, t))
  {
    hide Inv;
  }

  /** What a thread expects after its own turn it has just seen in head, or expected before. */
  lemma OwnExpectation<V>(s: State<V>, t: nat, c: Choice<V>)
    requires t < |s.threads| && Perform(s, t, c).Some?
    ensures var s' := Perform(s, t, c).value;
      t < |s'.threads| && (Expected(s', t).Some? ==> Expected(s', t).value == s'.head || Expected(s', t) == Expected(s, t))
  {
  }

  /** No thread has a hand in what another one expects. */
  lemma {:induction false} OthersExpectation<V>(s: State<V>, x: History, u: nat, c: Choice<V>, t: nat)
    requires Inv(s, x) && u < |s.threads| && t < |s.threads| && u != t && Perform(s, u, c).Some?
    ensures var s' := Perform(s, u, c).value;
      t < |s'.threads| && s'.threads[t] == s.threads[t] && Expected(s', t) == Expected(s, t)
  {
    hide Inv;
    if s.threads[t].PushCas? {
      var n := s.threads[t].node;
      OnlyPusher(s, x, u, t, n);
      var pc := s.threads[u];
      assert !Is(pc, Pusher, n) && !Is(pc, Owner, n) && !Is(pc, Holder, n) && !Is(pc, Deleter, n);
    }
  }

  /** A node that is not linked yet is known to its pusher alone. */
  lemma {:induction false} OnlyPusher<V>(s: State<V>, x: History, u: nat, t: nat, n: nat)
    requires Inv(s, x) && u < |s.threads| && t < |s.threads| && u != t && Is(s.threads[t], Pusher, n)
    ensures n != 0 && n in s.heap && forall role: Role :: !Is(s.threads[u], role, n)
  {
    RefersToHeap(s, x, t, Pusher, n);
    assert NodeOk(s, x, n);
    hide Inv, Is, Count;
    CountAtLeast(s.threads, t, Pusher, n);
    forall role: Role
      ensures !Is(s.threads[u], role, n)
    {
      if Is(s.threads[u], role, n) {
        CountAtLeast(s.threads, u, role, n);
        if role == Pusher {
          if t < u {
            CountTwo(s.threads, t, u, role, n);
          } else {
            CountTwo(s.threads, u, t, role, n);
          }
        }
      }
    }
  }

  // ---- Whole runs ----

  /** Between states `i` and `j`, nobody but `t` moves head. */
  ghost predicate Unhindered<V>(states: seq<State<V>>, schedule: seq<(nat, Choice<V>)>, t: nat, i: nat, j: nat) {
    && |states| == |schedule| + 1 && i <= j < |states|
    && forall k | i <= k < j && schedule[k].0 != t :: states[k + 1].head == states[k].head
  }

  /** Between states `i` and `j`, thread `t` is in one operation. */
  ghost predicate Busy<V>(states: seq<State<V>>, t: nat, i: nat, j: nat) {
    i <= j <= |states| && forall k | i <= k < j :: t < |states[k].threads| && !states[k].threads[t].Idle?
  }

  /** The effective turns of `t` between states `i` and `j`. */
  ghost function Turns<V>(states: seq<State<V>>, schedule: seq<(nat, Choice<V>)>, t: nat, i: nat, j: nat): nat
    requires i <= j <= |schedule| && j <= |states|
    requires forall k | i <= k < j :: t < |states[k].threads|
  {
    if i == j then 0
    else
      Turns(states, schedule, t, i, j - 1)
      + if schedule[j - 1].0 == t && Effective(states[j - 1], t, schedule[j - 1].1) then 1 else 0
  }

  /** The states of a run of `n` threads, and what the atomic stack does next to it. */
  ghost predicate Recorded<V>(n: nat, states: seq<State<V>>, xs: seq<History>, trace: seq<Atomic<V>>, schedule: seq<(nat, Choice<V>)>) {
    && IsRun(states, schedule) && Alongside(states, xs, trace, schedule)
    && forall k | 0 <= k < |states| :: |states[k].threads| == n
  }

  lemma {:induction false} AnyTurn<V>(s: State<V>, x: History, turn: (nat, Choice<V>), s': State<V>, t: nat)
    requires Inv(s, x) && Turn(s, turn) == Option.Some(s') && t < |s.threads| && t < |s'.threads|
    requires !s.threads[t].Idle? && (turn.0 == t || s'.head == s.head)
    ensures TurnsLeft(s', t) + (if turn.0 == t && Effective(s, t, turn.1) then 1 else 0) <= TurnsLeft(s, t)
  {
    hide Inv, Perform, Effective;
    if turn.0 == t {
      OwnTurn(s, x, t, turn.1);
    } else if turn.0 < |s.threads| {
      OthersExpectation(s, x, turn.0, turn.1, t);
    }
  }

  /** An operation still going on has made fewer than eleven effective turns since somebody else last moved head. */
  lemma {:induction false} SoonDone<V>(n: nat, states: seq<State<V>>, xs: seq<History>, trace: seq<Atomic<V>>,
                                       schedule: seq<(nat, Choice<V>)>, t: nat, i: nat, j: nat)
    requires Recorded(n, states, xs, trace, schedule) && t < n
    requires Unhindered(states, schedule, t, i, j) && Busy(states, t, i, j + 1)
    ensures Turns(states, schedule, t, i, j) + TurnsLeft(states[j], t) <= TurnsLeft(states[i], t) <= 11
    ensures Turns(states, schedule, t, i, j) <= 10
    decreases j
  {
    hide Inv, Turn, Abs, AtomicStep, Effective, TurnsLeft;
    if i < j {
      SoonDone(n, states, xs, trace, schedule, t, i, j - 1);
      AnyTurn(states[j - 1], xs[j - 1], schedule[j - 1], states[j], t);
    }
    BusyHasTurns(states[j], t);
  }

  lemma BusyHasTurns<V>(s: State<V>, t: nat)
    requires t < |s.threads| && !s.threads[t].Idle?
    ensures TurnsLeft(s, t) >= 1
  {
  }

  /** Scheduled alone, with free addresses and no spurious failure, an operation is over within eleven turns. */
  lemma {:induction false} AloneFinishes<V>(n: nat, states: seq<State<V>>, xs: seq<History>, trace: seq<Atomic<V>>,
                                            schedule: seq<(nat, Choice<V>)>, t: nat, i: nat) returns (j: nat)
    requires Recorded(n, states, xs, trace, schedule) && t < n && i + 11 < |states|
    requires forall k | i <= k < i + 11 :: schedule[k].0 == t && Effective(states[k], t, schedule[k].1)
    ensures i <= j <= i + 11 && states[j].threads[t].Idle?
  {
    hide Inv, Turn, Abs, AtomicStep, Effective;
    if k :| i <= k <= i + 11 && states[k].threads[t].Idle? {
      j := k;
    } else {
      for k := i to i + 11
        invariant Turns(states, schedule, t, i, k) == k - i
      {
      }
      SoonDone(n, states, xs, trace, schedule, t, i, i + 11);
      assert false;
    }
  }

  /** What a thread expects in head has been there: a compare-exchange fails only if head has changed since. */
  lemma {:induction false} ExpectationSeen<V>(n: nat, states: seq<State<V>>, xs: seq<History>, trace: seq<Atomic<V>>,
                                              schedule: seq<(nat, Choice<V>)>, t: nat, k: nat) returns (i: nat)
    requires Recorded(n, states, xs, trace, schedule) && states[0] == Init<V>(n) && t < n && k < |states|
    requires Expected(states[k], t).Some?
    ensures i <= k && forall l | i <= l <= k :: Expected(states[l], t) == Expected(states[k], t)
    ensures states[i].head == Expected(states[k], t).value
    decreases k
  {
    hide Inv, Perform, Abs, AtomicStep, Expected;
    if k == 0 {
      QuietExpects(states[0], t);
    } else {
      var (u, c) := schedule[k - 1];
      assert Turn(states[k - 1], schedule[k - 1]) == Option.Some(states[k]);
      if u == t {
        OwnExpectation(states[k - 1], t, c);
      } else if u < n {
        OthersExpectation(states[k - 1], xs[k - 1], u, c, t);
      }
      if Expected(states[k - 1], t) == Expected(states[k], t) {
        i := ExpectationSeen(n, states, xs, trace, schedule, t, k - 1);
      } else {
        i := k;
      }
    }
  }

  lemma QuietExpects<V>(s: State<V>, t: nat)
    requires t < |s.threads| && s.threads[t].Idle?
    ensures Expected(s, t) == None
  {
  }

  // ---- The result of an operation that nobody hinders ----

  /** Who does not move head leaves the linked nodes and their data alone. */
  lemma {:induction false} LinkedUntouched<V>(s: State<V>, x: History, u: nat, c: Choice<V>, m: nat)
    requires Inv(s, x) && u < |s.threads| && Perform(s, u, c).Some? && m in x.list
    ensures var s' := Perform(s, u, c).value;
      m in s.heap && m in s'.heap && s'.heap[m].next == s.heap[m].next && s'.heap[m].data == s.heap[m].data
  {
    assert NodeOk(s, x, m);
    hide Inv;
    forall role: Role | Is(s.threads[u], role, m)
      ensures role == Holder
    {
      CountAtLeast(s.threads, u, role, m);
    }
    var pc := s.threads[u];
    assert !Is(pc, Pusher, m) && !Is(pc, Owner, m) && !Is(pc, Deleter, m);
  }

  /** The next fields leave no choice. */
  lemma {:induction false} SameList<V>(ts: seq<PC<V>>, heap: map<nat, Node<V>>, ts': seq<PC<V>>, heap': map<nat, Node<V>>,
                                       head: Counted, list: seq<nat>, list': seq<nat>)
    requires ListOk(ts, heap, head, list) && ListOk(ts', heap', head, list') && 0 !in heap && 0 !in heap'
    requires forall m | m in list && m in heap && m in heap' :: heap'[m].next == heap[m].next
    ensures list == list'
    decreases |list|
  {
    hide Count;
    if list != [] {
      SameList(ts, heap, ts', heap', heap[list[0]].next, list[1..], list'[1..]);
    }
  }

  /** The atomic stack changes only when head does. */
  lemma {:induction false} StackStays<V>(s: State<V>, x: History, turn: (nat, Choice<V>), s': State<V>, x': History)
    requires Inv(s, x) && Inv(s', x') && Turn(s, turn) == Option.Some(s') && s'.head == s.head
    ensures Abs(s', x').stack == Abs(s, x).stack
  {
    assert NodeOk(s, x, 0) && NodeOk(s', x', 0);
    hide NodeOk, Perform;
    forall m | m in x.list && m in s.heap && m in s'.heap
      ensures s'.heap[m].next == s.heap[m].next && s'.heap[m].data == s.heap[m].data
    {
      if turn.0 < |s.threads| {
        LinkedUntouched(s, x, turn.0, turn.1, m);
      }
    }
    SameList(s.threads, s.heap, s'.threads, s'.heap, s.head, x.list, x'.list);
    hide Inv;
    var a, b := Abs(s, x), Abs(s', x');
    assert forall k | 0 <= k < |a.stack| :: a.stack[k] == b.stack[k];
  }

  /** What a pop should return, and leave. */
  function Top<V>(stack: seq<V>): Option<V> { if stack == [] then None else Some(stack[0]) }

  function Rest<V>(stack: seq<V>): seq<V> { if stack == [] then [] else stack[1..] }

  /** The atomic stack since an operation of thread `t` was under way in `a`: not yet changed, or as it should be. */
  ghost predicate UnderWay<V>(a: Atomic<V>, b: Atomic<V>, t: nat)
    requires t < |a.threads|
  {
    && t < |b.threads|
    && match a.threads[t] {
         case Pushing(v) =>
           if b.threads[t] == Pushing(v) then b.stack == a.stack else b.threads[t] == Quiet && b.stack == [v] + a.stack
         case Popping =>
           if b.threads[t] == Popping then b.stack == a.stack
           else (b.threads[t] == Quiet || b.threads[t] == Popped(Top(a.stack))) && b.stack == Rest(a.stack)
         case _ => true
       }
  }

  lemma UnderWayStep<V>(a: Atomic<V>, b: Atomic<V>, b': Atomic<V>, u: nat, t: nat)
    requires t < |a.threads| && UnderWay(a, b, t) && b.threads[t] != Quiet
    requires AtomicStep(b, b', u) && (u != t ==> b'.stack == b.stack)
    ensures UnderWay(a, b', t)
  {
  }

  /** A thread that nobody hinders from state `i` on until it is done: a push has put its value on the stack of then, and
      a pop has taken and returns the first element of it. */
  lemma {:induction false} RightResult<V>(n: nat, states: seq<State<V>>, xs: seq<History>, trace: seq<Atomic<V>>,
                                          schedule: seq<(nat, Choice<V>)>, t: nat, i: nat, j: nat)
    requires Recorded(n, states, xs, trace, schedule) && t < n && i < j
    requires Unhindered(states, schedule, t, i, j) && Busy(states, t, i, j) && states[j].threads[t].Idle?
    ensures t < |trace[i].threads|
    ensures trace[i].threads[t].Pushing? ==> trace[j].stack == [trace[i].threads[t].v] + trace[i].stack
    ensures trace[i].threads[t] == Popping ==>
              states[j - 1].threads[t] == Return(Top(trace[i].stack)) && trace[j].stack == Rest(trace[i].stack)
  {
    hide Inv, Turn, Abs, AtomicStep, Perform;
    AbsShows(states[i], xs[i], t);
    for k := i to j - 1
      invariant UnderWay(trace[i], trace[k], t)
    {
      AbsShows(states[k], xs[k], t);
      UnhinderedStep(n, states, xs, trace, schedule, t, i, j, k);
    }
    AbsShows(states[j - 1], xs[j - 1], t);
    AbsShows(states[j], xs[j], t);
    UnhinderedStep(n, states, xs, trace, schedule, t, i, j, j - 1);
    LastTurn(states[j - 1], xs[j - 1], schedule[j - 1], states[j], t);
    assert AtomicStep(trace[j - 1], trace[j], schedule[j - 1].0);
    LastStep(trace[j - 1], trace[j], schedule[j - 1].0, t);
  }

  lemma {:induction false} UnhinderedStep<V>(n: nat, states: seq<State<V>>, xs: seq<History>, trace: seq<Atomic<V>>,
                                             schedule: seq<(nat, Choice<V>)>, t: nat, i: nat, j: nat, k: nat)
    requires Recorded(n, states, xs, trace, schedule) && t < n && i <= k < j && Unhindered(states, schedule, t, i, j)
    requires t < |trace[i].threads| && UnderWay(trace[i], trace[k], t) && trace[k].threads[t] != Quiet
    ensures UnderWay(trace[i], trace[k + 1], t)
  {
    hide Inv, Turn, Abs, AtomicStep, UnderWay;
    if schedule[k].0 != t {
      StackStays(states[k], xs[k], schedule[k], states[k + 1], xs[k + 1]);
    }
    UnderWayStep(trace[i], trace[k], trace[k + 1], schedule[k].0, t);
  }

  lemma LastTurn<V>(s: State<V>, x: History, turn: (nat, Choice<V>), s': State<V>, t: nat)
    requires Inv(s, x) && Turn(s, turn) == Option.Some(s') && t < |s.threads| && t < |s'.threads|
    requires !s.threads[t].Idle? && s'.threads[t].Idle?
    ensures s.threads[t].Return? || s.threads[t].PushCas?
  {
    hide Inv;
  }

  lemma LastStep<V>(a: Atomic<V>, b: Atomic<V>, u: nat, t: nat)
    requires AtomicStep(a, b, u) && t < |a.threads| && t < |b.threads| && b.threads[t] == Quiet
    ensures a.threads[t] != Popping
  {
  }

  // ---- Pops are not lock-free ----

  /** Thread `a` is about to compare head, which is what thread `b` is about to count itself on. */
  ghost predicate Duel<V>(s: State<V>, a: nat, b: nat) {
    && |s.threads| == 2 && {a, b} == {0, 1}
    && s.head.ptr in s.heap && s.head.ptr != 0 && s.heap[s.head.ptr].internal <= 0
    && s.threads[a] == PopCas(s.head, s.heap[s.head.ptr].next) && s.threads[b] == Inc(s.head)
  }

  /** Thread `b` counts itself, which makes the compare-exchange of `a` fail; `a` leaves and comes back. */
  function Round<V>(a: nat, b: nat, c: Choice<V>): seq<(nat, Choice<V>)> { [(b, c), (b, c), (a, c), (a, c)] }

  lemma {:induction false} DuelRound<V>(s: State<V>, a: nat, b: nat, c: Choice<V>) returns (states: seq<State<V>>)
    requires Duel(s, a, b)
    ensures IsRun(states, Round(a, b, c)) && states[0] == s && Duel(states[4], b, a)
    ensures forall k | 0 <= k <= 4 :: Stuck(states[k])
  {
    var s1 := Perform(s, b, c).value;
    var s2 := Perform(s1, b, c).value;
    var s3 := Perform(s2, a, c).value;
    var s4 := Perform(s3, a, c).value;
    states := [s, s1, s2, s3, s4];
  }

  /** Both pops go on, although there is an element to take. */
  ghost predicate Stuck<V>(s: State<V>) {
    && |s.threads| == 2 && s.head.ptr != 0
    && forall t | 0 <= t < 2 :: s.threads[t].Inc? || s.threads[t].Held? || s.threads[t].PopCas? || s.threads[t].Missed?
  }

  function Rounds<V>(a: nat, b: nat, c: Choice<V>, r: nat): seq<(nat, Choice<V>)>
    decreases r
  {
    if r == 0 then [] else Round(a, b, c) + Rounds(b, a, c, r - 1)
  }

  lemma {:induction false} RunAppend<V>(first: seq<State<V>>, a: seq<(nat, Choice<V>)>, second: seq<State<V>>, b: seq<(nat, Choice<V>)>)
    requires IsRun(first, a) && IsRun(second, b) && second[0] == first[|a|]
    ensures IsRun(first[..|a|] + second, a + b)
  {
    hide Turn;
    var all := first[..|a|] + second;
    forall k | 0 <= k < |a + b|
      ensures Turn(all[k], (a + b)[k]) == Option.Some(all[k + 1])
    {
      if k < |a| {
        assert all[k + 1] == first[k + 1];
      }
    }
  }

  lemma {:induction false} DuelRounds<V>(s: State<V>, a: nat, b: nat, c: Choice<V>, r: nat) returns (states: seq<State<V>>)
    requires Duel(s, a, b)
    ensures IsRun(states, Rounds(a, b, c, r)) && |states| == 4 * r + 1 && states[0] == s
    ensures forall k | 0 <= k < |states| :: Stuck(states[k])
    decreases r
  {
    if r == 0 {
      states := [s];
    } else {
      var first := DuelRound(s, a, b, c);
      hide Duel, Turn, Stuck;
      var rest := DuelRounds(first[4], b, a, c, r - 1);
      RunAppend(first, Round(a, b, c), rest, Rounds(b, a, c, r - 1));
      states := first[..4] + rest;
    }
  }

  /** Thread 0 pushes, and then pops up to its compare-exchange; thread 1 comes to counting itself. */
  function Prologue<V>(c: Choice<V>): seq<(nat, Choice<V>)> {
    var push, pop := (0, c.(push := true)), (0, c.(push := false));
    [push, push, push, push, pop, pop, pop, pop, (1, pop.1), (1, pop.1)]
  }

  lemma {:induction false} PrologueRuns<V>(c: Choice<V>) returns (states: seq<State<V>>)
    requires c.addr != 0 && !c.spurious
    ensures IsRun(states, Prologue(c)) && states[0] == Init<V>(2) && Duel(states[10], 0, 1)
  {
    var heap := map[c.addr := Node(Option.Some(c.v), 0, Counted(0, 0))];
    var one, two := Counted(1, c.addr), Counted(2, c.addr);
    var none := Counted(0, 0);
    states := [
      State(none, map[], [Idle, Idle]), State(none, map[], [PushNew(c.v), Idle]),
      State(none, heap, [PushLoad(c.addr), Idle]), State(none, heap, [PushCas(c.addr), Idle]),
      State(one, heap, [Idle, Idle]), State(one, heap, [PopLoad, Idle]),
      State(one, heap, [Inc(one), Idle]), State(two, heap, [Held(two), Idle]),
      State(two, heap, [PopCas(two, none), Idle]), State(two, heap, [PopCas(two, none), PopLoad]),
      State(two, heap, [PopCas(two, none), Inc(two)])
    ];
    assert Init<V>(2).threads == [Idle, Idle];
    forall k | 0 <= k < 10
      ensures Turn(states[k], Prologue(c)[k]) == Option.Some(states[k + 1])
    {
      var next := Turn(states[k], Prologue(c)[k]);
      assert next.Some? && next.value.threads == states[k + 1].threads && next.value.heap == states[k + 1].heap;
    }
  }

  /** With one element to take, two pops can go on for any number of turns, each counting itself before the other one's
      compare-exchange. */
  lemma {:induction false} PopsForEver<V>(c: Choice<V>, r: nat) returns (states: seq<State<V>>)
    requires c.addr != 0 && !c.spurious
    ensures IsRun(states, Prologue(c) + Rounds(0, 1, c, r)) && states[0] == Init<V>(2)
    ensures |states| == 10 + 4 * r + 1 && forall k | 10 <= k < |states| :: Stuck(states[k])
  {
    var first := PrologueRuns(c);
    hide Duel, Turn, Stuck;
    var rest := DuelRounds(first[10], 0, 1, c, r);
    RunAppend(first, Prologue(c), rest, Rounds(0, 1, c, r));
    states := first[..10] + rest;
    assert states[0] == first[0];
  }
}
