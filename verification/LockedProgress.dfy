/** Why nodes come and go, where walks end, and that they do (concurrent/chapter6/threadsafe_list.cpp). */
module LockedProgress {
  import opened LockedList
  import opened LockedWalks
  import opened Options

  // ---- Why a node is linked, and why it is not any more ----

  /** A removal is about to take out `m`, whose data matches its predicate. */
  predicate Removes<V>(s: State<V>, u: nat, m: nat)
    requires u < |s.threads|
  {
    var pc := s.threads[u];
    && pc.Both? && pc.op.RemoveIf? && pc.next == m
    && m in s.heap && s.heap[m].data.Some? && pc.op.p(s.heap[m].data.value)
  }

  lemma {:induction false} LeavesList<V>(s: State<V>, x: History, t: nat, c: Choice<V>, s': State<V>, x': History, m: nat)
    requires Step(s, x, t, c, s', x') && m in x.list && m !in x'.list
    ensures Removes(s, t, m)
  {
    hide ListOk, Owned, Perform, ThreadOk;
    ListDistinct(s, x);
    HeadFirst(s, x);
    var pc := s.threads[t];
    if pc.PushLink? {
      Membership(x.list, pc.node);
    } else if x'.list != x.list {
      var i :| 0 <= i < |x.list| && x.list[i] == pc.next && x'.list == Without(x.list, i);
      WithoutMembers(x.list, i);
    }
  }

  lemma {:induction false} JoinsList<V>(s: State<V>, x: History, t: nat, c: Choice<V>, s': State<V>, x': History, m: nat)
    requires Step(s, x, t, c, s', x') && m !in x.list && m in x'.list
    ensures s.threads[t] == PushLink(m) && HEAD in s'.heap && s'.heap[HEAD].next == Option.Some(m)
  {
    hide ListOk, Owned, Inv;
    ListGrows(s, x, t);
  }

  /** A node that is linked at one point of a run and not at a later one was taken out in between by a removal whose
      predicate holds of its data. */
  lemma {:induction false} WhyRemoved<V>(n: nat, states: seq<State<V>>, schedule: seq<(nat, Choice<V>)>, m: nat, i: nat, j: nat)
    returns (k: nat)
    requires IsRun(states, schedule) && states[0] == Init<V>(n) && i <= j < |states|
    requires Linked(states[i], m) && !Linked(states[j], m)
    ensures i <= k < j && schedule[k].0 < |states[k].threads| && Removes(states[k], schedule[k].0, m)
    ensures Linked(states[k], m) && !Linked(states[k + 1], m)
  {
    hide Inv, Swept, Turn, Step, Linked;
    var xs := Histories(n, states, schedule);
    LinkedInList(states[i], xs[i]);
    k := i;
    LinkedInList(states[j], xs[j]);
    while m in xs[k + 1].list
      invariant i <= k < j && m in xs[k].list
      decreases j - k
    {
      k := k + 1;
    }
    LinkedInList(states[k], xs[k]);
    LinkedInList(states[k + 1], xs[k + 1]);
    assert Follows(states[k], xs[k], schedule[k], states[k + 1], xs[k + 1]);
    LeavesList(states[k], xs[k], schedule[k].0, schedule[k].1, states[k + 1], xs[k + 1], m);
  }

  /** A node that is not linked at one point of a run and linked at a later one was put behind the head by its push. */
  lemma {:induction false} WhyLinked<V>(n: nat, states: seq<State<V>>, schedule: seq<(nat, Choice<V>)>, m: nat, i: nat, j: nat)
    returns (k: nat)
    requires IsRun(states, schedule) && states[0] == Init<V>(n) && i <= j < |states|
    requires !Linked(states[i], m) && Linked(states[j], m)
    ensures i <= k < j && schedule[k].0 < |states[k].threads| && states[k].threads[schedule[k].0] == PushLink(m)
    ensures HEAD in states[k + 1].heap && states[k + 1].heap[HEAD].next == Option.Some(m)
  {
    hide Inv, Swept, Turn, Step, Linked;
    var xs := Histories(n, states, schedule);
    LinkedInList(states[i], xs[i]);
    LinkedInList(states[j], xs[j]);
    k := i;
    while m !in xs[k + 1].list
      invariant i <= k < j && m !in xs[k].list
      decreases j - k
    {
      k := k + 1;
    }
    assert Follows(states[k], xs[k], schedule[k], states[k + 1], xs[k + 1]);
    JoinsList(states[k], xs[k], schedule[k].0, schedule[k].1, states[k + 1], xs[k + 1], m);
  }

  // ---- Where walks end ----

  /** A walk ends at the end of the list, or is a search that has found what it looked for. */
  lemma WalkEnds<V>(s: State<V>, x: History, turn: (nat, Choice<V>), s': State<V>, x': History, t: nat)
    requires Follows(s, x, turn, s', x') && t < |s.threads| && t < |s'.threads|
    requires Walking(s.threads[t]) && !Walking(s'.threads[t])
    ensures var pc := s.threads[t];
      && turn.0 == t && pc.cur in s.heap
      && ((pc.At? && s.heap[pc.cur].next == None)
          || (pc.Visit? && pc.op.FindFirstIf? && s.heap[pc.cur].data.Some? && pc.op.p(s.heap[pc.cur].data.value)))
  {
    hide ListOk, Owned, Later, Inv;
    Others(s, x, turn, s', x', t);
  }

  /** A walk over a run ends at the end of the list, or, if it is a search, at the first node that matches among those
      linked since it began. */
  lemma {:induction false} FindsFirst<V>(n: nat, states: seq<State<V>>, schedule: seq<(nat, Choice<V>)>, t: nat, i: nat, j: nat)
    requires IsRun(states, schedule) && states[0] == Init<V>(n)
    requires i < j < |schedule| && WalksOn(states, t, i + 1, j) && t < |states[i].threads| && !Walking(states[i].threads[t])
    requires t < |states[j + 1].threads| && !Walking(states[j + 1].threads[t])
    ensures var s, pc := states[j], states[j].threads[t];
      && pc.cur in s.heap
      && if pc.At? then s.heap[pc.cur].next == None
         else
           && pc.Visit? && pc.op.FindFirstIf? && s.heap[pc.cur].data.Some? && pc.op.p(s.heap[pc.cur].data.value)
           && forall m | m != HEAD && Linked(states[i], m) && Precedes(s, m, pc.cur) ::
                m in s.heap && s.heap[m].data.Some? && !pc.op.p(s.heap[m].data.value)
  {
    hide Inv, Swept, Turn, Step, Linked, Precedes;
    var xs := Histories(n, states, schedule);
    var s, x := states[j], xs[j];
    assert Follows(s, x, schedule[j], states[j + 1], xs[j + 1]);
    WalkEnds(s, x, schedule[j], states[j + 1], xs[j + 1], t);
    var pc := s.threads[t];
    if pc.Visit? {
      LinkedInList(states[i], xs[i]);
      LinkedInList(s, x);
      WalkRecorded(n, states, schedule, xs, t, i, j);
      forall m | m != HEAD && Linked(states[i], m) && Precedes(s, m, pc.cur)
        ensures m in s.heap && s.heap[m].data.Some? && !pc.op.p(s.heap[m].data.value)
      {
        PassedBefore(s, x, t, m);
      }
    }
  }

  lemma {:induction false} PassedBefore<V>(s: State<V>, x: History, t: nat, m: nat)
    requires Inv(s, x) && Swept(s, x) && t < |s.threads| && Walking(s.threads[t])
    requires m in x.walks[t].since && m != HEAD && Before(x.list, m, s.threads[t].cur)
    ensures m in s.heap && s.heap[m].data.Some? && Passes(s.threads[t].op, s.heap[m].data.value)
  {
    DataThere(s, x, m);
  }

  // ---- No node is handed over twice ----

  /** `m` has been used and is neither linked nor about to be. */
  ghost predicate Gone<V>(s: State<V>, x: History, m: nat) {
    && m < s.unused && m !in x.list
    && forall u | 0 <= u < |s.threads| && Pushing(s.threads[u]) :: s.threads[u].node != m
  }

  lemma {:induction false} GoneStays<V>(s: State<V>, x: History, turn: (nat, Choice<V>), s': State<V>, x': History, m: nat)
    requires Follows(s, x, turn, s', x') && Gone(s, x, m)
    ensures Gone(s', x', m)
  {
    hide Inv, Perform, Later;
    if turn.0 < |s.threads| {
      var (t, c) := turn;
      ListGrows(s, x, t);
      DataKept(s, x, t, c, s', x');
      forall v | 0 <= v < |s'.threads| && Pushing(s'.threads[v])
        ensures s'.threads[v].node != m
      {
        PusherOf(s, x, t, c, s', x', v);
      }
    }
  }

  lemma {:induction false} RemovedIsGone<V>(s: State<V>, x: History, t: nat, c: Choice<V>, s': State<V>, x': History, m: nat)
    requires Step(s, x, t, c, s', x') && m in x.list && m !in x'.list
    ensures Gone(s', x', m)
  {
    hide ListOk, Perform, Later, Owned;
    ListInHeap(s, x);
    DataKept(s, x, t, c, s', x');
    forall v | 0 <= v < |s'.threads| && Pushing(s'.threads[v])
      ensures s'.threads[v].node != m
    {
      PusherOf(s, x, t, c, s', x', v);
      ThreadIsOk(s, x, v);
    }
  }

  /** At the step at which a walk hands over `m`, it has not done so before; after it, `m` is recorded or removed. */
  lemma {:induction false} HandsNew<V>(s: State<V>, x: History, t: nat, c: Choice<V>, s': State<V>, x': History, m: nat)
    requires Step(s, x, t, c, s', x') && Swept(s, x) && Hands(s.threads[t], m)
    ensures m in x.list && m !in x.walks[t].seen
    ensures m !in x'.list || !Walking(s'.threads[t]) || (t < |x'.walks| && m in x'.walks[t].seen)
  {
    hide ListOk, Owned, Before;
    ThreadIsOk(s, x, t);
    ListDistinct(s, x);
    HandedAhead(s, x, t, m);
    if s.threads[t].Both? {
      HandedMember(s, x, t, m);
    }
  }

  lemma HandedMember<V>(s: State<V>, x: History, t: nat, m: nat)
    requires Inv(s, x) && t < |s.threads| && s.threads[t].Both? && Hands(s.threads[t], m)
    ensures m in x.list && m != s.threads[t].cur && forall i | 0 <= i < |x.list| && x.list[i] == m :: m !in Without(x.list, i)
  {
    hide Owned, ListOk;
    ThreadIsOk(s, x, t);
    var i := SuccessorLinked(s, x, s.threads[t].cur, m);
    ListDistinct(s, x);
    WithoutMembers(x.list, i + 1);
    OnePlace(s, x, i + 1);
  }

  /** What is handed over is not behind the walk. */
  lemma {:induction false} HandedAhead<V>(s: State<V>, x: History, t: nat, m: nat)
    requires Inv(s, x) && t < |s.threads| && Hands(s.threads[t], m)
    ensures m in x.list && !Behind(x.list, m, s.threads[t])
  {
    hide Owned, ListOk;
    ThreadIsOk(s, x, t);
    ListDistinct(s, x);
    var pc := s.threads[t];
    if pc.Both? {
      var i := SuccessorLinked(s, x, pc.cur, m);
      OnePlace(s, x, i);
      OnePlace(s, x, i + 1);
    } else {
      NotBeforeItself(x.list, m);
    }
  }

  /** In one walk, the function or the predicate gets no node twice. */
  lemma {:induction false} HandedOnce<V>(n: nat, states: seq<State<V>>, schedule: seq<(nat, Choice<V>)>, t: nat, i: nat, j: nat, m: nat)
    requires IsRun(states, schedule) && states[0] == Init<V>(n)
    requires i < j < |schedule| && WalksOn(states, t, i, j) && schedule[i].0 == t == schedule[j].0
    requires Hands(states[i].threads[t], m)
    ensures !Hands(states[j].threads[t], m)
  {
    hide Inv, SweptBy, PassedBy, Turn, Later, Perform, Hands;
    var xs := Histories(n, states, schedule);
    assert Follows(states[i], xs[i], schedule[i], states[i + 1], xs[i + 1]);
    HandsNew(states[i], xs[i], t, schedule[i].1, states[i + 1], xs[i + 1], m);
    if m !in xs[i + 1].list {
      RemovedIsGone(states[i], xs[i], t, schedule[i].1, states[i + 1], xs[i + 1], m);
    }
    for k := i + 1 to j
      invariant t < |xs[k].walks| && (Gone(states[k], xs[k], m) || m in xs[k].walks[t].seen)
    {
      assert Follows(states[k], xs[k], schedule[k], states[k + 1], xs[k + 1]);
      if Gone(states[k], xs[k], m) {
        GoneStays(states[k], xs[k], schedule[k], states[k + 1], xs[k + 1], m);
      } else if schedule[k].0 < n {
        WalkOf(states[k], xs[k], schedule[k].0, schedule[k].1, states[k + 1], xs[k + 1], t);
      }
    }
    assert Follows(states[j], xs[j], schedule[j], states[j + 1], xs[j + 1]);
    if Hands(states[j].threads[t], m) {
      HandsNew(states[j], xs[j], t, schedule[j].1, states[j + 1], xs[j + 1], m);
    }
  }

  // ---- Every operation ends ----

  /** The nodes after `n`. */
  function Ahead(list: seq<nat>, n: nat): nat {
    if list == [] || list[0] == n then |list| else Ahead(list[1..], n)
  }

  lemma {:induction false} AheadAt(list: seq<nat>, i: nat)
    requires i < |list| && forall j, k | 0 <= j < k < |list| :: list[j] != list[k]
    ensures Ahead(list, list[i]) == |list| - i
  {
    if i > 0 {
      AheadAt(list[1..], i - 1);
    }
  }

  /** The turns that a thread needs once it holds its first mutex or pushes, not counting those in which it waits. */
  function TurnsLeft<V>(list: seq<nat>, pc: PC<V>): nat {
    match pc
    case PushNew(_) => 4
    case PushLock(_) => 3
    case PushLink(_) => 2
    case PushUnlock => 1
    case At(_, cur) => 5 * Ahead(list, cur) + 3
    case Want(_, cur, _) => 5 * Ahead(list, cur) + 2
    case Both(_, cur, _) => 5 * Ahead(list, cur) + 1
    case Visit(_, cur) => 5 * Ahead(list, cur) + 4
    case Removed(_, cur, _) => 5 * Ahead(list, cur) + 5
    case Freeing(_, cur, _) => 5 * Ahead(list, cur) + 4
    case _ => 0
  }

  predicate UnderWay<V>(pc: PC<V>) { !pc.Idle? && !pc.Start? }

  lemma {:induction false} AheadPushed(list: seq<nat>, n: nat, m: nat)
    requires list != [] && list[0] == HEAD && m != HEAD && m != n
    ensures Ahead([HEAD, n] + list[1..], m) == Ahead(list, m)
  {
    var l := [HEAD, n] + list[1..];
    assert l[1..] == [n] + list[1..] && l[1..][1..] == list[1..];
  }

  lemma {:induction false} AheadWithout(list: seq<nat>, r: nat, m: nat)
    requires r < |list| && m != list[r]
    ensures Ahead(Without(list, r), m) <= Ahead(list, m)
  {
    if r == 0 {
      assert Without(list, 0) == list[1..];
    } else if list[0] != m {
      assert Without(list, r)[1..] == Without(list[1..], r - 1);
      AheadWithout(list[1..], r - 1, m);
    }
  }

  lemma {:induction false} AheadOfNext(list: seq<nat>, i: nat)
    requires i + 1 < |list| && forall j, k | 0 <= j < k < |list| :: list[j] != list[k]
    ensures Ahead(list, list[i + 1]) + 1 == Ahead(list, list[i]) && Ahead(Without(list, i + 1), list[i]) + 1 == Ahead(list, list[i])
  {
    AheadAt(list, i);
    AheadAt(list, i + 1);
    var l := Without(list, i + 1);
    assert forall k | 0 <= k < |l| :: l[k] == if k <= i then list[k] else list[k + 1];
    AheadAt(l, i);
  }

  lemma {:induction false} OwnTurn<V>(s: State<V>, x: History, t: nat, c: Choice<V>, s': State<V>, x': History)
    requires Step(s, x, t, c, s', x') && UnderWay(s.threads[t]) && !Blocked(s, t)
    ensures TurnsLeft(x'.list, s'.threads[t]) < TurnsLeft(x.list, s.threads[t])
  {
    hide ListOk, Owned, Inv, Without, Ahead;
    ThreadIsOk(s, x, t);
    var pc := s.threads[t];
    if pc.Both? {
      var i := SuccessorLinked(s, x, pc.cur, pc.next);
      ListDistinct(s, x);
      AheadOfNext(x.list, i);
      TakenOut(s, x, t, i);
    }
  }

  /** Where a removal takes a node out. */
  lemma {:induction false} TakenOut<V>(s: State<V>, x: History, t: nat, i: nat)
    requires Inv(s, x) && t < |s.threads| && |x.walks| == |s.threads|
    requires s.threads[t].Both? && i + 1 < |x.list| && x.list[i + 1] == s.threads[t].next
    ensures Later(s, x, t).list == if Removes(s, t, s.threads[t].next) then Without(x.list, i + 1) else x.list
  {
    hide ListOk, Owned, ThreadOk, Without;
    OnePlace(s, x, i + 1);
  }

  lemma {:induction false} OthersTurn<V>(s: State<V>, x: History, u: nat, c: Choice<V>, s': State<V>, x': History, t: nat)
    requires Step(s, x, u, c, s', x') && t < |s.threads| && t != u && UnderWay(s.threads[t])
    ensures s'.threads[t] == s.threads[t] && TurnsLeft(x'.list, s.threads[t]) <= TurnsLeft(x.list, s.threads[t])
  {
    hide Inv, Later, Without, Ahead;
    AfterStep(s, x, u, c, s', x');
    if Walking(s.threads[t]) && x'.list != x.list {
      var cur := s.threads[t].cur;
      ThreadIsOk(s, x, u);
      CurLinked(s, x, t);
      HeadFirst(s, x);
      var i := ListAfter(s, x, u);
      if s.threads[u].PushLink? {
        Exclusive(s, x, u, t, HEAD);
        assert cur in Held(s.threads[t]);
        AheadPushed(x.list, s.threads[u].node, cur);
      } else {
        KeptByWalk(s, x, u, c, s', x', t);
        ListDistinct(s, x);
        WithoutMembers(x.list, i);
        AheadWithout(x.list, i, cur);
      }
    }
  }

  /** Nobody takes out the node at which a walk stands. */
  lemma KeptByWalk<V>(s: State<V>, x: History, u: nat, c: Choice<V>, s': State<V>, x': History, t: nat)
    requires Step(s, x, u, c, s', x') && t < |s.threads| && t < |s'.threads| && t != u && Walking(s.threads[t])
    ensures s.threads[t].cur in x'.list
  {
    hide Inv, Later, ListOk;
    AfterStep(s, x, u, c, s', x');
    CurLinked(s', x', t);
  }

  /** The turns of `t` between states `i` and `j` in which it does not wait for a mutex. */
  ghost function Turns<V>(states: seq<State<V>>, schedule: seq<(nat, Choice<V>)>, t: nat, i: nat, j: nat): nat
    requires i <= j <= |schedule| && j <= |states|
    requires forall k | i <= k < j :: t < |states[k].threads|
  {
    if i == j then 0
    else Turns(states, schedule, t, i, j - 1) + if schedule[j - 1].0 == t && !Blocked(states[j - 1], t) then 1 else 0
  }

  /** From its first mutex on, a walk makes at most five turns a node that was linked then, whatever is pushed and removed
      meanwhile, and a push makes four. */
  lemma {:induction false} OperationsEnd<V>(n: nat, states: seq<State<V>>, schedule: seq<(nat, Choice<V>)>, t: nat, i: nat, j: nat,
                                            list: seq<nat>)
    requires IsRun(states, schedule) && states[0] == Init<V>(n) && t < n && i <= j < |states|
    requires forall k | i <= k <= j :: t < |states[k].threads| && UnderWay(states[k].threads[t])
    requires ListOk(states[i].heap, list)
    ensures Turns(states, schedule, t, i, j) < (if Walking(states[i].threads[t]) then 5 * |list| + 5 else 5)
  {
    hide Inv, Swept, Turn, Step, ListOk, Blocked, TurnsLeft;
    var xs := Histories(n, states, schedule);
    InvList(states[i], xs[i]);
    OneList(states[i].heap, list, xs[i].list);
    for k := i to j
      invariant Turns(states, schedule, t, i, k) + TurnsLeft(xs[k].list, states[k].threads[t]) <= TurnsLeft(list, states[i].threads[t])
    {
      var (u, c) := schedule[k];
      assert Follows(states[k], xs[k], schedule[k], states[k + 1], xs[k + 1]);
      if u == t {
        if Blocked(states[k], t) {
          WaitsOn(states[k], xs[k], t, c, states[k + 1], xs[k + 1]);
        } else {
          OwnTurn(states[k], xs[k], t, c, states[k + 1], xs[k + 1]);
        }
      } else if u < n {
        OthersTurn(states[k], xs[k], u, c, states[k + 1], xs[k + 1], t);
      }
    }
    SomeTurnsLeft(xs[j].list, states[j].threads[t]);
    FewTurnsLeft(list, states[i].threads[t]);
  }

  lemma InvList<V>(s: State<V>, x: History)
    requires Inv(s, x)
    ensures ListOk(s.heap, x.list)
  {
  }

  lemma WaitsOn<V>(s: State<V>, x: History, t: nat, c: Choice<V>, s': State<V>, x': History)
    requires Step(s, x, t, c, s', x') && Blocked(s, t)
    ensures s' == s && x'.list == x.list
  {
    hide ListOk, Owned;
    ThreadIsOk(s, x, t);
  }

  lemma SomeTurnsLeft<V>(list: seq<nat>, pc: PC<V>)
    requires UnderWay(pc)
    ensures TurnsLeft(list, pc) >= 1
  {
  }

  lemma {:induction false} FewTurnsLeft<V>(list: seq<nat>, pc: PC<V>)
    ensures TurnsLeft(list, pc) <= if Walking(pc) then 5 * |list| + 5 else 4
  {
    if Walking(pc) {
      AheadBound(list, pc.cur);
    }
  }

  lemma {:induction false} AheadBound(list: seq<nat>, n: nat)
    ensures Ahead(list, n) <= |list|
  {
    if list != [] && list[0] != n {
      AheadBound(list[1..], n);
    }
  }
}
