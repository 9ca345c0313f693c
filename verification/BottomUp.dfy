/** bottomup_mergesort (algorithms/sort/mergesort.c): passes that merge neighbouring runs of N nodes. */
module BottomUp {
  import opened MergeSort

  /** Every run of `n` nodes is sorted. */
  ghost predicate Runs(l: seq<Node>, n: nat)
    requires n > 0
    decreases |l|
  {
    if |l| <= n then Sorted(l) else Sorted(l[..n]) && Runs(l[n..], n)
  }

  /** What is left after the first two runs. */
  function Rest(l: seq<Node>, n: nat): seq<Node> { Drop(Drop(l, n), n) }

  /** The first two runs, merged. */
  function Chunk(l: seq<Node>, n: nat): seq<Node> { Merge(Take(l, n), Take(Drop(l, n), n)) }

  function PassOf(l: seq<Node>, n: nat): seq<Node>
    requires n > 0
    decreases |l|
  {
    if l == [] then [] else Chunk(l, n) + PassOf(Rest(l, n), n)
  }

  lemma {:induction false} SortedOne(l: seq<Node>)
    requires |l| <= 1
    ensures Sorted(l)
  {
  }

  lemma {:induction false} RunsOfOne(l: seq<Node>)
    ensures Runs(l, 1)
    decreases |l|
  {
    if |l| > 1 {
      RunsOfOne(l[1..]);
    }
  }

  lemma {:induction false} FirstRuns(l: seq<Node>, n: nat)
    requires n > 0 && Runs(l, n)
    ensures Sorted(Take(l, n)) && Sorted(Take(Drop(l, n), n)) && Runs(Rest(l, n), n)
    ensures l == Take(l, n) + (Take(Drop(l, n), n) + Rest(l, n))
    ensures Rest(l, n) != [] ==> |Take(l, n)| == n && |Take(Drop(l, n), n)| == n
    ensures |Chunk(l, n)| == |Take(l, n)| + |Take(Drop(l, n), n)| == |l| - |Rest(l, n)|
  {
    SortedOne([]);
  }

  /** A pass doubles the runs. */
  lemma {:induction false} PassRuns(l: seq<Node>, n: nat)
    requires n > 0 && Runs(l, n)
    ensures Runs(PassOf(l, n), 2 * n) && |PassOf(l, n)| == |l|
    decreases |l|
  {
    if l != [] {
      FirstRuns(l, n);
      MergeSorted(Take(l, n), Take(Drop(l, n), n));
      PassRuns(Rest(l, n), n);
      var p := PassOf(l, n);
      assert p == Chunk(l, n) + PassOf(Rest(l, n), n);
      if |l| > 2 * n {
        assert p[..2 * n] == Chunk(l, n) && p[2 * n..] == PassOf(Rest(l, n), n);
      } else {
        assert p == Chunk(l, n);
      }
    } else {
      SortedOne([]);
    }
  }

  lemma {:induction false} PassKeeps(l: seq<Node>, n: nat, k: int)
    requires n > 0 && Runs(l, n)
    ensures multiset(PassOf(l, n)) == multiset(l) && WithKey(PassOf(l, n), k) == WithKey(l, k)
    decreases |l|
  {
    if l != [] {
      FirstRuns(l, n);
      var x, y, rest := Take(l, n), Take(Drop(l, n), n), Rest(l, n);
      MergeNodes(x, y);
      MergeStable(x, y, k);
      PassKeeps(rest, n, k);
      KeepsAppend(x, y, rest, Chunk(l, n), PassOf(rest, n), k);
    }
  }

  lemma {:induction false} KeepsAppend(x: seq<Node>, y: seq<Node>, rest: seq<Node>, c: seq<Node>, p: seq<Node>, k: int)
    requires multiset(c) == multiset(x) + multiset(y) && multiset(p) == multiset(rest)
    requires WithKey(c, k) == WithKey(x, k) + WithKey(y, k) && WithKey(p, k) == WithKey(rest, k)
    ensures multiset(c + p) == multiset(x + (y + rest)) && WithKey(c + p, k) == WithKey(x + (y + rest), k)
  {
    hide WithKey;
    WithKeyAppend(c, p, k);
    WithKeyAppend(x, y + rest, k);
    WithKeyAppend(y, rest, k);
    assert (WithKey(x, k) + WithKey(y, k)) + WithKey(rest, k) == WithKey(x, k) + (WithKey(y, k) + WithKey(rest, k));
  }

  lemma {:induction false} PassSameOrder(l: seq<Node>, n: nat)
    requires n > 0 && Runs(l, n)
    ensures SameOrder(PassOf(l, n), l)
  {
    forall k
      ensures multiset(PassOf(l, n)) == multiset(l) && WithKey(PassOf(l, n), k) == WithKey(l, k)
    {
      PassKeeps(l, n, k);
    }
    PassKeeps(l, n, 0);
  }

  // ---- One pass, in place ----

  /** The header node and the nodes done so far: the header alone, or a list that ends in the sentinel. */
  ghost predicate Done(h: seq<Node>, z: Node)
    reads h
  {
    h != [] && z !in h && Distinct(h) && (|h| == 1 || List(h[0], h, z))
  }

  /** Hang a merged chunk behind the nodes done so far. */
  method Append(z: Node, c: Node, m: Node, ghost h: seq<Node>, ghost chunk: seq<Node>)
    requires Done(h, z) && List(m, chunk, z) && Disjoint(h, chunk) && c == h[|h| - 1]
    modifies c
    ensures Done(h + chunk, z) && List(h[0], h + chunk, z)
  {
    c.next := m;
  }

  lemma DisjointPart(x: seq<Node>, rest: seq<Node>, y: seq<Node>)
    requires Disjoint(x, rest) && forall i | 0 <= i < |y| :: y[i] in rest
    ensures Disjoint(x, y)
  {
  }

  /** Two runs from `todo` on, cut off and merged. */
  method MergeTwoRuns(z: Node, todo0: Node, n: nat, ghost l: seq<Node>) returns (a: Node, todo: Node, m: Node)
    requires List(todo0, l, z) && z.next == z && Below(l, z) && n > 0
    modifies l, z
    ensures a == todo0 && z.next == z
    ensures List(m, Chunk(l, n), z) && List(todo, Rest(l, n), z)
  {
    hide Links, Distinct, Below, Disjoint, Take, Drop, Merge;
    var t := todo0;
    a := t;
    ghost var x, rest := Take(l, n), Drop(l, n);
    Halves(l, n, z);
    t := Walk(t, n - 1, z, l, 0);
    var b := Cut(z, t, n, l);
    ghost var y := Take(rest, n);
    t := b;
    Halves(rest, n, z);
    t := Walk(t, n - 1, z, rest, 0);
    todo := Cut(z, t, n, rest);
    DisjointPart(x, rest, y);
    m := MergeLists(z, a, b, x, y);
  }

  lemma ChunkSize(l: seq<Node>, n: nat)
    ensures |Chunk(l, n)| == |l| - |Rest(l, n)|
    ensures l != [] && n > 0 ==> Chunk(l, n) != []
    ensures Rest(l, n) != [] ==> |Chunk(l, n)| == 2 * n
    ensures Rest(l, n) == Drop(l, 2 * n)
  {
  }

  /** A chunk has nodes of the list only. */
  lemma ChunkMembers(l: seq<Node>, n: nat)
    ensures forall i | 0 <= i < |Chunk(l, n)| :: Chunk(l, n)[i] in Take(l, n) || Chunk(l, n)[i] in Take(Drop(l, n), n)
  {
    var x, y, c := Take(l, n), Take(Drop(l, n), n), Chunk(l, n);
    MergeNodes(x, y);
    hide Take, Drop, Merge;
    forall i | 0 <= i < |c|
      ensures c[i] in x || c[i] in y
    {
      assert c[i] in multiset(c);
    }
  }

  lemma ChunkNodes(l: seq<Node>, n: nat, h: seq<Node>, z: Node)
    requires Distinct(l) && Disjoint(h, l) && Below(l, z)
    ensures Disjoint(h, Chunk(l, n)) && Disjoint(h + Chunk(l, n), Rest(l, n)) && Below(Rest(l, n), z)
    ensures forall i | 0 <= i < |Chunk(l, n)| :: Chunk(l, n)[i] in l
    ensures forall i | 0 <= i < |Rest(l, n)| :: Rest(l, n)[i] in l
  {
    var x, rest := Take(l, n), Drop(l, n);
    var y, more := Take(rest, n), Rest(l, n);
    Halves(l, n, z);
    Halves(rest, n, z);
    ChunkMembers(l, n);
    assert more == Drop(rest, n);
    hide Take, Drop, Rest, Merge, Chunk;
    assert forall i | 0 <= i < |Chunk(l, n)| :: Chunk(l, n)[i] in l;
  }

  /** Merge the next two runs and hang them behind the nodes done so far. */
  method MergeNext(z: Node, c0: Node, todo0: Node, n: nat, ghost h: seq<Node>, ghost l: seq<Node>)
    returns (a: Node, todo: Node, c: Node)
    requires Done(h, z) && List(todo0, l, z) && l != [] && Disjoint(h, l) && Below(l, z) && z.next == z && n > 0
    requires c0 == h[|h| - 1]
    modifies c0, l, z
    ensures a == todo0 && z.next == z && List(todo, Rest(l, n), z)
    ensures Done(h + Chunk(l, n), z) && List(h[0], h + Chunk(l, n), z)
    ensures c == At(h + Chunk(l, n), |h| - 1 + 2 * n, z)
  {
    hide Links, Distinct, Below, Chunk, Rest;
    ChunkNodes(l, n, h, z);
    ChunkSize(l, n);
    var m;
    a, todo, m := MergeTwoRuns(z, todo0, n, l);
    Append(z, c0, m, h, Chunk(l, n));
    c := Walk(c0, n + n, z, h + Chunk(l, n), |h| - 1);
  }

  lemma PassNext(h: seq<Node>, rest: seq<Node>, n: nat)
    requires h != [] && rest != [] && n > 0
    ensures (h + Chunk(rest, n))[1..] + PassOf(Rest(rest, n), n) == h[1..] + PassOf(rest, n)
  {
  }

  /** The inner loop: merge the list two runs at a time. `a` ends as the first node of the last two runs. */
  method Pass(z: Node, head: Node, n: nat, ghost l: seq<Node>) returns (a: Node, ghost q: nat)
    requires head != z && head !in l && List(head.next, l, z) && Below(l, z) && z.next == z && n > 0 && l != []
    modifies head, l, z
    ensures List(head.next, PassOf(l, n), z) && z.next == z
    ensures q < |l| && a == l[q] && if |l| <= 2 * n then q == 0 else q >= 2 * n
  {
    hide Links, Distinct, Below, Disjoint, Chunk, Rest, Drop;
    var todo, c := head.next, head;
    ghost var h, rest := [head], l;
    a, q := todo, 0;
    OnlyHeader(head, l, z);
    assert h[1..] + PassOf(rest, n) == PassOf(l, n);
    while todo != z
      invariant Done(h, z) && h[0] == head && List(todo, rest, z) && Below(rest, z) && Disjoint(h, rest) && z.next == z
      invariant rest != [] ==> c == h[|h| - 1]
      invariant |h| > 1 || rest == l
      invariant h[1..] + PassOf(rest, n) == PassOf(l, n)
      invariant (forall i | 0 <= i < |h| :: h[i] == head || h[i] in l) && (forall i | 0 <= i < |rest| :: rest[i] in l)
      invariant |rest| <= |l| && rest == l[|l| - |rest|..] && (rest == [] || |rest| == |l| || |l| - |rest| >= 2 * n)
      invariant q < |l| && a == l[q] && (rest == [] ==> if |l| <= 2 * n then q == 0 else q >= 2 * n)
      decreases |rest|
    {
      ChunkNodes(rest, n, h, z);
      ChunkSize(rest, n);
      PassNext(h, rest, n);
      q := |l| - |rest|;
      a, todo, c := MergeNext(z, c, todo, n, h, rest);
      Suffix(l, rest, n);
      h, rest := h + Chunk(rest, n), Rest(rest, n);
    }
    assert h[1..] + [] == h[1..];
    BehindHeader(h, z);
  }

  lemma Suffix(l: seq<Node>, rest: seq<Node>, n: nat)
    requires |rest| <= |l| && rest == l[|l| - |rest|..]
    ensures |Rest(rest, n)| <= |l| && Rest(rest, n) == l[|l| - |Rest(rest, n)|..]
    ensures if 2 * n < |rest| then |Rest(rest, n)| == |rest| - 2 * n else Rest(rest, n) == []
  {
  }

  lemma OnlyHeader(head: Node, l: seq<Node>, z: Node)
    requires head != z && head !in l
    ensures Done([head], z) && Disjoint([head], l)
  {
  }

  lemma BehindHeader(h: seq<Node>, z: Node)
    requires |h| > 1 && List(h[0], h, z)
    ensures List(h[0].next, h[1..], z)
  {
  }

  // ---- All passes ----

  /** After a pass, its first node is one of the first two runs; with one run and no other, nothing moved. */
  lemma FirstOfPass(l: seq<Node>, n: nat)
    requires l != [] && n > 0
    ensures PassOf(l, n) != [] && exists j | 0 <= j < |l| && j < 2 * n :: PassOf(l, n)[0] == l[j]
    ensures |l| <= n ==> PassOf(l, n)[0] == l[0]
  {
  }

  /** The exit test: when the last `a` is the first node, the last pass merged everything, and it does fire. */
  lemma {:induction false} ExitTest(l: seq<Node>, n: nat, q: nat)
    requires l != [] && n > 0 && Runs(l, n) && Distinct(l) && q < |l| && (if |l| <= 2 * n then q == 0 else q >= 2 * n)
    ensures l[q] == PassOf(l, n)[0] ==> Sorted(PassOf(l, n))
    ensures l[q] != PassOf(l, n)[0] ==> |l| > n
  {
    FirstOfPass(l, n);
    PassRuns(l, n);
    hide PassOf;
  }

  lemma SameOrderTrans(a: seq<Node>, b: seq<Node>, c: seq<Node>)
    requires SameOrder(a, b) && SameOrder(b, c)
    ensures SameOrder(a, c)
  {
  }

  /** bottomup_mergesort */
  method Sort(z: Node, c: Node, ghost l0: seq<Node>) returns (r: Node, ghost out: seq<Node>)
    requires List(c, l0, z) && z.next == z && Below(l0, z)
    modifies l0, z
    ensures List(r, out, z) && z.next == z && StableSortOf(out, l0)
  {
    hide Links, PassOf, Runs, Sorted, SameOrder, Below;
    var head := new Node(0);
    head.next := c;
    var a := z;
    var n := 1;
    ghost var l := l0;
    ghost var m := |l0|;
    RunsOfOne(l);
    SortedOne([]);
    assert SameOrder(l, l0) by { SameOrderSelf(l); }
    while a != head.next
      invariant List(head.next, l, z) && z.next == z && Below(l, z) && |l| == m && SameOrder(l, l0)
      invariant head != z && head !in l && n >= 1 && Runs(l, n)
      invariant forall i | 0 <= i < |l| :: l[i] in l0
      invariant a == head.next ==> Sorted(l)
      invariant a != head.next ==> l != [] && n <= 2 * m
      decreases 2 * m - n
    {
      ghost var q;
      ghost var l1 := PassOf(l, n);
      a, q := Pass(z, head, n, l);
      ExitTest(l, n, q);
      PassRuns(l, n);
      PassSameOrder(l, n);
      SameOrderMembers(l1, l, z);
      SameOrderTrans(l1, l, l0);
      l := l1;
      n := n + n;
    }
    r, out := head.next, l;
  }

  lemma SameOrderMembers(x: seq<Node>, l: seq<Node>, z: Node)
    requires SameOrder(x, l) && Below(l, z)
    ensures Below(x, z) && forall i | 0 <= i < |x| :: x[i] in l
  {
    forall i | 0 <= i < |x|
      ensures x[i] in l
    {
      assert x[i] in multiset(x);
    }
  }

  lemma SameOrderSelf(l: seq<Node>)
    ensures SameOrder(l, l)
  {
  }
}
