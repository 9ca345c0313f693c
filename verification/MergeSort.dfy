/** Merge sort on linked lists that end in a sentinel pointing to itself (algorithms/sort/mergesort.c). */
module MergeSort {

  class Node {
    const key: int
    var next: Node

    constructor (key: int)
      ensures this.key == key && next == this
    {
      this.key := key;
      next := this;
    }
  }

  ghost predicate Distinct(l: seq<Node>) {
    forall i, j | 0 <= i < j < |l| :: l[i] != l[j]
  }

  function At(l: seq<Node>, i: nat, z: Node): Node {
    if i < |l| then l[i] else z
  }

  ghost predicate Links(l: seq<Node>, z: Node)
    reads l
  {
    forall i | 0 <= i < |l| :: l[i].next == At(l, i + 1, z)
  }

  /** From `p`, the next pointers run through `l` and end in the sentinel. */
  ghost predicate List(p: Node, l: seq<Node>, z: Node)
    reads l
  {
    z !in l && Distinct(l) && p == At(l, 0, z) && Links(l, z)
  }

  ghost predicate Disjoint(l: seq<Node>, m: seq<Node>) {
    forall i, j | 0 <= i < |l| && 0 <= j < |m| :: l[i] != m[j]
  }

  /** Every key is strictly below the sentinel's. */
  ghost predicate Below(l: seq<Node>, z: Node) {
    forall i | 0 <= i < |l| :: l[i].key < z.key
  }

  // ---- What sorting means ----

  ghost predicate Sorted(l: seq<Node>) {
    forall i, j | 0 <= i < j < |l| :: l[i].key <= l[j].key
  }

  /** The nodes with a given key, in their order. */
  ghost function WithKey(l: seq<Node>, k: int): seq<Node> {
    if l == [] then [] else (if l[0].key == k then [l[0]] else []) + WithKey(l[1..], k)
  }

  /** The same nodes, those with equal keys in the same order. */
  ghost predicate SameOrder(l: seq<Node>, m: seq<Node>) {
    multiset(l) == multiset(m) && forall k :: WithKey(l, k) == WithKey(m, k)
  }

  ghost predicate StableSortOf(r: seq<Node>, l: seq<Node>) {
    Sorted(r) && SameOrder(r, l)
  }

  /** Taking the smaller front, the left one when they are equal. */
  function Merge(x: seq<Node>, y: seq<Node>): (r: seq<Node>)
    ensures |r| == |x| + |y|
  {
    if x == [] then y
    else if y == [] then x
    else if x[0].key <= y[0].key then [x[0]] + Merge(x[1..], y)
    else [y[0]] + Merge(x, y[1..])
  }

  lemma {:induction false} MergeNodes(x: seq<Node>, y: seq<Node>)
    ensures multiset(Merge(x, y)) == multiset(x) + multiset(y)
  {
    if x != [] && y != [] {
      assert x == [x[0]] + x[1..] && y == [y[0]] + y[1..];
      if x[0].key <= y[0].key {
        MergeNodes(x[1..], y);
      } else {
        MergeNodes(x, y[1..]);
      }
    }
  }

  lemma WithKeyFront(l: seq<Node>, k: int)
    requires l != []
    ensures WithKey(l, k) == (if l[0].key == k then [l[0]] else []) + WithKey(l[1..], k)
  {
  }

  lemma {:induction false} WithKeyAppend(l: seq<Node>, m: seq<Node>, k: int)
    ensures WithKey(l + m, k) == WithKey(l, k) + WithKey(m, k)
  {
    if l == [] {
      assert l + m == m;
    } else {
      WithKeyAppend(l[1..], m, k);
      var n := l + m;
      assert n[0] == l[0] && n[1..] == l[1..] + m;
      WithKeyFront(l, k);
      WithKeyFront(n, k);
      hide WithKey;
      var first := if l[0].key == k then [l[0]] else [];
      assert first + (WithKey(l[1..], k) + WithKey(m, k)) == (first + WithKey(l[1..], k)) + WithKey(m, k);
    }
  }

  /** In a sorted list no key is below the first. */
  lemma {:induction false} NoneBelow(l: seq<Node>, k: int)
    requires Sorted(l) && (l == [] || k < l[0].key)
    ensures WithKey(l, k) == []
  {
    if l != [] {
      assert forall i | 0 <= i < |l[1..]| :: l[1..][i] == l[i + 1];
      NoneBelow(l[1..], k);
    }
  }

  lemma {:induction false} MergeStable(x: seq<Node>, y: seq<Node>, k: int)
    requires Sorted(x) && Sorted(y)
    ensures WithKey(Merge(x, y), k) == WithKey(x, k) + WithKey(y, k)
  {
    if x != [] && y != [] {
      SortedTail(x);
      SortedTail(y);
      var m := Merge(x, y);
      WithKeyFront(m, k);
      if x[0].key <= y[0].key {
        MergeStable(x[1..], y, k);
        assert m[0] == x[0] && m[1..] == Merge(x[1..], y);
        WithKeyFront(x, k);
        hide *;
        var first := if x[0].key == k then [x[0]] else [];
        assert first + (WithKey(x[1..], k) + WithKey(y, k)) == (first + WithKey(x[1..], k)) + WithKey(y, k);
      } else {
        MergeStable(x, y[1..], k);
        assert m[0] == y[0] && m[1..] == Merge(x, y[1..]);
        WithKeyFront(y, k);
        if y[0].key == k {
          NoneBelow(x, k);
        }
        hide *;
        assert [] + WithKey(y, k) == WithKey(y, k) && [] + WithKey(y[1..], k) == WithKey(y[1..], k);
        assert [] + WithKey(m[1..], k) == WithKey(m[1..], k);
      }
    }
  }

  lemma SortedTail(x: seq<Node>)
    requires Sorted(x) && x != []
    ensures Sorted(x[1..])
  {
  }

  lemma SortedCons(n: Node, l: seq<Node>)
    requires Sorted(l) && (l == [] || n.key <= l[0].key)
    ensures Sorted([n] + l)
  {
  }

  lemma {:induction false} MergeSorted(x: seq<Node>, y: seq<Node>)
    requires Sorted(x) && Sorted(y)
    ensures Sorted(Merge(x, y))
  {
    if x != [] && y != [] {
      SortedTail(x);
      SortedTail(y);
      if x[0].key <= y[0].key {
        MergeSorted(x[1..], y);
        SortedCons(x[0], Merge(x[1..], y));
      } else {
        MergeSorted(x, y[1..]);
        SortedCons(y[0], Merge(x, y[1..]));
      }
    }
  }

  lemma FirstWithKey(l: seq<Node>)
    requires l != []
    ensures WithKey(l, l[0].key) != [] && WithKey(l, l[0].key)[0] == l[0]
  {
  }

  lemma {:induction false} TailsAgree(r: seq<Node>, s: seq<Node>, h: int)
    requires r != [] && s != [] && r[0] == s[0] && WithKey(r, h) == WithKey(s, h)
    ensures WithKey(r[1..], h) == WithKey(s[1..], h)
  {
    var u, v := WithKey(r[1..], h), WithKey(s[1..], h);
    assert WithKey(r, h) == (if r[0].key == h then [r[0]] else []) + u;
    assert WithKey(s, h) == (if r[0].key == h then [r[0]] else []) + v;
    if r[0].key == h {
      assert ([r[0]] + u)[1..] == u && ([r[0]] + v)[1..] == v;
    } else {
      assert [] + u == u && [] + v == v;
    }
  }

  /** A list has one stable sort. */
  lemma {:induction false} OneStableSort(r: seq<Node>, s: seq<Node>)
    requires Sorted(r) && Sorted(s) && SameOrder(r, s)
    ensures r == s
  {
    if r == [] {
      assert |s| == |multiset(s)| == 0;
    } else {
      assert r[0] in multiset(s) && r[0] in s;
      assert s[0] in multiset(r) && s[0] in r;
      var k := r[0].key;
      assert s[0].key == k;
      FirstWithKey(r);
      FirstWithKey(s);
      forall h
        ensures WithKey(r[1..], h) == WithKey(s[1..], h)
      {
        assert WithKey(r, h) == WithKey(s, h);
        TailsAgree(r, s, h);
      }
      assert r == [r[0]] + r[1..] && s == [s[0]] + s[1..];
      assert multiset(r[1..]) == multiset(r) - multiset{r[0]};
      assert multiset(s[1..]) == multiset(s) - multiset{r[0]};
      SortedTail(r);
      SortedTail(s);
      OneStableSort(r[1..], s[1..]);
    }
  }

  // ---- The code ----

  lemma MergeStep(d: seq<Node>, u: seq<Node>, v: seq<Node>, z: Node)
    requires Below(u, z) && Below(v, z)
    ensures var a, b := At(u, 0, z), At(v, 0, z);
      if u == [] && v == [] then a.key <= b.key && Merge(u, v) == []
      else if a.key <= b.key then u != [] && d + Merge(u, v) == (d + [a]) + Merge(u[1..], v)
      else v != [] && d + Merge(u, v) == (d + [b]) + Merge(u, v[1..])
  {
  }

  /** In the middle of a merge: `d` is linked from the sentinel to its last node `c`; `u` and `v` are left. */
  ghost predicate Merging(z: Node, c: Node, d: seq<Node>, u: seq<Node>, v: seq<Node>)
    reads z, d, u, v
  {
    && List(At(u, 0, z), u, z) && List(At(v, 0, z), v, z) && Distinct(d) && z !in d
    && Disjoint(u, v) && Disjoint(d, u) && Disjoint(d, v)
    && c == (if d == [] then z else d[|d| - 1])
    && (d != [] ==> z.next == d[0])
    && forall i | 0 <= i < |d| - 1 :: d[i].next == d[i + 1]
  }

  lemma MergingSwap(z: Node, c: Node, d: seq<Node>, u: seq<Node>, v: seq<Node>)
    requires Merging(z, c, d, u, v)
    ensures Merging(z, c, d, v, u)
  {
  }

  /** Link the front of `u` behind the nodes merged so far; when nothing is left, the sentinel. */
  method Link(z: Node, c: Node, a: Node, ghost d: seq<Node>, ghost u: seq<Node>, ghost v: seq<Node>)
    requires Merging(z, c, d, u, v) && a == At(u, 0, z) && (u == [] ==> v == [])
    modifies c
    ensures u != [] ==> a != z && Merging(z, a, d + [a], u[1..], v) && a.next == At(u, 1, z)
    ensures u == [] ==> List(z.next, d, z)
  {
    c.next := a;
  }

  /** merge: relink two lists through the sentinel's own next pointer, which ends as it should be. */
  method MergeLists(z: Node, a0: Node, b0: Node, ghost x: seq<Node>, ghost y: seq<Node>) returns (c: Node)
    requires List(a0, x, z) && List(b0, y, z) && Disjoint(x, y) && Below(x, z) && Below(y, z)
    modifies x, y, z
    ensures List(c, Merge(x, y), z) && z.next == z
  {
    hide Merge, Merging, List, Below, Disjoint;
    var a, b := a0, b0;
    c := z;
    ghost var d: seq<Node>, u, v := [], x, y;
    Started(z, a, b, x, y);
    assert d + Merge(u, v) == Merge(x, y);
    while true
      invariant Merging(z, c, d, u, v) && a == At(u, 0, z) && b == At(v, 0, z)
      invariant Below(u, z) && Below(v, z) && d + Merge(u, v) == Merge(x, y)
      invariant c == z || c in x || c in y
      invariant (forall i | 0 <= i < |u| :: u[i] in x) && (forall i | 0 <= i < |v| :: v[i] in y)
      decreases |u| + |v|
    {
      MergeStep(d, u, v, z);
      if a.key <= b.key {
        Link(z, c, a, d, u, v);
        c := a;
        a := a.next;
        if u != [] {
          BelowTail(u, z);
          d, u := d + [c], u[1..];
        }
      } else {
        MergingSwap(z, c, d, u, v);
        Link(z, c, b, d, v, u);
        c := b;
        b := b.next;
        BelowTail(v, z);
        d, v := d + [c], v[1..];
        MergingSwap(z, c, d, v, u);
      }
      if c == z {
        break;
      }
    }
    assert d + [] == d;
    c := z.next;
    CutSentinel(z, c, d);
  }

  method CutSentinel(z: Node, c: Node, ghost d: seq<Node>)
    requires List(c, d, z)
    modifies z
    ensures List(c, d, z) && z.next == z
  {
    z.next := z;
  }

  lemma Started(z: Node, a: Node, b: Node, x: seq<Node>, y: seq<Node>)
    requires List(a, x, z) && List(b, y, z) && Disjoint(x, y)
    ensures Merging(z, z, [], x, y) && a == At(x, 0, z) && b == At(y, 0, z)
  {
  }

  lemma BelowTail(u: seq<Node>, z: Node)
    requires Below(u, z) && u != []
    ensures Below(u[1..], z)
  {
  }

  /** Following next from any place in the list, or from the sentinel behind it. */
  lemma NextAt(l: seq<Node>, z: Node, i: nat)
    requires List(At(l, 0, z), l, z) && z.next == z
    ensures At(l, i, z).next == At(l, i + 1, z)
  {
  }

  /** The loops that follow `n` next pointers. */
  method Walk(t0: Node, n: nat, z: Node, ghost l: seq<Node>, ghost k: nat) returns (t: Node)
    requires List(At(l, 0, z), l, z) && z.next == z && t0 == At(l, k, z)
    ensures t == At(l, k + n, z)
  {
    t := t0;
    for i := 0 to n
      invariant t == At(l, k + i, z)
    {
      NextAt(l, z, k + i);
      t := t.next;
    }
  }

  function Take(l: seq<Node>, n: nat): seq<Node> { if n < |l| then l[..n] else l }

  function Drop(l: seq<Node>, n: nat): seq<Node> { if n < |l| then l[n..] else [] }

  /** End a list behind its n-th node, and give what follows. */
  method Cut(z: Node, t: Node, ghost n: nat, ghost l: seq<Node>) returns (b: Node)
    requires List(At(l, 0, z), l, z) && z.next == z && n > 0 && t == At(l, n - 1, z)
    modifies t
    ensures z.next == z && List(At(l, 0, z), Take(l, n), z) && b == At(l, n, z) && List(b, Drop(l, n), z)
  {
    NextAt(l, z, n - 1);
    b := t.next;
    t.next := z;
  }

  lemma Halves(l: seq<Node>, n: nat, z: Node)
    requires Distinct(l) && Below(l, z)
    ensures l == Take(l, n) + Drop(l, n)
    ensures Disjoint(Take(l, n), Drop(l, n)) && Below(Take(l, n), z) && Below(Drop(l, n), z)
    ensures forall i | 0 <= i < |Take(l, n)| :: Take(l, n)[i] in l
    ensures forall i | 0 <= i < |Drop(l, n)| :: Drop(l, n)[i] in l
  {
  }

  lemma {:induction false} SortedHalves(x: seq<Node>, y: seq<Node>, l: seq<Node>, m: seq<Node>)
    requires StableSortOf(x, l) && StableSortOf(y, m)
    ensures StableSortOf(Merge(x, y), l + m)
  {
    MergeSorted(x, y);
    MergeNodes(x, y);
    forall k
      ensures WithKey(Merge(x, y), k) == WithKey(l + m, k)
    {
      MergeStable(x, y, k);
      WithKeyAppend(l, m, k);
    }
  }

  lemma {:induction false} SameMembers(x: seq<Node>, l: seq<Node>, z: Node)
    requires StableSortOf(x, l) && Below(l, z)
    ensures Below(x, z) && (forall n :: n in x <==> n in l) && forall i | 0 <= i < |x| :: x[i] in l
  {
    forall n
      ensures n in x <==> n in l
    {
      assert n in x <==> n in multiset(x);
      assert n in l <==> n in multiset(l);
    }
    assert forall i | 0 <= i < |x| :: x[i] in l;
  }

  lemma {:induction false} StillDisjoint(x: seq<Node>, y: seq<Node>, l: seq<Node>, m: seq<Node>)
    requires Disjoint(l, m) && (forall n :: n in x <==> n in l) && (forall n :: n in y <==> n in m)
    ensures Disjoint(x, y)
  {
    forall i, j | 0 <= i < |x| && 0 <= j < |y|
      ensures x[i] != y[j]
    {
      assert x[i] in l && y[j] in m;
    }
  }

  /** The loop that moves one pointer a step for every two of the other. */
  method Middle(z: Node, c0: Node, ghost l: seq<Node>) returns (c: Node, ghost k: nat)
    requires List(c0, l, z) && z.next == z && |l| >= 2
    ensures 1 <= k < |l| && c == At(l, k - 1, z)
  {
    NextAt(l, z, 0);
    NextAt(l, z, 1);
    NextAt(l, z, 2);
    c, k := c0, 1;
    var b := c.next.next.next;
    while b != z
      invariant 1 <= k && 2 * k - 1 < |l| && c == At(l, k - 1, z) && b == At(l, 2 * k + 1, z)
      decreases |l| - k
    {
      NextAt(l, z, k - 1);
      NextAt(l, z, 2 * k + 1);
      NextAt(l, z, 2 * k + 2);
      c := c.next;
      b := b.next.next;
      k := k + 1;
    }
  }

  lemma ShortSorted(l: seq<Node>, z: Node)
    requires List(At(l, 0, z), l, z) && At(l, 1, z) == z
    ensures StableSortOf(l, l) && |l| <= 1
  {
  }

  /** mergesort */
  method Mergesort(z: Node, c: Node, ghost l: seq<Node>) returns (r: Node, ghost out: seq<Node>)
    requires List(c, l, z) && z.next == z && Below(l, z)
    modifies l, z
    ensures List(r, out, z) && z.next == z && StableSortOf(out, l)
    decreases |l|, 1
  {
    hide StableSortOf, Below, Disjoint, Take, Drop, Merge, Distinct, Links;
    NextAt(l, z, 0);
    if c.next != z {
      var middle;
      ghost var k;
      middle, k := Middle(z, c, l);
      Halves(l, k, z);
      var b := Cut(z, middle, k, l);
      r, out := SortHalves(z, c, b, Take(l, k), Drop(l, k));
    } else {
      ShortSorted(l, z);
      r, out := c, l;
    }
  }

  method SortHalves(z: Node, a0: Node, b0: Node, ghost l: seq<Node>, ghost m: seq<Node>) returns (r: Node, ghost out: seq<Node>)
    requires List(a0, l, z) && List(b0, m, z) && z.next == z && Below(l, z) && Below(m, z) && Disjoint(l, m)
    requires l != [] && m != []
    modifies l, m, z
    ensures List(r, out, z) && z.next == z && StableSortOf(out, l + m)
    decreases |l + m|, 0
  {
    hide StableSortOf, Below, Merge, Links, Distinct;
    var a, b;
    ghost var x, y;
    a, x := Mergesort(z, a0, l);
    SameMembers(x, l, z);
    StillDisjoint(x, m, l, m);
    b, y := Mergesort(z, b0, m);
    SameMembers(y, m, z);
    StillDisjoint(x, y, l, m);
    r := MergeLists(z, a, b, x, y);
    out := Merge(x, y);
    SortedHalves(x, y, l, m);
  }
}
