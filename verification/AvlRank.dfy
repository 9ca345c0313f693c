/** avl_offset and the descent of zset_query, build_redis/chapter11/zset.hpp. */
module AvlRank {
  import opened AvlShapes
  import opened AvlTree
  import opened AvlDelete
  import opened AvlContainer
  import opened ZOrder

  ghost function CtxDepth(x: Ctx): nat {
    if x.Top? then 0 else 1 + CtxDepth(x.up)
  }

  /** The in-order rank of the node between `l` and the rest, in the tree around `x`. */
  ghost function Rank(x: Ctx, l: Tree): nat { |Before(x)| + Size(l) }

  lemma {:induction false} RankIsIndex(x: Ctx, l: Tree, n: AVLNode, r: Tree)
    ensures var q := Inorder(Plug(x, Br(l, n, r)));
            Rank(x, l) < |q| && q[Rank(x, l)] == n && |q| == |Before(x)| + Size(Br(l, n, r)) + |After(x)|
  {
    PlugOrder(x, l, n, r);
    InorderNodes(l);
    InorderNodes(r);
  }

  /** The children of the root of `t`, with their counts. */
  ghost predicate Counts(m: Mem, t: Tree) {
    t.Br? ==>
      && t.n in m && m[t.n].left == Root(t.l) && m[t.n].right == Root(t.r) && m[t.n].cnt == Size(t)
      && (t.l.Br? ==> t.l.n in m && m[t.l.n].cnt == Size(t.l))
      && (t.r.Br? ==> t.r.n in m && m[t.r.n].cnt == Size(t.r))
  }

  lemma RepCounts(m: Mem, t: Tree, p: AVLNode?)
    requires Rep(m, t, p)
    ensures Counts(m, t)
  {
  }

  lemma {:induction false} PlaceCells(m: Mem, x: Ctx, l: Tree, n: AVLNode, r: Tree)
    requires Whole(m, Plug(x, Br(l, n, r)))
    ensures n in m && m[n].left == Root(l) && m[n].right == Root(r) && m[n].parent == HoleParent(x)
    ensures Counts(m, Br(l, n, r)) && Counts(m, l) && Counts(m, r)
  {
    RepPlug(m, x, Br(l, n, r));
    RepCounts(m, Br(l, n, r), HoleParent(x));
    RepCounts(m, l, n);
    RepCounts(m, r, n);
  }

  /** The parent of the node, and on which side the node hangs. */
  lemma {:induction false} ParentCells(m: Mem, x: Ctx, l: Tree, n: AVLNode, r: Tree)
    requires Whole(m, Plug(x, Br(l, n, r))) && !x.Top?
    ensures x.n in m && (m[x.n].right == n <==> x.InR?)
  {
    RepPlug(m, x, Br(l, n, r));
    PlugNodes(x, Br(l, n, r));
  }

  /** Rank `k` lies in the subtree in the hole of `x`. */
  ghost predicate Inside(x: Ctx, t: Tree, k: int) {
    |Before(x)| <= k < |Before(x)| + Size(t)
  }

  /** avl_offset: the node `offset` ranks away from `start`, or null when there is none. */
  method AvlOffset(start: AVLNode, offset: int, ghost x: Ctx, ghost l: Tree, ghost r: Tree, ghost s: set<AVLNode>)
    returns (res: AVLNode?)
    requires Whole(Snap(s), Plug(x, Br(l, start, r)))
    ensures var q, k := Inorder(Plug(x, Br(l, start, r))), Rank(x, l) + offset;
            res == if 0 <= k < |q| then q[k] else null
  {
    hide Rep, Whole, Distinct, Balanced, Nodes, Height;
    ghost var m, t := Snap(s), Plug(x, Br(l, start, r));
    ghost var k := Rank(x, l) + offset;
    ghost var cx, cl, cr := x, l, r;
    var node: AVLNode, pos := start, 0;
    while offset != pos
      invariant Plug(cx, Br(cl, node, cr)) == t
      invariant pos == Rank(cx, cl) - Rank(x, l)
      decreases !Inside(cx, Br(cl, node, cr), k),
                if Inside(cx, Br(cl, node, cr), k) then Size(Br(cl, node, cr)) else CtxDepth(cx)
    {
      PlaceCells(m, cx, cl, node, cr);
      if pos < offset && pos + Cnt(node.right) >= offset {
        InorderNodes(cl);
        cx, cl, cr := InR(cx, cl, node), cr.l, cr.r;
        node := node.right;
        pos := pos + Cnt(node.left) + 1;
      } else if pos > offset && pos - Cnt(node.left) <= offset {
        cx, cl, cr := InL(cx, node, cr), cl.l, cl.r;
        node := node.left;
        pos := pos - (Cnt(node.right) + 1);
      } else {
        var parent := node.parent;
        if parent == null {
          RankIsIndex(cx, cl, node, cr);
          return null;
        }
        ParentCells(m, cx, cl, node, cr);
        if parent.right == node {
          pos := pos - (Cnt(node.left) + 1);
          InorderNodes(cx.l);
          cx, cl, cr := cx.up, cx.l, Br(cl, node, cr);
        } else {
          pos := pos + Cnt(node.right) + 1;
          cx, cl, cr := cx.up, Br(cl, node, cr), cx.r;
        }
        node := parent;
      }
    }
    RankIsIndex(cx, cl, node, cr);
    return node;
  }

  // ---- zset_query ----

  /** Every record before the hole is below `key`, none after it is. */
  ghost predicate Splits(k: Keys, x: Ctx, key: Record) {
    && Sorted(k, Before(x)) && AllBelow(k, Before(x), key)
    && Sorted(k, After(x)) && forall i | 0 <= i < |After(x)| :: !Less(k[After(x)[i]], key)
  }

  lemma {:induction false} PassLeft(k: Keys, x: Ctx, l: Tree, n: AVLNode, r: Tree, key: Record)
    requires Sorted(k, Inorder(Plug(x, Br(l, n, r)))) && Splits(k, x, key)
    requires n in k && !Less(k[n], key)
    ensures Splits(k, InL(x, n, r), key)
  {
    PlugOrder(x, l, n, r);
    var a := Right(x, r);
    SortedParts(k, Left(x, l), n, a);
    assert After(InL(x, n, r)) == [n] + a;
    forall i | 0 <= i < |a|
      ensures !Less(k[a[i]], key)
    {
      NotGreaterTransitive(key, k[n], k[a[i]]);
    }
    assert Sorted(k, [n] + a);
  }

  /** How many records of `q` are below `key`: the rank at which the query starts. */
  ghost function LowerBound(k: Keys, q: seq<AVLNode>, key: Record): (i: nat)
    requires forall n | n in q :: n in k
    ensures i <= |q|
    ensures i < |q| ==> !Less(k[q[i]], key)
    ensures forall j | 0 <= j < i :: Less(k[q[j]], key)
  {
    if q == [] || !Less(k[q[0]], key) then 0 else 1 + LowerBound(k, q[1..], key)
  }

  lemma {:induction false} SplitsAtLowerBound(k: Keys, x: Ctx, key: Record)
    requires Splits(k, x, key)
    ensures var q := Inorder(Plug(x, Nil)); (forall n | n in q :: n in k) && LowerBound(k, q, key) == |Before(x)|
  {
    PlugInorder(x, Nil);
    var q := Inorder(Plug(x, Nil));
    assert Inorder(Nil) == [];
    assert q == Before(x) + After(x);
    var i, n := LowerBound(k, q, key), |Before(x)|;
    assert forall j | 0 <= j < n :: q[j] == Before(x)[j];
    assert n < |q| ==> q[n] == After(x)[0];
  }

  /** What zset_query yields: the record at the lower bound, moved by `offset` ranks. */
  ghost function QueryResult(k: Keys, q: seq<AVLNode>, key: Record, offset: int): AVLNode?
    requires forall n | n in q :: n in k
  {
    var i := LowerBound(k, q, key);
    if i < |q| && 0 <= i + offset < |q| then q[i + offset] else null
  }

  /** The loop of zset_query: the first node not below `key`, with its place. */
  method Seek(tree: AVLNode?, key: Record, ghost t: Tree, ghost s: set<AVLNode>)
    returns (found: AVLNode?, ghost fx: Ctx, ghost fl: Tree, ghost fr: Tree)
    requires tree == Root(t) && Whole(Snap(s), t) && Sorted(Recs(s), Inorder(t))
    ensures forall n | n in Inorder(t) :: n in Recs(s)
    ensures found == null <==> LowerBound(Recs(s), Inorder(t), key) == |Inorder(t)|
    ensures found != null ==> Plug(fx, Br(fl, found, fr)) == t && Rank(fx, fl) == LowerBound(Recs(s), Inorder(t), key)
  {
    hide Less, Rep, Distinct, Balanced, Height, Nodes, Whole, LowerBound;
    ghost var m, k := Snap(s), Recs(s);
    ghost var x, c := Top, t;
    fx, fl, fr := Top, Nil, Nil;
    found := null;
    var cur := tree;
    while cur != null
      invariant cur == Root(c) && Plug(x, c) == t
      invariant Splits(k, x, key)
      invariant found == null ==> After(x) == []
      invariant found != null ==> After(x) != [] && Plug(fx, Br(fl, found, fr)) == t && Rank(fx, fl) == |Before(x)| + Size(c)
      decreases c
    {
      PlaceCells(m, x, c.l, cur, c.r);
      InorderNodes(c.l);
      if Less(cur.record, key) {
        PassRight(k, x, c.l, cur, c.r, key);
        x, c, cur := InR(x, c.l, cur), c.r, cur.right;
      } else {
        PassLeft(k, x, c.l, cur, c.r, key);
        found := cur;
        fx, fl, fr := x, c.l, c.r;
        x, c, cur := InL(x, cur, c.r), c.l, cur.left;
      }
    }
    SplitsAtLowerBound(k, x, key);
    PlugInorder(x, Nil);
  }

  /** zset_query */
  method Query(tree: AVLNode?, key: Record, offset: int, ghost t: Tree, ghost s: set<AVLNode>) returns (found: AVLNode?)
    requires tree == Root(t) && Whole(Snap(s), t) && Sorted(Recs(s), Inorder(t))
    ensures (forall n | n in Inorder(t) :: n in Recs(s)) && found == QueryResult(Recs(s), Inorder(t), key, offset)
  {
    hide Whole, Sorted, Inorder, Rank;
    ghost var fx, fl, fr;
    found, fx, fl, fr := Seek(tree, key, t, s);
    if found != null {
      RankIsIndex(fx, fl, found, fr);
      found := AvlOffset(found, offset, fx, fl, fr, s);
    }
  }
}
