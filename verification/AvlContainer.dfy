/** Insertion into and lookup in the AVL tree: `add` and `del` of build_redis/chapter11/avl.hpp and
    the descent that `tree_add` of build_redis/chapter11/zset.hpp shares with `add`. */
module AvlContainer {
  import opened AvlShapes
  import opened AvlTree
  import opened AvlDelete
  import opened ZOrder

  type Keys = map<AVLNode, Record>

  ghost function Recs(s: set<AVLNode>): Keys
    reads s`record
  {
    map x | x in s :: x.record
  }

  /** The nodes of `q` are in order; equal records may be neighbours. */
  ghost predicate Sorted(k: Keys, q: seq<AVLNode>) {
    && (forall i | 0 <= i < |q| :: q[i] in k)
    && forall i, j | 0 <= i < j < |q| :: !Less(k[q[j]], k[q[i]])
  }

  ghost predicate NoneAbove(k: Keys, q: seq<AVLNode>, rec: Record)
    requires forall i | 0 <= i < |q| :: q[i] in k
  {
    forall i | 0 <= i < |q| :: !Less(rec, k[q[i]])
  }

  ghost predicate AllAbove(k: Keys, q: seq<AVLNode>, rec: Record)
    requires forall i | 0 <= i < |q| :: q[i] in k
  {
    forall i | 0 <= i < |q| :: Less(rec, k[q[i]])
  }

  lemma {:induction false} SortedParts(k: Keys, b: seq<AVLNode>, n: AVLNode, a: seq<AVLNode>)
    requires Sorted(k, b + [n] + a)
    ensures Sorted(k, b) && Sorted(k, a) && n in k
    ensures forall i | 0 <= i < |b| :: !Less(k[n], k[b[i]])
    ensures forall i | 0 <= i < |a| :: !Less(k[a[i]], k[n])
  {
    var q := b + [n] + a;
    assert q[|b|] == n;
    assert forall i | 0 <= i < |b| :: q[i] == b[i];
    assert forall i | 0 <= i < |a| :: q[|b| + 1 + i] == a[i];
  }

  /** A new node between those not above it and those above it keeps the order. */
  lemma {:induction false} SortedInsert(k: Keys, b: seq<AVLNode>, a: seq<AVLNode>, n: AVLNode)
    requires Sorted(k, b + a) && n in k
    requires (forall i | 0 <= i < |b| :: b[i] in k) && (forall i | 0 <= i < |a| :: a[i] in k)
    requires NoneAbove(k, b, k[n]) && AllAbove(k, a, k[n])
    ensures Sorted(k, b + [n] + a)
  {
    var p, q := b + a, b + [n] + a;
    forall i, j | 0 <= i < j < |q|
      ensures !Less(k[q[j]], k[q[i]])
    {
      if i == |b| {
        LessTotal(k[n], k[q[j]]);
      } else if j != |b| {
        var i', j' := if i < |b| then i else i - 1, if j < |b| then j else j - 1;
        assert p[i'] == q[i] && p[j'] == q[j];
      }
    }
  }

  /** One step of the descent: the nodes left behind lie on the right side of `rec`. */
  lemma {:induction false} DescendLeft(k: Keys, x: Ctx, l: Tree, n: AVLNode, r: Tree, rec: Record)
    requires Sorted(k, Inorder(Plug(x, Br(l, n, r)))) && Sorted(k, After(x)) && AllAbove(k, After(x), rec)
    requires n in k && Less(rec, k[n])
    ensures Sorted(k, After(InL(x, n, r))) && AllAbove(k, After(InL(x, n, r)), rec)
  {
    PlugOrder(x, l, n, r);
    var a := Right(x, r);
    SortedParts(k, Left(x, l), n, a);
    assert After(InL(x, n, r)) == [n] + a;
    forall i | 0 <= i < |a|
      ensures Less(rec, k[a[i]])
    {
      LessTotal(k[n], k[a[i]]);
      if k[n] != k[a[i]] {
        LessTransitive(rec, k[n], k[a[i]]);
      }
    }
    assert Sorted(k, [n] + a);
  }

  lemma {:induction false} DescendRight(k: Keys, x: Ctx, l: Tree, n: AVLNode, r: Tree, rec: Record)
    requires Sorted(k, Inorder(Plug(x, Br(l, n, r)))) && Sorted(k, Before(x)) && NoneAbove(k, Before(x), rec)
    requires n in k && !Less(rec, k[n])
    ensures Sorted(k, Before(InR(x, l, n))) && NoneAbove(k, Before(InR(x, l, n)), rec)
  {
    PlugOrder(x, l, n, r);
    var b := Left(x, l);
    SortedParts(k, b, n, Right(x, r));
    assert Before(InR(x, l, n)) == b + [n];
    forall i | 0 <= i < |b|
      ensures !Less(rec, k[b[i]])
    {
      NotGreaterTransitive(k[b[i]], k[n], rec);
    }
    assert Sorted(k, b + [n]);
  }

  /** The fields of a node that is in no tree, as avl_init leaves them. */
  ghost predicate Fresh(m: Mem, n: AVLNode) {
    n in m && m[n] == Cell(null, null, null, 1, 1)
  }

  lemma {:induction false} AttachLeaf(m: Mem, x: Ctx, n: AVLNode)
    requires !x.Top? && Whole(m, Plug(x, Nil)) && Fresh(m, n) && n !in Nodes(Plug(x, Nil))
    ensures x.n in m
    ensures var m1 := m[x.n := if x.InL? then m[x.n].(left := n) else m[x.n].(right := n)];
            Fixable(m1[n := m1[n].(parent := x.n)], x, Nil, n, Nil)
  {
    RepPlug(m, x, Nil);
    PlugNodes(x, Nil);
    PlugNodes(x, Br(Nil, n, Nil));
    var m1 := m[x.n := if x.InL? then m[x.n].(left := n) else m[x.n].(right := n)];
    var m2 := m1[n := m1[n].(parent := x.n)];
    RepFrame(m, m2, if x.InL? then x.r else x.l, x.n);
    RepCtxFrame(m, m2, x.up, x.n);
  }

  lemma {:induction false} GrownTree(x: Ctx, n: AVLNode)
    requires Balanced(Plug(x, Nil)) && Distinct(Plug(x, Nil)) && n !in Nodes(Plug(x, Nil))
    ensures var t' := FixUp(x, Br(Nil, n, Nil));
            && Balanced(t') && Distinct(t') && Nodes(t') == Nodes(Plug(x, Nil)) + {n}
            && Inorder(t') == Before(x) + [n] + After(x) && Inorder(Plug(x, Nil)) == Before(x) + After(x)
    ensures Nodes(Plug(x, Br(Nil, n, Nil))) == Nodes(Plug(x, Nil)) + {n}
  {
    hide FixUp, FixNode, Plug, Before, After, CtxNodes, CtxDistinct;
    var leaf := Br(Nil, n, Nil);
    PlugNodes(x, Nil);
    PlugNodes(x, leaf);
    FixUpKeeps(x, leaf);
    FixUpBalanced(x, Nil, leaf);
    PlugInorder(x, leaf);
    PlugInorder(x, Nil);
    assert Inorder(leaf) == [n];
    assert Before(x) + [] + After(x) == Before(x) + After(x);
  }

  /** `*from = &data->node; data->node.parent = cur` */
  method StoreLeaf(cur: AVLNode, fromLeft: bool, node: AVLNode, ghost x: Ctx, ghost s: set<AVLNode>)
    requires !x.Top? && x.n == cur && (fromLeft <==> x.InL?)
    requires Whole(Snap(s), Plug(x, Nil)) && Fresh(Snap(s), node) && node !in Nodes(Plug(x, Nil))
    modifies cur`left, cur`right, node`parent
    ensures Fixable(Snap(s), x, Nil, node, Nil)
    ensures forall y | y in s && y != cur && y != node :: CellOf(y) == old(CellOf(y))
  {
    ghost var m := Snap(s);
    AttachLeaf(m, x, node);
    if fromLeft {
      cur.left := node;
    } else {
      cur.right := node;
    }
    ghost var m1 := m[x.n := if x.InL? then m[x.n].(left := node) else m[x.n].(right := node)];
    node.parent := cur;
    assert Snap(s) == m1[node := m1[node].(parent := x.n)];
  }

  lemma Leaf(n: AVLNode)
    ensures var t := Br(Nil, n, Nil); Height(t) == 1 && Size(t) == 1 && Inorder(t) == [n] && FixNode(Nil, n, Nil) == t
  {
  }

  /** Storing the new leaf in the empty child pointer `*from` of `cur`, and avl_fix from there. */
  method Attach(cur: AVLNode, fromLeft: bool, node: AVLNode, ghost x: Ctx, ghost s: set<AVLNode>) returns (root: AVLNode)
    requires !x.Top? && x.n == cur && (fromLeft <==> x.InL?)
    requires Whole(Snap(s), Plug(x, Nil)) && Fresh(Snap(s), node) && node !in Nodes(Plug(x, Nil))
    modifies s`left, s`right, s`parent, s`depth, s`cnt
    ensures var t' := FixUp(x, Br(Nil, node, Nil)); root == Root(t') && Rep(Snap(s), t', null)
    ensures SameOutside(old(Snap(s)), Snap(s), Plug(x, Br(Nil, node, Nil)))
  {
    PlugNodes(x, Br(Nil, node, Nil));
    PlugNodes(x, Nil);
    RepPlug(Snap(s), x, Nil);
    StoreLeaf(cur, fromLeft, node, x, s);
    Leaf(node);
    root := AvlFix(node, x, Nil, Nil, s);
  }

  /** Where a record belongs: everything before the hole is not above it, everything after it is. */
  ghost predicate Belongs(k: Keys, x: Ctx, rec: Record) {
    && Sorted(k, Before(x)) && NoneAbove(k, Before(x), rec)
    && Sorted(k, After(x)) && AllAbove(k, After(x), rec)
  }

  /** The loop of `add` and of `tree_add`: descend to the empty child pointer where the record belongs. */
  method FindPlace(root: AVLNode, rec: Record, ghost t: Tree, ghost s: set<AVLNode>)
    returns (cur: AVLNode, fromLeft: bool, ghost x: Ctx)
    requires t.Br? && root == t.n && Whole(Snap(s), t) && Sorted(Recs(s), Inorder(t))
    ensures Plug(x, Nil) == t && !x.Top? && x.n == cur && (fromLeft <==> x.InL?)
    ensures Belongs(Recs(s), x, rec)
  {
    ghost var m, k := Snap(s), Recs(s);
    ghost var up, l, r := Top, t.l, t.r;
    cur := root;
    while true
      invariant Plug(up, Br(l, cur, r)) == t
      invariant Belongs(k, up, rec)
      decreases Size(Br(l, cur, r))
    {
      RepPlug(m, up, Br(l, cur, r));
      assert cur in s && m[cur].left == Root(l) && m[cur].right == Root(r);
      fromLeft := Less(rec, cur.record);
      var child: AVLNode?;
      if fromLeft {
        DescendLeft(k, up, l, cur, r, rec);
        x := InL(up, cur, r);
        child := cur.left;
        if child == null { return; }
        up, l, r := x, l.l, l.r;
      } else {
        DescendRight(k, up, l, cur, r, rec);
        x := InR(up, l, cur);
        child := cur.right;
        if child == null { return; }
        up, l, r := x, r.l, r.r;
      }
      cur := child;
    }
  }

  /** `tree_add`, and the insertion of `add`: put the node where its record belongs. */
  method TreeAdd(tree: AVLNode?, node: AVLNode, ghost t: Tree, ghost s: set<AVLNode>)
    returns (root: AVLNode, ghost t': Tree, ghost b: seq<AVLNode>, ghost a: seq<AVLNode>)
    requires tree == Root(t) && Whole(Snap(s), t) && Sorted(Recs(s), Inorder(t))
    requires Fresh(Snap(s), node) && node !in Nodes(t)
    modifies s`left, s`right, s`parent, s`depth, s`cnt
    ensures root == Root(t') && Whole(Snap(s), t') && Sorted(Recs(s), Inorder(t'))
    ensures Inorder(t) == b + a && Inorder(t') == b + [node] + a && Nodes(t') == Nodes(t) + {node}
    ensures SameOutside(old(Snap(s)), Snap(s), t')
  {
    if tree == null {
      t', b, a := Br(Nil, node, Nil), [], [];
      Leaf(node);
      assert Rep(Snap(s), t', null);
      return node, t', b, a;
    }
    var cur, fromLeft;
    ghost var x;
    cur, fromLeft, x := FindPlace(tree, node.record, t, s);
    GrownTree(x, node);
    t', b, a := FixUp(x, Br(Nil, node, Nil)), Before(x), After(x);
    SortedInsert(Recs(s), b, a, node);
    root := Attach(cur, fromLeft, node, x, s);
  }

  // ---- Container: a multiset of values ----

  ghost predicate AllData(k: Keys, q: seq<AVLNode>) {
    forall n | n in q :: n in k && k[n].Data?
  }

  ghost function Vals(k: Keys, q: seq<AVLNode>): seq<nat>
    requires AllData(k, q)
  {
    seq(|q|, i requires 0 <= i < |q| => k[q[i]].val)
  }

  lemma {:induction false} ValsSplit(k: Keys, b: seq<AVLNode>, n: AVLNode, a: seq<AVLNode>)
    requires AllData(k, b + [n] + a)
    ensures AllData(k, b + a) && n in k && k[n].Data?
    ensures multiset(Vals(k, b + [n] + a)) == multiset(Vals(k, b + a)) + multiset{k[n].val}
  {
    var q := b + [n] + a;
    assert n in q;
    assert forall y | y in b + a :: y in q;
    assert Vals(k, q) == Vals(k, b) + [k[n].val] + Vals(k, a);
    assert Vals(k, b + a) == Vals(k, b) + Vals(k, a);
  }

  lemma {:induction false} ValsFrame(k: Keys, k': Keys, q: seq<AVLNode>)
    requires AllData(k, q) && forall n | n in q :: n in k' && k'[n] == k[n]
    ensures AllData(k', q) && Vals(k', q) == Vals(k, q)
  {
  }

  lemma {:induction false} AddedVals(k: Keys, k': Keys, b: seq<AVLNode>, n: AVLNode, a: seq<AVLNode>)
    requires AllData(k, b + a) && n in k' && k'[n].Data?
    requires forall y | y in k :: y in k' && k'[y] == k[y]
    ensures AllData(k', b + [n] + a)
    ensures multiset(Vals(k', b + [n] + a)) == multiset(Vals(k, b + a)) + multiset{k'[n].val}
  {
    ValsFrame(k, k', b + a);
    assert forall y | y in b + [n] + a :: y == n || y in b + a;
    ValsSplit(k', b, n, a);
  }

  lemma {:induction false} RemovedVals(k: Keys, k': Keys, b: seq<AVLNode>, n: AVLNode, a: seq<AVLNode>)
    requires AllData(k, b + [n] + a)
    requires forall y | y in b + a :: y in k' && (y in k ==> k'[y] == k[y])
    ensures AllData(k', b + a) && n in k && k[n].Data?
    ensures k[n].val in Vals(k, b + [n] + a)
    ensures multiset(Vals(k', b + a)) == multiset(Vals(k, b + [n] + a)) - multiset{k[n].val}
  {
    ValsSplit(k, b, n, a);
    ValsFrame(k, k', b + a);
    assert k[n].val in multiset(Vals(k, b + [n] + a));
  }

  lemma {:induction false} SortedRemove(k: Keys, b: seq<AVLNode>, n: AVLNode, a: seq<AVLNode>)
    requires Sorted(k, b + [n] + a)
    ensures Sorted(k, b + a)
  {
    var p, q := b + a, b + [n] + a;
    forall i | 0 <= i < |p|
      ensures p[i] == q[if i < |b| then i else i + 1]
    {
    }
  }

  ghost predicate AllBelow(k: Keys, q: seq<AVLNode>, rec: Record)
    requires forall i | 0 <= i < |q| :: q[i] in k
  {
    forall i | 0 <= i < |q| :: Less(k[q[i]], rec)
  }

  lemma {:induction false} PassRight(k: Keys, x: Ctx, l: Tree, n: AVLNode, r: Tree, rec: Record)
    requires Sorted(k, Inorder(Plug(x, Br(l, n, r)))) && Sorted(k, Before(x)) && AllBelow(k, Before(x), rec)
    requires n in k && Less(k[n], rec)
    ensures Sorted(k, Before(InR(x, l, n))) && AllBelow(k, Before(InR(x, l, n)), rec)
  {
    PlugOrder(x, l, n, r);
    var b := Left(x, l);
    SortedParts(k, b, n, Right(x, r));
    assert Before(InR(x, l, n)) == b + [n];
    forall i | 0 <= i < |b|
      ensures Less(k[b[i]], rec)
    {
      NotGreaterThenLess(k[b[i]], k[n], rec);
    }
    assert Sorted(k, b + [n]);
  }

  /** The search left no node with the record `rec` behind. */
  ghost predicate Missed(k: Keys, x: Ctx, rec: Record) {
    && Sorted(k, Before(x)) && AllBelow(k, Before(x), rec)
    && Sorted(k, After(x)) && AllAbove(k, After(x), rec)
  }

  lemma {:induction false} NotThere(k: Keys, x: Ctx, rec: Record)
    requires Missed(k, x, rec)
    ensures forall i | 0 <= i < |Inorder(Plug(x, Nil))| ::
              var n := Inorder(Plug(x, Nil))[i]; n in k && k[n] != rec
  {
    PlugInorder(x, Nil);
    assert Inorder(Nil) == [];
    assert Before(x) + [] + After(x) == Before(x) + After(x);
    LessTotal(rec, rec);
  }


  /** A sorted AVL tree of values. */
  ghost predicate ValueTree(m: Mem, k: Keys, t: Tree) {
    Whole(m, t) && Sorted(k, Inorder(t)) && AllData(k, Inorder(t))
  }

  lemma {:induction false} ValueTreeFrame(m: Mem, m': Mem, k: Keys, k': Keys, t: Tree)
    requires ValueTree(m, k, t)
    requires forall y | y in m :: y in m' && m'[y] == m[y]
    requires forall y | y in k :: y in k' && k'[y] == k[y]
    ensures Whole(m', t) && Sorted(k', Inorder(t))
  {
    RepFrame(m, m', t, null);
  }

  /** The tree once `n` is out of it. */
  lemma {:induction false} ValueTreeShrunk(k: Keys, m': Mem, k': Keys, x: Ctx, l: Tree, n: AVLNode, r: Tree, t': Tree, m: Mem)
    requires Sorted(k, Left(x, l) + [n] + Right(x, r)) && AllData(k, Left(x, l) + [n] + Right(x, r))
    requires Whole(m, t') && Inorder(t') == Without(x, l, r)
    requires m'.Keys == k'.Keys == Nodes(t') <= k.Keys && m.Keys == k.Keys
    requires (forall y | y in m' :: m'[y] == m[y]) && forall y | y in k' :: k'[y] == k[y]
    ensures ValueTree(m', k', t') && n in k && k[n].Data?
    ensures k[n].val in Vals(k, Left(x, l) + [n] + Right(x, r))
    ensures multiset(Vals(k', Inorder(t'))) == multiset(Vals(k, Left(x, l) + [n] + Right(x, r))) - multiset{k[n].val}
  {
    RepFrame(m, m', t', null);
    SortedRemove(k, Left(x, l), n, Right(x, r));
    InorderNodes(t');
    assert forall y | y in Inorder(t') :: y in Nodes(t');
    RemovedVals(k, k', Left(x, l), n, Right(x, r));
  }

  /** `add` from its allocated node on. */
  method AddNode(tree: AVLNode?, node: AVLNode, ghost t: Tree, ghost nodes: set<AVLNode>, ghost s: set<AVLNode>)
    returns (root: AVLNode, ghost t': Tree)
    requires tree == Root(t) && Nodes(t) == nodes && ValueTree(Snap(nodes), Recs(nodes), t)
    requires s == nodes + {node} && node !in nodes && node.record.Data? && Fresh(Snap(s), node)
    modifies s`left, s`right, s`parent, s`depth, s`cnt
    ensures root == Root(t') && Nodes(t') == s && ValueTree(Snap(s), Recs(s), t')
    ensures multiset(Vals(Recs(s), Inorder(t'))) == multiset(old(Vals(Recs(nodes), Inorder(t)))) + multiset{node.record.val}
  {
    ghost var k := Recs(nodes);
    ValueTreeFrame(Snap(nodes), Snap(s), k, Recs(s), t);
    ghost var b, a;
    root, t', b, a := TreeAdd(tree, node, t, s);
    AddedVals(k, Recs(s), b, node, a);
  }

  /** The search of `del`: the node that holds `rec`, with its place, or null when there is none. */
  method Search(root: AVLNode?, rec: Record, ghost t: Tree, ghost s: set<AVLNode>)
    returns (cur: AVLNode?, ghost x: Ctx, ghost l: Tree, ghost r: Tree)
    requires root == Root(t) && ValueTree(Snap(s), Recs(s), t) && rec.Data?
    ensures cur != null ==> cur in s && cur.record == rec && Plug(x, Br(l, cur, r)) == t
    ensures cur == null <==> rec.val !in Vals(Recs(s), Inorder(t))
  {
    ghost var m, k := Snap(s), Recs(s);
    ghost var c := t;
    cur, x, l, r := root, Top, Nil, Nil;
    while cur != null
      invariant cur == Root(c) && Plug(x, c) == t
      invariant Missed(k, x, rec)
      decreases Size(c)
    {
      l, r := c.l, c.r;
      RepPlug(m, x, c);
      assert cur in s && m[cur].left == Root(l) && m[cur].right == Root(r);
      if rec == cur.record {
        PlugOrder(x, l, cur, r);
        assert Vals(k, Inorder(t))[|Left(x, l)|] == rec.val;
        return;
      }
      LessTotal(rec, cur.record);
      if Less(rec, cur.record) {
        DescendLeft(k, x, l, cur, r, rec);
        x, c, cur := InL(x, cur, r), l, cur.left;
      } else {
        PassRight(k, x, l, cur, r, rec);
        x, c, cur := InR(x, l, cur), r, cur.right;
      }
    }
    NotThere(k, x, rec);
  }

  /** `c.root = avl_del(cur)` */
  method DelNode(cur: AVLNode, ghost x: Ctx, ghost l: Tree, ghost r: Tree, ghost t: Tree, ghost s: set<AVLNode>)
    returns (root: AVLNode?, ghost t': Tree)
    requires t == Plug(x, Br(l, cur, r)) && Nodes(t) == s && ValueTree(Snap(s), Recs(s), t)
    modifies s`left, s`right, s`parent, s`depth, s`cnt
    ensures root == Root(t') && Nodes(t') <= s && ValueTree(Snap(Nodes(t')), Recs(Nodes(t')), t')
    ensures cur in s && cur.record.Data? && cur.record.val in old(Vals(Recs(s), Inorder(t)))
    ensures multiset(Vals(Recs(Nodes(t')), Inorder(t'))) == multiset(old(Vals(Recs(s), Inorder(t)))) - multiset{cur.record.val}
  {
    ghost var k := Recs(s);
    PlugOrder(x, l, cur, r);
    root, t' := AvlDel(cur, x, l, r, s);
    WithoutNodes(x, l, cur, r, t');
    ghost var rest := Nodes(t');
    ValueTreeShrunk(k, Snap(rest), Recs(rest), x, l, cur, r, t', Snap(s));
  }

  lemma {:induction false} ValuesSorted(m: Mem, k: Keys, t: Tree)
    requires ValueTree(m, k, t)
    ensures var v := Vals(k, Inorder(t)); forall i, j | 0 <= i < j < |v| :: v[i] <= v[j]
  {
  }

  class Container {
    var root: AVLNode?
    ghost var nodes: set<AVLNode>
    ghost var tree: Tree    // the shape of the linked nodes

    /** The linked nodes are `tree`, a valid AVL tree over exactly `nodes`, sorted by value. */
    ghost predicate Valid()
      reads this, nodes
    {
      nodes == Nodes(tree) && root == Root(tree) && ValueTree(Snap(nodes), Recs(nodes), tree)
    }

    /** The values in the order of the nodes. */
    ghost function Values(): seq<nat>
      requires Valid()
      reads this, nodes
    {
      Vals(Recs(nodes), Inorder(tree))
    }

    constructor ()
      ensures Valid() && Values() == [] && nodes == {}
    {
      root, nodes, tree := null, {}, Nil;
    }

    method Add(val: nat)
      requires Valid()
      modifies this, nodes
      ensures Valid() && fresh(nodes - old(nodes))
      ensures multiset(Values()) == multiset(old(Values())) + multiset{val}
    {
      hide Inorder, Nodes, Distinct, Balanced, Rep, Height, Size, Sorted, Less, ValueTree, Vals, Whole, AllData, Recs;
      var node := new AVLNode(Data(val));
      Link(node);
    }

    /** `add` from its allocated node on. */
    method Link(node: AVLNode)
      requires Valid() && node !in nodes && node.record.Data? && Fresh(Snap(nodes + {node}), node)
      modifies this, nodes, node
      ensures Valid() && nodes == old(nodes) + {node}
      ensures multiset(Values()) == multiset(old(Values())) + multiset{old(node.record.val)}
    {
      hide Inorder, Nodes, Distinct, Balanced, Rep, Height, Size, Sorted, Less, ValueTree, Vals, Whole, AllData, Recs, Snap;
      ghost var s := nodes + {node};
      root, tree := AddNode(root, node, tree, nodes, s);
      nodes := s;
    }

    method Del(val: nat) returns (found: bool)
      requires Valid()
      modifies this, nodes
      ensures Valid() && nodes <= old(nodes)
      ensures found <==> val in old(Values())
      ensures multiset(Values()) == if found then multiset(old(Values())) - multiset{val} else multiset(old(Values()))
    {
      hide Inorder, Nodes, Distinct, Balanced, Rep, Height, Size, Sorted, Less, ValueTree, Vals, Whole, AllData, Recs, Snap;
      var cur;
      ghost var x, l, r;
      cur, x, l, r := Search(root, Data(val), tree, nodes);
      if cur == null {
        return false;
      }
      root, tree := DelNode(cur, x, l, r, tree, nodes);
      nodes := Nodes(tree);
      found := true;
    }
  }
}
