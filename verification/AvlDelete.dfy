/** avl_del of build_redis/chapter11/avl.hpp. */
module AvlDelete {
  import opened AvlShapes
  import opened AvlTree

  /** A whole valid AVL tree: links, parents, exact counters, distinct nodes, balance. */
  ghost predicate Whole(m: Mem, t: Tree) {
    Distinct(t) && Balanced(t) && Rep(m, t, null)
  }

  /** The ancestors of the hole have the depth and cnt they get when `t` is in the hole. */
  ghost predicate Counted(m: Mem, x: Ctx, t: Tree) {
    match x
    case Top => true
    case InL(up, n, r) =>
      n in m && m[n].depth == Height(Br(t, n, r)) && m[n].cnt == Size(Br(t, n, r)) && Counted(m, up, Br(t, n, r))
    case InR(up, l, n) =>
      n in m && m[n].depth == Height(Br(l, n, t)) && m[n].cnt == Size(Br(l, n, t)) && Counted(m, up, Br(l, n, t))
  }

  lemma {:induction false} RepPlug(m: Mem, x: Ctx, t: Tree)
    ensures Rep(m, Plug(x, t), null) <==> Rep(m, t, HoleParent(x)) && RepCtx(m, x, Root(t)) && Counted(m, x, t)
  {
    match x
    case Top =>
    case InL(up, n, r) => RepPlug(m, up, Br(t, n, r));
    case InR(up, l, n) => RepPlug(m, up, Br(l, n, t));
  }

  lemma {:induction false} CountedFrame(m: Mem, m': Mem, x: Ctx, t: Tree, t': Tree)
    requires Counted(m, x, t) && Height(t') == Height(t) && Size(t') == Size(t)
    requires forall y | y in CtxNodes(x) && y in m :: y in m' && m'[y].depth == m[y].depth && m'[y].cnt == m[y].cnt
    ensures Counted(m', x, t')
  {
    match x
    case Top =>
    case InL(up, n, r) => CountedFrame(m, m', up, Br(t, n, r), Br(t', n, r));
    case InR(up, l, n) => CountedFrame(m, m', up, Br(l, n, t), Br(l, n, t'));
  }

  lemma {:induction false} SwapBalanced(x: Ctx, t: Tree, t': Tree)
    requires Balanced(Plug(x, t)) && Balanced(t') && Height(t') == Height(t)
    ensures Balanced(Plug(x, t'))
  {
    match x
    case Top =>
    case InL(up, n, r) =>
      PlugBalanced(up, Br(t, n, r));
      SwapBalanced(up, Br(t, n, r), Br(t', n, r));
    case InR(up, l, n) =>
      PlugBalanced(up, Br(l, n, t));
      SwapBalanced(up, Br(l, n, t), Br(l, n, t'));
  }

  lemma {:induction false} PlugRoot(x: Ctx, t: Tree, t': Tree)
    requires !x.Top?
    ensures Plug(x, t).Br? && Root(Plug(x, t)) == Root(Plug(x, t'))
  {
    match x
    case InL(up, n, r) => if !up.Top? { PlugRoot(up, Br(t, n, r), Br(t', n, r)); }
    case InR(up, l, n) => if !up.Top? { PlugRoot(up, Br(l, n, t), Br(l, n, t')); }
  }

  /** The nodes in order around a hole are the nodes of the context. */
  lemma {:induction false} CtxOrderNodes(x: Ctx)
    ensures forall y :: y in Before(x) || y in After(x) <==> y in CtxNodes(x)
  {
    match x
    case Top =>
    case InL(up, n, r) => CtxOrderNodes(up); InorderNodes(r);
    case InR(up, l, n) => CtxOrderNodes(up); InorderNodes(l);
  }

  /** The place of a node in a tree. */
  lemma {:induction false} Locate(x: Ctx, t: Tree, node: AVLNode) returns (x': Ctx, l: Tree, r: Tree)
    requires node in Nodes(t)
    ensures Plug(x', Br(l, node, r)) == Plug(x, t)
    decreases t
  {
    if node == t.n {
      x', l, r := x, t.l, t.r;
    } else if node in Nodes(t.l) {
      x', l, r := Locate(InL(x, t.n, t.r), t.l, node);
    } else {
      x', l, r := Locate(InR(x, t.l, t.n), t.r, node);
    }
  }

  lemma {:induction false} SameSplit(b: seq<AVLNode>, a: seq<AVLNode>, b': seq<AVLNode>, a': seq<AVLNode>, n: AVLNode)
    requires b + [n] + a == b' + [n] + a' && n !in b && n !in b'
    ensures b == b' && a == a'
  {
    var q, q' := b + [n] + a, b' + [n] + a';
    assert q[|b|] == n && q'[|b'|] == n;
    assert forall i :: 0 <= i < |b| ==> q[i] == b[i];
    assert forall i :: 0 <= i < |b'| ==> q'[i] == b'[i];
    assert |b| == |b'|;
    assert b == q[..|b|] && b' == q'[..|b'|];
    assert a == q[|b| + 1..] && a' == q'[|b'| + 1..];
  }

  // ---- A node without a right child ----

  lemma {:induction false} HangLeftSubtree(m: Mem, x: Ctx, l: Tree, node: AVLNode)
    requires Whole(m, Plug(x, Br(l, node, Nil)))
    ensures node in m && Known(m, m[node].left) && m[node].left == Root(l) && m[node].right == null
    ensures m[node].parent == HoleParent(x)
    ensures var m1 := Adopted(m, Root(l), HoleParent(x));
            Rep(m1, l, HoleParent(x)) && RepCtx(m1, x, node) && Distinct(Plug(x, l))
            && (x.InR? ==> m1[x.n].left != node)
            && m1.Keys == m.Keys && forall y | y in m && y !in Nodes(l) :: m1[y] == m[y]
  {
    PlugNodes(x, Br(l, node, Nil));
    PlugNodes(x, l);
    RepPlug(m, x, Br(l, node, Nil));
    AdoptedRep(m, l, node, HoleParent(x));
    RepCtxFrame(m, Adopted(m, Root(l), HoleParent(x)), x, node);
  }

  lemma WithoutNil(x: Ctx, l: Tree)
    ensures Without(x, l, Nil) == Before(x) + Inorder(l) + After(x)
  {
  }

  lemma {:induction false} SplicedOut(x: Ctx, l: Tree, node: AVLNode)
    requires Distinct(Plug(x, Br(l, node, Nil))) && Balanced(Plug(x, Br(l, node, Nil)))
    ensures Inorder(FixUp(x, l)) == Without(x, l, Nil)
    ensures Distinct(FixUp(x, l)) && Balanced(FixUp(x, l))
    ensures Nodes(FixUp(x, l)) == Nodes(Plug(x, l)) <= Nodes(Plug(x, Br(l, node, Nil)))
  {
    PlugNodes(x, Br(l, node, Nil));
    PlugNodes(x, l);
    FixUpKeeps(x, l);
    PlugInorder(x, l);
    PlugBalanced(x, Br(l, node, Nil));
    FixUpBalanced(x, Br(l, node, Nil), l);
    WithoutNil(x, l);
  }

  /** The branch of avl_del for a node without a right child. */
  method SpliceOut(node: AVLNode, ghost x: Ctx, ghost l: Tree, ghost s: set<AVLNode>) returns (root: AVLNode?)
    requires Whole(Snap(s), Plug(x, Br(l, node, Nil)))
    modifies s`left, s`right, s`parent, s`depth, s`cnt
    ensures root == Root(FixUp(x, l)) && Rep(Snap(s), FixUp(x, l), null)
    ensures SameOutside(old(Snap(s)), Snap(s), Plug(x, l))
  {
    ghost var m0 := Snap(s);
    HangLeftSubtree(m0, x, l, node);
    PlugNodes(x, l);
    var parent := node.parent;
    SetParent(node.left, parent, s);
    if parent == null {
      return node.left;
    }
    var fromLeft := parent.left == node;
    StoreChild(parent, fromLeft, node.left, x, l, node, s);
    ghost var pl, pr := if x.InL? then l else x.l, if x.InL? then x.r else l;
    PlugNodes(x.up, Br(pl, x.n, pr));
    root := AvlFix(parent, x.up, pl, pr, s);
  }

  // ---- A node with a right child: its in-order successor takes its place ----

  /** The memory after `*victim = *node` and the relinking of the two children. */
  ghost function Copied(m: Mem, node: AVLNode, victim: AVLNode): Mem
    requires Family(m, node)
  {
    var m1 := m[victim := m[node]];
    Adopted(Adopted(m1, m[node].left, victim), m[node].right, victim)
  }

  lemma {:induction false} CopiedTree(m: Mem, l: Tree, node: AVLNode, r: Tree, p: AVLNode?, victim: AVLNode)
    requires Distinct(Br(l, node, r)) && Distinct(Br(l, victim, r)) && node != victim
    requires Rep(m, Br(l, node, r), p) && victim in m
    ensures Family(m, node) && m[node].left == Root(l) && m[node].right == Root(r)
    ensures var m' := Copied(m, node, victim);
            && Rep(m', Br(l, victim, r), p) && m'.Keys == m.Keys
            && (forall y | y in m && y != victim && y !in Nodes(l) && y !in Nodes(r) :: m'[y] == m[y])
  {
    assert m[node] == Cell(Root(l), Root(r), p, Height(Br(l, node, r)), Size(Br(l, node, r)));
    assert Rep(m, l, node) && Rep(m, r, node);
    var m1 := m[victim := m[node]];
    RepFrame(m, m1, l, node);
    RepFrame(m, m1, r, node);
    var m2 := Adopted(m1, Root(l), victim);
    AdoptedRep(m1, l, node, victim);
    RepFrame(m1, m2, r, node);
    var m' := Adopted(m2, Root(r), victim);
    AdoptedRep(m2, r, node, victim);
    RepFrame(m2, m', l, victim);
  }

  lemma {:induction false} CopiedRep(m: Mem, x: Ctx, l: Tree, node: AVLNode, r: Tree, victim: AVLNode)
    requires Whole(m, Plug(x, Br(l, node, r)))
    requires victim in m && victim !in Nodes(Plug(x, Br(l, node, r)))
    ensures Distinct(Plug(x, Br(l, victim, r))) && Balanced(Plug(x, Br(l, victim, r)))
    ensures Family(m, node) && m[node].left == Root(l) && m[node].right == Root(r) && m[node].parent == HoleParent(x)
    ensures var m' := Copied(m, node, victim);
            && Rep(m', Br(l, victim, r), HoleParent(x)) && RepCtx(m', x, node) && Counted(m', x, Br(l, victim, r))
            && m'.Keys == m.Keys
            && (forall y | y in m && y != victim && y !in Nodes(l) && y !in Nodes(r) :: m'[y] == m[y])
  {
    var t := Br(l, node, r);
    PlugNodes(x, t);
    PlugNodes(x, Br(l, victim, r));
    RepPlug(m, x, t);
    CopiedTree(m, l, node, r, HoleParent(x), victim);
    PlugBalanced(x, t);
    SwapBalanced(x, t, Br(l, victim, r));
    RepCtxFrame(m, Copied(m, node, victim), x, node);
    CountedFrame(m, Copied(m, node, victim), x, t, Br(l, victim, r));
  }

  lemma {:induction false} HungInParent(m: Mem, m': Mem, x: Ctx, t: Tree, was: AVLNode?)
    requires !x.Top? && Distinct(Plug(x, t)) && Balanced(Plug(x, t))
    requires Rep(m, t, x.n) && RepCtx(m, x, was) && Counted(m, x, t)
    requires m' == m[x.n := if x.InL? then m[x.n].(left := Root(t)) else m[x.n].(right := Root(t))]
    ensures Whole(m', Plug(x, t))
  {
    PlugNodes(x, t);
    RepFrame(m, m', t, x.n);
    RepFrame(m, m', if x.InL? then x.r else x.l, x.n);
    RepCtxFrame(m, m', x.up, x.n);
    CountedFrame(m, m', x, t, t);
    RepPlug(m', x, t);
  }

  /** `*victim = *node`, and the children of the copied node get their new parent. */
  method CopyNode(victim: AVLNode, node: AVLNode, ghost s: set<AVLNode>)
    requires Family(Snap(s), node) && victim in s && node != victim
    requires node.left != node && node.right != node && node.left != victim && node.right != victim
    modifies s`left, s`right, s`parent, s`depth, s`cnt
    ensures Snap(s) == Copied(old(Snap(s)), node, victim)
  {
    ghost var m, l, r := Snap(s), node.left, node.right;
    victim.depth, victim.cnt := node.depth, node.cnt;
    victim.left, victim.right, victim.parent := node.left, node.right, node.parent;
    ghost var m1 := Snap(s);
    assert m1 == m[victim := m[node]];
    SetParent(victim.left, victim, s);
    SetParent(victim.right, victim, s);
  }

  /** The end of avl_del: `victim`, already out of the tree, is put where `node` is. */
  method TakePlace(victim: AVLNode, node: AVLNode, root: AVLNode?,
                   ghost x: Ctx, ghost l: Tree, ghost r: Tree, ghost s: set<AVLNode>) returns (newRoot: AVLNode?)
    requires Whole(Snap(s), Plug(x, Br(l, node, r))) && root == Root(Plug(x, Br(l, node, r)))
    requires victim in s && victim !in Nodes(Plug(x, Br(l, node, r)))
    modifies s`left, s`right, s`parent, s`depth, s`cnt
    ensures Whole(Snap(s), Plug(x, Br(l, victim, r))) && newRoot == Root(Plug(x, Br(l, victim, r)))
    ensures SameOutside(old(Snap(s)), Snap(s), Plug(x, Br(l, victim, r)))
  {
    ghost var m0 := Snap(s);
    CopiedRep(m0, x, l, node, r, victim);
    PlugNodes(x, Br(l, node, r));
    PlugNodes(x, Br(l, victim, r));
    CopyNode(victim, node, s);
    newRoot := HangVictim(victim, node, root, x, l, r, s);
  }

  /** `if (parent) (parent->left == node ? parent->left : parent->right) = victim` and the returned root. */
  method HangVictim(victim: AVLNode, node: AVLNode, root: AVLNode?,
                    ghost x: Ctx, ghost l: Tree, ghost r: Tree, ghost s: set<AVLNode>) returns (newRoot: AVLNode?)
    requires var m := Snap(s);
             && Distinct(Plug(x, Br(l, victim, r))) && Balanced(Plug(x, Br(l, victim, r)))
             && Rep(m, Br(l, victim, r), HoleParent(x)) && RepCtx(m, x, node) && Counted(m, x, Br(l, victim, r))
    requires node.parent == HoleParent(x) && node !in CtxNodes(x) && root == Root(Plug(x, Br(l, node, r)))
    modifies s`left, s`right
    ensures Whole(Snap(s), Plug(x, Br(l, victim, r))) && newRoot == Root(Plug(x, Br(l, victim, r)))
    ensures forall y | y in s && y !in CtxNodes(x) :: CellOf(y) == old(CellOf(y))
  {
    ghost var m := Snap(s);
    var parent := node.parent;
    if parent != null {
      assert x.InR? ==> Root(x.l) != node by { if x.InR? { InorderNodes(x.l); } }
      if parent.left == node {
        parent.left := victim;
      } else {
        parent.right := victim;
      }
      HungInParent(m, Snap(s), x, Br(l, victim, r), node);
      PlugRoot(x, Br(l, node, r), Br(l, victim, r));
      newRoot := root;
    } else {
      newRoot := victim;
    }
  }

  // ---- avl_del ----

  /** The in-order successor of a node with a right child, and its place in the tree. */
  method Successor(node: AVLNode, ghost x: Ctx, ghost l: Tree, ghost r: Tree, ghost s: set<AVLNode>)
    returns (victim: AVLNode, ghost cx: Ctx, ghost vr: Tree)
    requires Whole(Snap(s), Plug(x, Br(l, node, r))) && r.Br?
    ensures Plug(cx, Br(Nil, victim, vr)) == Plug(x, Br(l, node, r))
    ensures Before(cx) == Left(x, l) + [node]
    ensures Size(vr) < Size(r) && victim in s
  {
    ghost var m, t := Snap(s), Plug(x, Br(l, node, r));
    RepPlug(m, x, Br(l, node, r));
    assert m[node].right == r.n;
    victim := node.right;
    cx, vr := InR(x, l, node), r.r;
    ghost var vl := r.l;
    RepPlug(m, cx, r);
    while victim.left != null
      invariant Plug(cx, Br(vl, victim, vr)) == t
      invariant Before(cx) == Left(x, l) + [node]
      invariant Size(Br(vl, victim, vr)) <= Size(r)
      invariant victim in m && m[victim].left == Root(vl)
      decreases vl
    {
      RepPlug(m, cx, Br(vl, victim, vr));
      assert Rep(m, vl, victim) && vl.n in m;
      cx, vr := InL(cx, victim, vr), vl.r;
      victim := victim.left;
      vl := vl.l;
    }
  }

  ghost function Left(x: Ctx, l: Tree): seq<AVLNode> { Before(x) + Inorder(l) }

  ghost function Right(x: Ctx, r: Tree): seq<AVLNode> { Inorder(r) + After(x) }

  lemma {:induction false} PlugOrder(x: Ctx, l: Tree, n: AVLNode, r: Tree)
    ensures Inorder(Plug(x, Br(l, n, r))) == Left(x, l) + [n] + Right(x, r)
  {
    PlugInorder(x, Br(l, n, r));
    assert Before(x) + (Inorder(l) + [n] + Inorder(r)) + After(x) == Left(x, l) + [n] + Right(x, r);
  }

  /** In a tree of distinct nodes, the nodes before and after `n` are neither `n` nor each other. */
  lemma {:induction false} PlugSides(x: Ctx, l: Tree, n: AVLNode, r: Tree)
    requires Distinct(Plug(x, Br(l, n, r)))
    ensures n !in Left(x, l) && n !in Right(x, r)
  {
    PlugNodes(x, Br(l, n, r));
    CtxOrderNodes(x);
    InorderNodes(l);
    InorderNodes(r);
  }

  /** The order after `victim` has taken the place of `node`. */
  lemma {:induction false} ReplacedOrder(x: Ctx, l: Tree, node: AVLNode, r: Tree, victim: AVLNode,
                                         b: seq<AVLNode>, a: seq<AVLNode>)
    requires Distinct(Plug(x, Br(l, node, r)))
    requires Inorder(Plug(x, Br(l, node, r))) == b + [node] + a && node !in b
    ensures Inorder(Plug(x, Br(l, victim, r))) == b + [victim] + a
  {
    PlugOrder(x, l, node, r);
    PlugOrder(x, l, victim, r);
    PlugSides(x, l, node, r);
    SameSplit(Left(x, l), Right(x, r), b, a, node);
  }

  /** Everything but `node`, in order. */
  ghost function Without(x: Ctx, l: Tree, r: Tree): seq<AVLNode> {
    Left(x, l) + Right(x, r)
  }

  method AvlDel(node: AVLNode, ghost x: Ctx, ghost l: Tree, ghost r: Tree, ghost s: set<AVLNode>)
    returns (root: AVLNode?, ghost t': Tree)
    requires Whole(Snap(s), Plug(x, Br(l, node, r)))
    modifies s`left, s`right, s`parent, s`depth, s`cnt
    ensures Whole(Snap(s), t') && root == Root(t')
    ensures Inorder(t') == Without(x, l, r)
    ensures SameOutside(old(Snap(s)), Snap(s), Plug(x, Br(l, node, r)))
    decreases Size(r)
  {
    ghost var t := Plug(x, Br(l, node, r));
    RepPlug(Snap(s), x, Br(l, node, r));
    PlugNodes(x, Br(l, node, r));
    assert Snap(s)[node].right == Root(r);
    if node.right == null {
      SplicedOut(x, l, node);
      root := SpliceOut(node, x, l, s);
      t' := FixUp(x, l);
    } else {
      var victim;
      ghost var cx, vr, t1;
      victim, cx, vr := Successor(node, x, l, r, s);
      root, t1 := AvlDel(victim, cx, Nil, vr, s);
      ghost var x1, l1, r1 := SuccessorPlace(x, l, node, r, cx, victim, vr, t1);
      root := TakePlace(victim, node, root, x1, l1, r1, s);
      t' := Plug(x1, Br(l1, victim, r1));
    }
  }

  /** The nodes around a node and its successor. */
  lemma {:induction false} SuccessorSides(x: Ctx, l: Tree, node: AVLNode, r: Tree, cx: Ctx, victim: AVLNode, vr: Tree)
    requires Distinct(Plug(x, Br(l, node, r))) && Plug(cx, Br(Nil, victim, vr)) == Plug(x, Br(l, node, r))
    requires Before(cx) == Left(x, l) + [node]
    ensures Right(x, r) == [victim] + Right(cx, vr)
    ensures Without(cx, Nil, vr) == Left(x, l) + [node] + Right(cx, vr)
    ensures node !in Left(x, l) && victim !in Without(cx, Nil, vr)
  {
    PlugOrder(x, l, node, r);
    PlugOrder(cx, Nil, victim, vr);
    PlugSides(x, l, node, r);
    PlugSides(cx, Nil, victim, vr);
    assert Left(cx, Nil) == Left(x, l) + [node];
    var b, a := Left(x, l), [victim] + Right(cx, vr);
    assert b + [node] + [victim] + Right(cx, vr) == b + [node] + a;
    SameSplit(b, Right(x, r), b, a, node);
  }

  /** Where `node` is once its successor is out of the tree, whatever rotations the removal made. */
  lemma {:induction false} SuccessorPlace(x: Ctx, l: Tree, node: AVLNode, r: Tree, cx: Ctx, victim: AVLNode, vr: Tree, t1: Tree)
    returns (x1: Ctx, l1: Tree, r1: Tree)
    requires Distinct(Plug(x, Br(l, node, r))) && Plug(cx, Br(Nil, victim, vr)) == Plug(x, Br(l, node, r))
    requires Before(cx) == Left(x, l) + [node]
    requires Distinct(t1) && Inorder(t1) == Without(cx, Nil, vr)
    ensures t1 == Plug(x1, Br(l1, node, r1))
    ensures Nodes(Plug(x1, Br(l1, victim, r1))) <= Nodes(Plug(x, Br(l, node, r)))
    ensures victim !in Nodes(t1)
    ensures Inorder(Plug(x1, Br(l1, victim, r1))) == Without(x, l, r)
  {
    SuccessorSides(x, l, node, r, cx, victim, vr);
    InorderNodes(t1);
    assert (Left(x, l) + [node] + Right(cx, vr))[|Left(x, l)|] == node;
    x1, l1, r1 := Locate(Top, t1, node);
    ReplacedOrder(x1, l1, node, r1, victim, Left(x, l), Right(cx, vr));
    assert Left(x, l) + [victim] + Right(cx, vr) == Left(x, l) + ([victim] + Right(cx, vr));
    WithoutNodes(x, l, node, r, Plug(x1, Br(l1, victim, r1)));
  }

  /** Removing a node leaves a subset of the nodes. */
  lemma {:induction false} WithoutNodes(x: Ctx, l: Tree, node: AVLNode, r: Tree, t': Tree)
    requires Inorder(t') == Without(x, l, r)
    ensures Nodes(t') <= Nodes(Plug(x, Br(l, node, r)))
  {
    InorderNodes(t');
    InorderNodes(Plug(x, Br(l, node, r)));
    PlugOrder(x, l, node, r);
    var b, a := Left(x, l), Right(x, r);
    assert Elems(b + a) <= Elems(b + [node] + a);
  }
}
