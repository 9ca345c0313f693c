/** Rotations and avl_fix of build_redis/chapter11/avl.hpp on the linked nodes. */
module AvlTree {
  import opened AvlShapes

  /** The links and counters of one node, and of a set of nodes, as values. */
  datatype Cell = Cell(left: AVLNode?, right: AVLNode?, parent: AVLNode?, depth: nat, cnt: nat)

  type Mem = map<AVLNode, Cell>

  ghost function CellOf(x: AVLNode): Cell
    reads x`left, x`right, x`parent, x`depth, x`cnt
  {
    Cell(x.left, x.right, x.parent, x.depth, x.cnt)
  }

  ghost function Snap(s: set<AVLNode>): (m: Mem)
    reads s`left, s`right, s`parent, s`depth, s`cnt
  {
    map x | x in s :: CellOf(x)
  }

  /** The linked nodes below `p` are exactly the tree `t`: child and parent links, depth and cnt. */
  ghost predicate Rep(m: Mem, t: Tree, p: AVLNode?) {
    t.Br? ==>
      && t.n in m && m[t.n] == Cell(Root(t.l), Root(t.r), p, Height(t), Size(t))
      && Rep(m, t.l, t.n) && Rep(m, t.r, t.n)
  }

  /** The linked nodes around a hole in which the pointer `c` is stored. The depth and cnt of the
      ancestors of the hole are not constrained: avl_fix recomputes them on its way up. */
  ghost predicate RepCtx(m: Mem, x: Ctx, c: AVLNode?) {
    match x
    case Top => true
    case InL(up, n, r) =>
      && n in m && m[n].left == c && m[n].right == Root(r) && m[n].parent == HoleParent(up)
      && Rep(m, r, n) && RepCtx(m, up, n)
    case InR(up, l, n) =>
      && n in m && m[n].right == c && m[n].left == Root(l) && m[n].parent == HoleParent(up)
      && Rep(m, l, n) && RepCtx(m, up, n)
  }

  lemma {:induction false} RepFrame(m: Mem, m': Mem, t: Tree, p: AVLNode?)
    requires Rep(m, t, p)
    requires forall x | x in Nodes(t) && x in m :: x in m' && m'[x] == m[x]
    ensures Rep(m', t, p)
  {
    if t.Br? {
      RepFrame(m, m', t.l, t.n);
      RepFrame(m, m', t.r, t.n);
    }
  }

  lemma {:induction false} RepCtxFrame(m: Mem, m': Mem, x: Ctx, c: AVLNode?)
    requires RepCtx(m, x, c)
    requires forall y | y in CtxNodes(x) && y in m :: y in m' && m'[y] == m[y]
    ensures RepCtx(m', x, c)
  {
    match x
    case Top =>
    case InL(up, n, r) => RepFrame(m, m', r, n); RepCtxFrame(m, m', up, n);
    case InR(up, l, n) => RepFrame(m, m', l, n); RepCtxFrame(m, m', up, n);
  }

  // ---- The steps of the code, as functions on memory ----

  ghost predicate Known(m: Mem, p: AVLNode?) { p == null || p in m }

  ghost function DepthIn(m: Mem, p: AVLNode?): nat
    requires Known(m, p)
  {
    if p == null then 0 else m[p].depth
  }

  ghost function CntIn(m: Mem, p: AVLNode?): nat
    requires Known(m, p)
  {
    if p == null then 0 else m[p].cnt
  }

  /** The node and its children are in `m`. */
  ghost predicate Family(m: Mem, x: AVLNode) {
    x in m && Known(m, m[x].left) && Known(m, m[x].right)
  }

  ghost function Updated(m: Mem, x: AVLNode): Mem
    requires Family(m, x)
  {
    var c := m[x];
    m[x := c.(depth := 1 + Max(DepthIn(m, c.left), DepthIn(m, c.right)), cnt := 1 + CntIn(m, c.left) + CntIn(m, c.right))]
  }

  /** `if (child) child->parent = p` */
  ghost function Adopted(m: Mem, child: AVLNode?, p: AVLNode?): Mem
    requires Known(m, child)
  {
    if child == null then m else m[child := m[child].(parent := p)]
  }

  ghost predicate CanRotateLeft(m: Mem, x: AVLNode) {
    && Family(m, x) && m[x].right != null && m[x].right != x && m[x].left != x
    && Family(m, m[x].right)
    && var y := m[x].right; m[y].left != x && m[y].right != x && m[y].left != y && m[y].right != y && m[x].left != y
  }

  /** The links after rot_left, before the counters are updated. */
  ghost function LeftLinked(m: Mem, x: AVLNode): (r: Mem)
    requires CanRotateLeft(m, x)
  {
    var y := m[x].right;
    var m1 := Adopted(m, m[y].left, x);
    m1[x := m1[x].(right := m[y].left, parent := y)][y := m1[y].(left := x, parent := m[x].parent)]
  }

  ghost predicate CanRotateRight(m: Mem, x: AVLNode) {
    && Family(m, x) && m[x].left != null && m[x].left != x && m[x].right != x
    && Family(m, m[x].left)
    && var y := m[x].left; m[y].left != x && m[y].right != x && m[y].left != y && m[y].right != y && m[x].right != y
  }

  ghost function RightLinked(m: Mem, x: AVLNode): (r: Mem)
    requires CanRotateRight(m, x)
  {
    var y := m[x].left;
    var m1 := Adopted(m, m[y].right, x);
    m1[x := m1[x].(left := m[y].right, parent := y)][y := m1[y].(right := x, parent := m[x].parent)]
  }

  /** The node `n` with its two subtrees; its own depth and cnt may be stale. */
  ghost predicate RepLoose(m: Mem, l: Tree, n: AVLNode, r: Tree) {
    && n in m && m[n].left == Root(l) && m[n].right == Root(r)
    && Rep(m, l, n) && Rep(m, r, n)
  }

  /** Outside `t`, `m'` is `m`. */
  ghost predicate SameOutside(m: Mem, m': Mem, t: Tree) {
    m'.Keys == m.Keys && forall x | x in m && x !in Nodes(t) :: m'[x] == m[x]
  }

  lemma {:induction false} AdoptedRep(m: Mem, t: Tree, was: AVLNode?, p: AVLNode?)
    requires Distinct(t) && Rep(m, t, was)
    ensures Rep(Adopted(m, Root(t), p), t, p)
  {
    if t.Br? {
      RepFrame(m, Adopted(m, t.n, p), t.l, t.n);
      RepFrame(m, Adopted(m, t.n, p), t.r, t.n);
    }
  }

  lemma {:induction false} UpdatedRep(m: Mem, l: Tree, n: AVLNode, r: Tree)
    requires Distinct(Br(l, n, r)) && RepLoose(m, l, n, r)
    ensures Family(m, n) && Rep(Updated(m, n), Br(l, n, r), m[n].parent)
  {
    RepFrame(m, Updated(m, n), l, n);
    RepFrame(m, Updated(m, n), r, n);
  }

  lemma {:induction false} RotateLeftRep(m: Mem, l: Tree, x: AVLNode, r: Tree)
    requires Distinct(Br(l, x, r)) && RepLoose(m, l, x, r) && r.Br?
    ensures CanRotateLeft(m, x) && m[x].right == r.n
    ensures var m' := LeftLinked(m, x);
            && Family(m', x) && Family(Updated(m', x), r.n)
            && var m'' := Updated(Updated(m', x), r.n);
            Rep(m'', RotLeft(l, x, r), m[x].parent) && SameOutside(m, m'', Br(l, x, r))
  {
    var b, c, y := r.l, r.r, r.n;
    assert Rep(m, b, y) && Rep(m, c, y);
    var m1 := Adopted(m, Root(b), x);
    AdoptedRep(m, b, y, x);
    var m2 := LeftLinked(m, x);
    RepFrame(m, m2, l, x);
    RepFrame(m1, m2, b, x);
    RepFrame(m, m2, c, y);
    UpdatedRep(m2, l, x, b);
    RepFrame(m2, Updated(m2, x), c, y);
    UpdatedRep(Updated(m2, x), Br(l, x, b), y, c);
  }

  lemma {:induction false} RotateRightRep(m: Mem, l: Tree, x: AVLNode, r: Tree)
    requires Distinct(Br(l, x, r)) && RepLoose(m, l, x, r) && l.Br?
    ensures CanRotateRight(m, x) && m[x].left == l.n
    ensures var m' := RightLinked(m, x);
            && Family(m', x) && Family(Updated(m', x), l.n)
            && var m'' := Updated(Updated(m', x), l.n);
            Rep(m'', RotRight(l, x, r), m[x].parent) && SameOutside(m, m'', Br(l, x, r))
  {
    var a, b, y := l.l, l.r, l.n;
    assert Rep(m, a, y) && Rep(m, b, y);
    var m1 := Adopted(m, Root(b), x);
    AdoptedRep(m, b, y, x);
    var m2 := RightLinked(m, x);
    RepFrame(m, m2, r, x);
    RepFrame(m1, m2, b, x);
    RepFrame(m, m2, a, y);
    UpdatedRep(m2, b, x, r);
    RepFrame(m2, Updated(m2, x), a, y);
    UpdatedRep(Updated(m2, x), a, y, Br(b, x, r));
  }

  /** Storing a rebuilt left subtree `l'` in `x->left`. */
  lemma {:induction false} StoreLeft(m: Mem, m1: Mem, l: Tree, l': Tree, x: AVLNode, r: Tree)
    requires Distinct(Br(l, x, r)) && RepLoose(m, l, x, r)
    requires Nodes(l') == Nodes(l) && Distinct(l') && SameOutside(m, m1, l) && Rep(m1, l', x)
    ensures var m2 := m1[x := m1[x].(left := Root(l'))];
            && Distinct(Br(l', x, r)) && RepLoose(m2, l', x, r)
            && m2[x].parent == m[x].parent && SameOutside(m, m2, Br(l, x, r))
  {
    var m2 := m1[x := m1[x].(left := Root(l'))];
    RepFrame(m1, m2, l', x);
    RepFrame(m, m2, r, x);
  }

  lemma {:induction false} StoreRight(m: Mem, m1: Mem, l: Tree, x: AVLNode, r: Tree, r': Tree)
    requires Distinct(Br(l, x, r)) && RepLoose(m, l, x, r)
    requires Nodes(r') == Nodes(r) && Distinct(r') && SameOutside(m, m1, r) && Rep(m1, r', x)
    ensures var m2 := m1[x := m1[x].(right := Root(r'))];
            && Distinct(Br(l, x, r')) && RepLoose(m2, l, x, r')
            && m2[x].parent == m[x].parent && SameOutside(m, m2, Br(l, x, r))
  {
    var m2 := m1[x := m1[x].(right := Root(r'))];
    RepFrame(m1, m2, r', x);
    RepFrame(m, m2, l, x);
  }

  // ---- The code ----

  function Depth(node: AVLNode?): nat
    reads node
  {
    if node == null then 0 else node.depth
  }

  function Cnt(node: AVLNode?): nat
    reads node
  {
    if node == null then 0 else node.cnt
  }

  /** `if (child) child->parent = p` */
  method SetParent(child: AVLNode?, p: AVLNode?, ghost s: set<AVLNode>)
    requires Known(Snap(s), child)
    modifies s`parent
    ensures Snap(s) == Adopted(old(Snap(s)), child, p)
  {
    if child != null {
      child.parent := p;
    }
  }

  method Update(node: AVLNode, ghost s: set<AVLNode>)
    requires Family(Snap(s), node) && node.left != node && node.right != node
    modifies node`depth, node`cnt
    ensures Snap(s) == Updated(old(Snap(s)), node)
  {
    var l, r := Depth(node.left), Depth(node.right);
    node.depth := 1 + if l < r then r else l;
    node.cnt := 1 + Cnt(node.left) + Cnt(node.right);
  }

  /** The assignments of rot_left. */
  method LinkLeft(node: AVLNode, ghost s: set<AVLNode>) returns (newNode: AVLNode)
    requires CanRotateLeft(Snap(s), node)
    modifies s`left, s`right, s`parent, s`depth, s`cnt
    ensures newNode == old(node.right)
    ensures Snap(s) == Updated(Updated(LeftLinked(old(Snap(s)), node), node), newNode)
  {
    newNode := node.right;
    SetParent(newNode.left, node, s);
    node.right := newNode.left;
    newNode.left := node;
    newNode.parent := node.parent;
    node.parent := newNode;
    assert Snap(s) == LeftLinked(old(Snap(s)), node);
    Update(node, s);
    Update(newNode, s);
  }

  method RotateLeft(node: AVLNode, ghost l: Tree, ghost r: Tree, ghost s: set<AVLNode>) returns (newNode: AVLNode)
    requires Distinct(Br(l, node, r)) && RepLoose(Snap(s), l, node, r) && r.Br?
    modifies s`left, s`right, s`parent, s`depth, s`cnt
    ensures newNode == r.n
    ensures Rep(Snap(s), RotLeft(l, node, r), old(node.parent))
    ensures SameOutside(old(Snap(s)), Snap(s), Br(l, node, r))
  {
    RotateLeftRep(Snap(s), l, node, r);
    newNode := LinkLeft(node, s);
  }

  /** The assignments of rot_right. */
  method LinkRight(node: AVLNode, ghost s: set<AVLNode>) returns (newNode: AVLNode)
    requires CanRotateRight(Snap(s), node)
    modifies s`left, s`right, s`parent, s`depth, s`cnt
    ensures newNode == old(node.left)
    ensures Snap(s) == Updated(Updated(RightLinked(old(Snap(s)), node), node), newNode)
  {
    newNode := node.left;
    SetParent(newNode.right, node, s);
    node.left := newNode.right;
    newNode.right := node;
    newNode.parent := node.parent;
    node.parent := newNode;
    assert Snap(s) == RightLinked(old(Snap(s)), node);
    Update(node, s);
    Update(newNode, s);
  }

  method RotateRight(node: AVLNode, ghost l: Tree, ghost r: Tree, ghost s: set<AVLNode>) returns (newNode: AVLNode)
    requires Distinct(Br(l, node, r)) && RepLoose(Snap(s), l, node, r) && l.Br?
    modifies s`left, s`right, s`parent, s`depth, s`cnt
    ensures newNode == l.n
    ensures Rep(Snap(s), RotRight(l, node, r), old(node.parent))
    ensures SameOutside(old(Snap(s)), Snap(s), Br(l, node, r))
  {
    RotateRightRep(Snap(s), l, node, r);
    newNode := LinkRight(node, s);
  }

  /** `root->left = rot_left(root->left)` */
  method RotateLeftChild(root: AVLNode, ghost l: Tree, ghost r: Tree, ghost s: set<AVLNode>)
    requires Distinct(Br(l, root, r)) && RepLoose(Snap(s), l, root, r) && l.Br? && l.r.Br?
    modifies s`left, s`right, s`parent, s`depth, s`cnt
    ensures var l' := RotLeft(l.l, l.n, l.r);
            && Distinct(Br(l', root, r)) && RepLoose(Snap(s), l', root, r) && root.parent == old(root.parent)
            && SameOutside(old(Snap(s)), Snap(s), Br(l, root, r)) && Nodes(l') == Nodes(l)
  {
    ghost var m0 := Snap(s);
    assert root.left == l.n && root in s;
    RotationKeeps(l.l, l.n, l.r.l, l.r.n, l.r.r);
    var t := RotateLeft(root.left, l.l, l.r, s);
    ghost var m1 := Snap(s);
    root.left := t;
    assert Snap(s) == m1[root := m1[root].(left := t)];
    StoreLeft(m0, m1, l, RotLeft(l.l, l.n, l.r), root, r);
  }

  /** `root->right = rot_right(root->right)` */
  method RotateRightChild(root: AVLNode, ghost l: Tree, ghost r: Tree, ghost s: set<AVLNode>)
    requires Distinct(Br(l, root, r)) && RepLoose(Snap(s), l, root, r) && r.Br? && r.l.Br?
    modifies s`left, s`right, s`parent, s`depth, s`cnt
    ensures var r' := RotRight(r.l, r.n, r.r);
            && Distinct(Br(l, root, r')) && RepLoose(Snap(s), l, root, r') && root.parent == old(root.parent)
            && SameOutside(old(Snap(s)), Snap(s), Br(l, root, r)) && Nodes(r') == Nodes(r)
  {
    ghost var m0 := Snap(s);
    assert root.right == r.n && root in s;
    RotationKeeps(r.l.l, r.l.n, r.l.r, r.n, r.r);
    var t := RotateRight(root.right, r.l, r.r, s);
    ghost var m1 := Snap(s);
    root.right := t;
    assert Snap(s) == m1[root := m1[root].(right := t)];
    StoreRight(m0, m1, l, root, r, RotRight(r.l, r.n, r.r));
  }

  lemma {:induction false} Grandchildren(m: Mem, t: Tree, p: AVLNode?)
    requires Rep(m, t, p) && t.Br?
    ensures Known(m, m[t.n].left) && Known(m, m[t.n].right)
    ensures DepthIn(m, m[t.n].left) == Height(t.l) && DepthIn(m, m[t.n].right) == Height(t.r)
  {
  }

  method AvlFixLeft(root: AVLNode, ghost l: Tree, ghost r: Tree, ghost s: set<AVLNode>) returns (newRoot: AVLNode)
    requires Distinct(Br(l, root, r)) && RepLoose(Snap(s), l, root, r) && l.Br?
    requires Height(l) == Height(r) + 2
    modifies s`left, s`right, s`parent, s`depth, s`cnt
    ensures newRoot == FixLeft(l, root, r).n
    ensures Rep(Snap(s), FixLeft(l, root, r), old(root.parent))
    ensures SameOutside(old(Snap(s)), Snap(s), Br(l, root, r))
  {
    ghost var m0, l' := Snap(s), l;
    assert m0[root].left == l.n && root in s && l.n in s;
    Grandchildren(m0, l, root);
    if Depth(root.left.left) < Depth(root.left.right) {
      RotateLeftChild(root, l, r, s);
      l' := RotLeft(l.l, l.n, l.r);
    }
    newRoot := RotateRight(root, l', r, s);
  }

  method AvlFixRight(root: AVLNode, ghost l: Tree, ghost r: Tree, ghost s: set<AVLNode>) returns (newRoot: AVLNode)
    requires Distinct(Br(l, root, r)) && RepLoose(Snap(s), l, root, r) && r.Br?
    requires Height(l) + 2 == Height(r)
    modifies s`left, s`right, s`parent, s`depth, s`cnt
    ensures newRoot == FixRight(l, root, r).n
    ensures Rep(Snap(s), FixRight(l, root, r), old(root.parent))
    ensures SameOutside(old(Snap(s)), Snap(s), Br(l, root, r))
  {
    ghost var m0, r' := Snap(s), r;
    assert m0[root].right == r.n && root in s && r.n in s;
    Grandchildren(m0, r, root);
    if Depth(root.right.right) < Depth(root.right.left) {
      RotateRightChild(root, l, r, s);
      r' := RotRight(r.l, r.n, r.r);
    }
    newRoot := RotateLeft(root, l, r', s);
  }

  /** The memory `m` at the start of a round of avl_fix: everything but the ancestors' counters is in place. */
  ghost predicate Fixable(m: Mem, x: Ctx, l: Tree, node: AVLNode, r: Tree) {
    && Distinct(Plug(x, Br(l, node, r)))
    && RepLoose(m, l, node, r) && m[node].parent == HoleParent(x) && RepCtx(m, x, node)
  }

  lemma {:induction false} ClimbLeft(m: Mem, up: Ctx, n: AVLNode, r: Tree, here: Tree, was: AVLNode?)
    requires Distinct(Plug(InL(up, n, r), here))
    requires RepCtx(m, InL(up, n, r), was) && Rep(m, here, n)
    ensures Fixable(m[n := m[n].(left := Root(here))], up, here, n, r)
  {
    var m2 := m[n := m[n].(left := Root(here))];
    PlugNodes(InL(up, n, r), here);
    RepFrame(m, m2, here, n);
    RepFrame(m, m2, r, n);
    RepCtxFrame(m, m2, up, n);
  }

  lemma {:induction false} ClimbRight(m: Mem, up: Ctx, l: Tree, n: AVLNode, here: Tree, was: AVLNode?)
    requires Distinct(Plug(InR(up, l, n), here))
    requires RepCtx(m, InR(up, l, n), was) && Rep(m, here, n)
    ensures Fixable(m[n := m[n].(right := Root(here))], up, l, n, here)
  {
    var m2 := m[n := m[n].(right := Root(here))];
    PlugNodes(InR(up, l, n), here);
    RepFrame(m, m2, here, n);
    RepFrame(m, m2, l, n);
    RepCtxFrame(m, m2, up, n);
  }

  /** One round of avl_fix at `node`, without the links from the parent. */
  method FixHere(start: AVLNode, ghost x: Ctx, ghost l: Tree, ghost r: Tree, ghost s: set<AVLNode>) returns (node: AVLNode)
    requires Fixable(Snap(s), x, l, start, r)
    modifies s`left, s`right, s`parent, s`depth, s`cnt
    ensures node == FixNode(l, start, r).n
    ensures Rep(Snap(s), FixNode(l, start, r), HoleParent(x))
    ensures SameOutside(old(Snap(s)), Snap(s), Br(l, start, r))
  {
    ghost var m0 := Snap(s);
    PlugNodes(x, Br(l, start, r));
    node := start;
    UpdatedRep(m0, l, node, r);
    Update(node, s);
    ghost var m1 := Snap(s);
    assert RepLoose(m1, l, node, r);
    var ld := Depth(node.left);
    var rd := Depth(node.right);
    assert ld == Height(l) && rd == Height(r);
    if ld == rd + 2 {
      node := AvlFixLeft(node, l, r, s);
    } else if ld + 2 == rd {
      node := AvlFixRight(node, l, r, s);
    }
  }

  /** What holds once the rebuilt subtree `here` hangs in the hole of `x`. */
  ghost predicate Climbed(m: Mem, x: Ctx, here: Tree) {
    match x
    case Top => Rep(m, here, null)
    case InL(up, n, q) => Fixable(m, up, here, n, q)
    case InR(up, q, n) => Fixable(m, up, q, n, here)
  }

  /** `*from = node` */
  method StoreChild(parent: AVLNode, fromLeft: bool, node: AVLNode?,
                    ghost x: Ctx, ghost here: Tree, ghost was: AVLNode, ghost s: set<AVLNode>)
    requires !x.Top? && parent == x.n && (fromLeft <==> x.InL?) && Root(here) == node
    requires Distinct(Plug(x, here)) && RepCtx(Snap(s), x, was) && Rep(Snap(s), here, parent)
    modifies parent`left, parent`right
    ensures Climbed(Snap(s), x, here)
    ensures forall y | y in s && y != parent :: CellOf(y) == old(CellOf(y))
  {
    ghost var m := Snap(s);
    if fromLeft {
      ClimbLeft(m, x.up, x.n, x.r, here, was);
      parent.left := node;
      assert Snap(s) == m[x.n := m[x.n].(left := node)];
    } else {
      ClimbRight(m, x.up, x.l, x.n, here, was);
      parent.right := node;
      assert Snap(s) == m[x.n := m[x.n].(right := node)];
    }
  }

  /** `from`, as the side of the parent on which the node hangs. */
  lemma {:induction false} Side(m: Mem, x: Ctx, l: Tree, node: AVLNode, r: Tree)
    requires Fixable(m, x, l, node, r) && !x.Top?
    ensures x.n in m && x.n == m[node].parent && (m[x.n].left == node <==> x.InL?)
  {
    PlugNodes(x, Br(l, node, r));
  }

  /** One round of avl_fix in full: rebalance at `start` and store the result in its parent, if any. */
  method FixStep(start: AVLNode, ghost x: Ctx, ghost l: Tree, ghost r: Tree, ghost s: set<AVLNode>)
    returns (node: AVLNode, parent: AVLNode?)
    requires Fixable(Snap(s), x, l, start, r)
    modifies s`left, s`right, s`parent, s`depth, s`cnt
    ensures parent == HoleParent(x)
    ensures node == FixNode(l, start, r).n
    ensures SameOutside(old(Snap(s)), Snap(s), Plug(x, Br(l, start, r)))
    ensures Climbed(Snap(s), x, FixNode(l, start, r))
  {
    ghost var m0, here := Snap(s), FixNode(l, start, r);
    FixNodeKeeps(l, start, r);
    PlugNodes(x, Br(l, start, r));
    PlugNodes(x, here);
    if !x.Top? {
      Side(m0, x, l, start, r);
    }
    parent := start.parent;
    var fromLeft := parent != null && parent.left == start;
    node := FixHere(start, x, l, r, s);
    if parent != null {
      RepCtxFrame(m0, Snap(s), x, start);
      StoreChild(parent, fromLeft, node, x, here, start, s);
    }
  }

  /** avl_fix: rebalance from `start` up to the root. */
  method AvlFix(start: AVLNode, ghost x: Ctx, ghost l: Tree, ghost r: Tree, ghost s: set<AVLNode>) returns (root: AVLNode)
    requires Fixable(Snap(s), x, l, start, r)
    modifies s`left, s`right, s`parent, s`depth, s`cnt
    ensures root == Root(FixUp(x, FixNode(l, start, r)))
    ensures Rep(Snap(s), FixUp(x, FixNode(l, start, r)), null)
    ensures SameOutside(old(Snap(s)), Snap(s), Plug(x, Br(l, start, r)))
  {
    var node: AVLNode := start;
    ghost var cx, cl, cr := x, l, r;
    while true
      invariant Fixable(Snap(s), cx, cl, node, cr)
      invariant FixUp(cx, FixNode(cl, node, cr)) == FixUp(x, FixNode(l, start, r))
      invariant Nodes(Plug(cx, Br(cl, node, cr))) == Nodes(Plug(x, Br(l, start, r)))
      invariant SameOutside(old(Snap(s)), Snap(s), Plug(x, Br(l, start, r)))
      decreases cx
    {
      ghost var here := FixNode(cl, node, cr);
      FixNodeKeeps(cl, node, cr);
      PlugNodes(cx, Br(cl, node, cr));
      PlugNodes(cx, here);
      var parent;
      node, parent := FixStep(node, cx, cl, cr, s);
      if parent == null {
        return node;
      }
      node := parent;
      match cx {
        case Top =>
        case InL(up, n, q) => cx, cl, cr := up, here, q;
        case InR(up, q, n) => cx, cl, cr := up, q, here;
      }
    }
  }
}
