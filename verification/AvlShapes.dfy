/** The AVL tree of build_redis/chapter11/avl.hpp: nodes, the ghost trees that describe them,
    and the effect of each operation on those trees. */
module AvlShapes {
  import opened Bytes

  /** The record a tree node is embedded in, which `container_of` reaches. */
  datatype Record = Data(val: nat) | ZNode(score: real, name: bytes)

  class AVLNode {
    var depth: nat
    var cnt: nat
    var left: AVLNode?
    var right: AVLNode?
    var parent: AVLNode?
    var record: Record

    /** avl_init, on the node of a new record */
    constructor (record: Record)
      ensures depth == 1 && cnt == 1 && left == null && right == null && parent == null
      ensures this.record == record
    {
      depth, cnt := 1, 1;
      left, right, parent := null, null, null;
      this.record := record;
    }
  }

  /** A tree of node identities. */
  datatype Tree = Nil | Br(l: Tree, n: AVLNode, r: Tree)

  /** A tree with a hole: the hole is the left or the right child of `n`. */
  datatype Ctx = Top | InL(up: Ctx, n: AVLNode, r: Tree) | InR(up: Ctx, l: Tree, n: AVLNode)

  ghost function Max(a: nat, b: nat): nat { if a < b then b else a }

  ghost function Height(t: Tree): nat {
    if t.Nil? then 0 else 1 + Max(Height(t.l), Height(t.r))
  }

  ghost function Size(t: Tree): nat {
    if t.Nil? then 0 else 1 + Size(t.l) + Size(t.r)
  }

  ghost function Inorder(t: Tree): seq<AVLNode> {
    if t.Nil? then [] else Inorder(t.l) + [t.n] + Inorder(t.r)
  }

  ghost function Nodes(t: Tree): set<AVLNode> {
    if t.Nil? then {} else Nodes(t.l) + {t.n} + Nodes(t.r)
  }

  ghost predicate Distinct(t: Tree) {
    t.Br? ==>
      && t.n !in Nodes(t.l) && t.n !in Nodes(t.r) && Nodes(t.l) !! Nodes(t.r)
      && Distinct(t.l) && Distinct(t.r)
  }

  ghost predicate Balanced(t: Tree) {
    t.Br? ==>
      && Height(t.l) <= Height(t.r) + 1 && Height(t.r) <= Height(t.l) + 1
      && Balanced(t.l) && Balanced(t.r)
  }

  ghost function Root(t: Tree): AVLNode? { if t.Nil? then null else t.n }

  ghost function HoleParent(c: Ctx): AVLNode? { if c.Top? then null else c.n }

  ghost function Plug(c: Ctx, t: Tree): Tree {
    match c
    case Top => t
    case InL(up, n, r) => Plug(up, Br(t, n, r))
    case InR(up, l, n) => Plug(up, Br(l, n, t))
  }

  ghost function CtxNodes(c: Ctx): set<AVLNode> {
    match c
    case Top => {}
    case InL(up, n, r) => CtxNodes(up) + {n} + Nodes(r)
    case InR(up, l, n) => CtxNodes(up) + {n} + Nodes(l)
  }

  /** The nodes before and after the hole, in order. */
  ghost function Before(c: Ctx): seq<AVLNode> {
    match c
    case Top => []
    case InL(up, n, r) => Before(up)
    case InR(up, l, n) => Before(up) + Inorder(l) + [n]
  }

  ghost function After(c: Ctx): seq<AVLNode> {
    match c
    case Top => []
    case InL(up, n, r) => [n] + Inorder(r) + After(up)
    case InR(up, l, n) => After(up)
  }

  ghost predicate CtxDistinct(c: Ctx) {
    match c
    case Top => true
    case InL(up, n, r) => n !in Nodes(r) && n !in CtxNodes(up) && Nodes(r) !! CtxNodes(up) && Distinct(r) && CtxDistinct(up)
    case InR(up, l, n) => n !in Nodes(l) && n !in CtxNodes(up) && Nodes(l) !! CtxNodes(up) && Distinct(l) && CtxDistinct(up)
  }

  // ---- Rebalancing, on trees ----

  ghost function RotLeft(l: Tree, n: AVLNode, r: Tree): Tree
    requires r.Br?
  {
    Br(Br(l, n, r.l), r.n, r.r)
  }

  ghost function RotRight(l: Tree, n: AVLNode, r: Tree): Tree
    requires l.Br?
  {
    Br(l.l, l.n, Br(l.r, n, r))
  }

  ghost function FixLeft(l: Tree, n: AVLNode, r: Tree): Tree
    requires l.Br?
  {
    RotRight(if Height(l.l) < Height(l.r) then RotLeft(l.l, l.n, l.r) else l, n, r)
  }

  ghost function FixRight(l: Tree, n: AVLNode, r: Tree): Tree
    requires r.Br?
  {
    RotLeft(l, n, if Height(r.r) < Height(r.l) then RotRight(r.l, r.n, r.r) else r)
  }

  /** One round of avl_fix: rotate exactly when the depths differ by two. */
  ghost function FixNode(l: Tree, n: AVLNode, r: Tree): Tree {
    if Height(l) == Height(r) + 2 then FixLeft(l, n, r)
    else if Height(l) + 2 == Height(r) then FixRight(l, n, r)
    else Br(l, n, r)
  }

  /** avl_fix above a fixed subtree, up to the root. */
  ghost function FixUp(c: Ctx, t: Tree): Tree {
    match c
    case Top => t
    case InL(up, n, r) => FixUp(up, FixNode(t, n, r))
    case InR(up, l, n) => FixUp(up, FixNode(l, n, t))
  }

  // ---- Facts about trees and contexts ----

  ghost function Elems(q: seq<AVLNode>): set<AVLNode> { set x | x in q }

  lemma {:induction false} InorderNodes(t: Tree)
    ensures forall x :: x in Inorder(t) <==> x in Nodes(t)
    ensures Elems(Inorder(t)) == Nodes(t)
    ensures |Inorder(t)| == Size(t)
  {
    if t.Br? {
      InorderNodes(t.l);
      InorderNodes(t.r);
    }
  }

  lemma Regroup(b: seq<AVLNode>, l: seq<AVLNode>, n: AVLNode, r: seq<AVLNode>, a: seq<AVLNode>)
    ensures b + (l + [n] + r) + a == b + l + ([n] + r + a)
    ensures b + (l + [n] + r) + a == (b + l + [n]) + r + a
  {
  }

  lemma {:induction false} PlugInorder(c: Ctx, t: Tree)
    ensures Inorder(Plug(c, t)) == Before(c) + Inorder(t) + After(c)
  {
    match c
    case Top =>
    case InL(up, n, r) =>
      PlugInorder(up, Br(t, n, r));
      Regroup(Before(up), Inorder(t), n, Inorder(r), After(up));
    case InR(up, l, n) =>
      PlugInorder(up, Br(l, n, t));
      Regroup(Before(up), Inorder(l), n, Inorder(t), After(up));
  }

  lemma {:induction false} PlugNodes(c: Ctx, t: Tree)
    ensures Nodes(Plug(c, t)) == CtxNodes(c) + Nodes(t)
    ensures Distinct(Plug(c, t)) <==> Distinct(t) && CtxDistinct(c) && CtxNodes(c) !! Nodes(t)
  {
    match c
    case Top =>
    case InL(up, n, r) => PlugNodes(up, Br(t, n, r));
    case InR(up, l, n) => PlugNodes(up, Br(l, n, t));
  }

  /** Two trees with the same nodes in the same order. */
  ghost predicate SameNodes(a: Tree, b: Tree) {
    && Inorder(a) == Inorder(b)
    && Nodes(a) == Nodes(b)
    && Size(a) == Size(b)
    && (Distinct(a) <==> Distinct(b))
  }

  lemma RotationKeeps(a: Tree, n: AVLNode, b: Tree, m: AVLNode, c: Tree)
    ensures SameNodes(Br(a, n, Br(b, m, c)), Br(Br(a, n, b), m, c))
  {
  }

  lemma {:induction false} FixNodeKeeps(l: Tree, n: AVLNode, r: Tree)
    ensures SameNodes(FixNode(l, n, r), Br(l, n, r))
    ensures FixNode(l, n, r).Br?
  {
    if Height(l) == Height(r) + 2 {
      if Height(l.l) < Height(l.r) {
        RotationKeeps(l.l, l.n, l.r.l, l.r.n, l.r.r);
        var l' := RotLeft(l.l, l.n, l.r);
        RotationKeeps(l'.l, l'.n, l'.r, n, r);
      } else {
        RotationKeeps(l.l, l.n, l.r, n, r);
      }
    } else if Height(l) + 2 == Height(r) {
      if Height(r.r) < Height(r.l) {
        RotationKeeps(r.l.l, r.l.n, r.l.r, r.n, r.r);
        var r' := RotRight(r.l, r.n, r.r);
        RotationKeeps(l, n, r'.l, r'.n, r'.r);
      } else {
        RotationKeeps(l, n, r.l, r.n, r.r);
      }
    }
  }

  lemma {:induction false} FixUpKeeps(c: Ctx, t: Tree)
    ensures Inorder(FixUp(c, t)) == Inorder(Plug(c, t))
    ensures Nodes(FixUp(c, t)) == Nodes(Plug(c, t))
    ensures Distinct(Plug(c, t)) ==> Distinct(FixUp(c, t))
    ensures !c.Top? || t.Br? ==> FixUp(c, t).Br?
  {
    match c
    case Top =>
    case InL(up, n, r) =>
      var u := FixNode(t, n, r);
      FixUpKeeps(up, u);
      FixNodeKeeps(t, n, r);
      PlugInorder(up, u); PlugInorder(up, Br(t, n, r));
      PlugNodes(up, u); PlugNodes(up, Br(t, n, r));
    case InR(up, l, n) =>
      var u := FixNode(l, n, t);
      FixUpKeeps(up, u);
      FixNodeKeeps(l, n, t);
      PlugInorder(up, u); PlugInorder(up, Br(l, n, t));
      PlugNodes(up, u); PlugNodes(up, Br(l, n, t));
  }

  lemma FixLeftBalanced(l: Tree, n: AVLNode, r: Tree)
    requires Balanced(l) && Balanced(r) && Height(l) == Height(r) + 2
    ensures Balanced(FixLeft(l, n, r))
    ensures Height(l) <= Height(FixLeft(l, n, r)) <= Height(l) + 1
  {
  }

  lemma FixRightBalanced(l: Tree, n: AVLNode, r: Tree)
    requires Balanced(l) && Balanced(r) && Height(l) + 2 == Height(r)
    ensures Balanced(FixRight(l, n, r))
    ensures Height(r) <= Height(FixRight(l, n, r)) <= Height(r) + 1
  {
  }

  lemma {:induction false} FixNodeBalanced(l: Tree, n: AVLNode, r: Tree)
    requires Balanced(l) && Balanced(r)
    requires Height(l) <= Height(r) + 2 && Height(r) <= Height(l) + 2
    ensures Balanced(FixNode(l, n, r))
    ensures Max(Height(l), Height(r)) <= Height(FixNode(l, n, r)) <= Max(Height(l), Height(r)) + 1
    ensures Balanced(Br(l, n, r)) ==> FixNode(l, n, r) == Br(l, n, r)
  {
    if Height(l) == Height(r) + 2 {
      FixLeftBalanced(l, n, r);
    } else if Height(l) + 2 == Height(r) {
      FixRightBalanced(l, n, r);
    }
  }

  lemma {:induction false} PlugBalanced(c: Ctx, t: Tree)
    requires Balanced(Plug(c, t))
    ensures Balanced(t)
  {
    match c
    case Top =>
    case InL(up, n, r) => PlugBalanced(up, Br(t, n, r));
    case InR(up, l, n) => PlugBalanced(up, Br(l, n, t));
  }

  /** If one subtree of an AVL tree is replaced by an AVL tree whose height differs by at most one,
      avl_fix from the place of the change makes the whole an AVL tree again. */
  lemma {:induction false} FixUpBalanced(c: Ctx, was: Tree, t: Tree)
    requires Balanced(Plug(c, was)) && Balanced(t)
    requires Height(was) <= Height(t) + 1 && Height(t) <= Height(was) + 1
    ensures Balanced(FixUp(c, t))
  {
    match c
    case Top =>
    case InL(up, n, r) =>
      PlugBalanced(up, Br(was, n, r));
      FixNodeBalanced(t, n, r);
      FixUpBalanced(up, Br(was, n, r), FixNode(t, n, r));
    case InR(up, l, n) =>
      PlugBalanced(up, Br(l, n, was));
      FixNodeBalanced(l, n, t);
      FixUpBalanced(up, Br(l, n, was), FixNode(l, n, t));
  }
}
