/** The sorted set of build_redis/chapter11/zset.hpp: the same named nodes in a hash map and in an AVL tree. */
module ZSets {
  import opened Bytes
  import opened AvlShapes
  import opened AvlTree
  import opened AvlDelete
  import opened AvlContainer
  import opened AvlRank
  import opened ZOrder
  import opened HashChains
  import opened HashMap
  import opened Store

  /** hcmp: equal lengths and equal bytes. */
  predicate HCmp(node: HNode, key: HKey) {
    |node.key| == |key.key| && MemCmp(node.key, key.key, |node.key|) == 0
  }

  lemma {:induction false} MemCmpZero(a: bytes, b: bytes)
    requires |a| == |b|
    ensures MemCmp(a, b, |a|) == 0 <==> a == b
  {
    if a != [] {
      MemCmpZero(a[1..], b[1..]);
      assert a == [a[0]] + a[1..] && b == [b[0]] + b[1..];
    }
  }

  type Scores = map<bytes, real>

  /** One hash node for each name, embedded with a tree node of `q` that carries that name and its score. */
  ghost predicate Named(own: Owners, k: Keys, q: seq<AVLNode>, scores: Scores) {
    && (forall n | n in own ::
          && n.hcode == HashOf(n.key) && n.key in scores
          && own[n].InZNode? && own[n].tree in q && own[n].tree in k && k[own[n].tree] == ZNode(scores[n.key], n.key))
    && (forall n, m | n in own && m in own && n.key == m.key :: n == m)
    && (forall name | name in scores :: exists n :: n in own && n.key == name)
  }

  /** Every tree node is embedded with a hash node. */
  ghost predicate Hashed(own: Owners, q: seq<AVLNode>) {
    forall i | 0 <= i < |q| :: exists n :: n in own && own[n] == InZNode(q[i])
  }

  /** The hash nodes and the tree nodes `q`, in order, are the same members with the same scores. */
  ghost predicate Members(own: Owners, k: Keys, q: seq<AVLNode>, scores: Scores) {
    Named(own, k, q, scores) && Hashed(own, q)
  }

  lemma {:induction false} NameLookup(own: Owners, k: Keys, q: seq<AVLNode>, scores: Scores, key: HKey)
    requires Members(own, k, q, scores) && key.hcode == HashOf(key.key)
    ensures Respects(own.Keys, HCmp, key)
    ensures NoMatch(own.Keys, HCmp, key) <==> key.key !in scores
    ensures forall n | n in own :: HCmp(n, key) <==> n.key == key.key
  {
    forall n | n in own
      ensures HCmp(n, key) <==> n.key == key.key
    {
      if |n.key| == |key.key| {
        MemCmpZero(n.key, key.key);
      }
    }
    if key.key in scores {
      var n :| n in own && n.key == key.key;
      assert HCmp(n, key);
    }
  }

  lemma {:induction false} MemberOf(own: Owners, k: Keys, q: seq<AVLNode>, scores: Scores, n: HNode)
    requires Members(own, k, q, scores) && n in own
    ensures n.key in scores && own[n].InZNode? && own[n].tree in q && own[n].tree in k
    ensures k[own[n].tree] == ZNode(scores[n.key], n.key)
  {
  }

  /** The member `n` gets a new score: its tree node moves from between b and a to between b' and a'. */
  lemma {:induction false} MembersRescored(own: Owners, k: Keys, k': Keys, scores: Scores, n: HNode, score: real,
                                           b: seq<AVLNode>, a: seq<AVLNode>, b': seq<AVLNode>, a': seq<AVLNode>)
    requires n in own && own[n].InZNode?
    requires Members(own, k, b + [own[n].tree] + a, scores) && b + a == b' + a'
    requires k'.Keys == k.Keys && (forall x | x in k && x != own[n].tree :: k'[x] == k[x])
    requires own[n].tree in k && k'[own[n].tree] == ZNode(score, n.key)
    ensures Members(own, k', b' + [own[n].tree] + a', scores[n.key := score])
  {
    var x, q, q' := own[n].tree, b + [own[n].tree] + a, b' + [own[n].tree] + a';
    assert forall y :: y in q <==> y in b + a || y == x;
    assert forall y :: y in q' <==> y in b' + a' || y == x;
    forall m | m in own
      ensures own[m].InZNode? && own[m].tree in q' && k'[own[m].tree] == ZNode(scores[n.key := score][m.key], m.key)
    {
      if own[m].tree == x {
        assert m.key == n.key;
      }
    }
    forall i | 0 <= i < |q'|
      ensures exists m :: m in own && own[m] == InZNode(q'[i])
    {
      assert q'[i] in q;
      var j :| 0 <= j < |q| && q[j] == q'[i];
      var m :| m in own && own[m] == InZNode(q[j]);
    }
  }

  lemma {:induction false} HashedAdded(own: Owners, own': Owners, n: HNode, b: seq<AVLNode>, x: AVLNode, a: seq<AVLNode>)
    requires Hashed(own, b + a) && own' == own[n := InZNode(x)] && n !in own
    ensures Hashed(own', b + [x] + a)
  {
    var q, q' := b + a, b + [x] + a;
    forall i | 0 <= i < |q'|
      ensures exists m :: m in own' && own'[m] == InZNode(q'[i])
    {
      if i == |b| {
        assert own'[n] == InZNode(q'[i]);
      } else {
        var j := if i < |b| then i else i - 1;
        assert q[j] == q'[i];
        var m :| m in own && own[m] == InZNode(q[j]);
        assert own'[m] == own[m];
      }
    }
  }

  lemma {:induction false} MembersAdded(own: Owners, own': Owners, k: Keys, k': Keys, scores: Scores, n: HNode, score: real,
                                        b: seq<AVLNode>, x: AVLNode, a: seq<AVLNode>)
    requires Members(own, k, b + a, scores) && n !in own && n.key !in scores && n.hcode == HashOf(n.key)
    requires own' == own[n := InZNode(x)]
    requires (forall y | y in k :: y in k' && k'[y] == k[y]) && x in k' && k'[x] == ZNode(score, n.key)
    ensures Members(own', k', b + [x] + a, scores[n.key := score])
  {
    hide Hashed;
    HashedAdded(own, own', n, b, x, a);
    var q, q', scores' := b + a, b + [x] + a, scores[n.key := score];
    assert forall y | y in q :: y in q';
    assert x in q';
    forall name | name in scores'
      ensures exists m :: m in own' && m.key == name
    {
      if name == n.key {
        assert n in own';
      } else {
        var m :| m in own && m.key == name;
        assert m in own';
      }
    }
  }

  // ---- The tree side ----

  /** avl_init */
  method AvlInit(node: AVLNode, ghost s: set<AVLNode>)
    requires node in s
    modifies node`depth, node`cnt, node`left, node`right, node`parent
    ensures Snap(s) == old(Snap(s))[node := Cell(null, null, null, 1, 1)]
  {
    node.depth := 1;
    node.cnt := 1;
    node.left, node.right, node.parent := null, null, null;
  }

  /** A valid tree sorted by zless. */
  ghost predicate Ordered(m: Mem, k: Keys, t: Tree) {
    Whole(m, t) && Sorted(k, Inorder(t))
  }

  /** A node that is out of the tree gets another record. */
  lemma {:induction false} OrderedElsewhere(m: Mem, m': Mem, k: Keys, k': Keys, t: Tree, x: AVLNode)
    requires Ordered(m, k, t) && x !in Nodes(t)
    requires m'.Keys == m.Keys && forall y | y in m && y != x :: m'[y] == m[y]
    requires k'.Keys == k.Keys && forall y | y in k && y != x :: k'[y] == k[y]
    ensures Ordered(m', k', t)
  {
    RepFrame(m, m', t, null);
    InorderNodes(t);
    assert forall i | 0 <= i < |Inorder(t)| :: Inorder(t)[i] in Nodes(t);
  }

  /** The tree without the node: still sorted. */
  lemma {:induction false} OrderedWithout(m: Mem, k: Keys, x: Ctx, l: Tree, n: AVLNode, r: Tree, t1: Tree)
    requires Sorted(k, Inorder(Plug(x, Br(l, n, r)))) && Distinct(Plug(x, Br(l, n, r)))
    requires Whole(m, t1) && Inorder(t1) == Without(x, l, r)
    ensures Ordered(m, k, t1) && n !in Nodes(t1) && Nodes(Plug(x, Br(l, n, r))) == Nodes(t1) + {n}
    ensures Inorder(Plug(x, Br(l, n, r))) == Left(x, l) + [n] + Right(x, r)
  {
    PlugOrder(x, l, n, r);
    PlugSides(x, l, n, r);
    SortedRemove(k, Left(x, l), n, Right(x, r));
    InorderNodes(t1);
    InorderNodes(Plug(x, Br(l, n, r)));
    assert Elems(Left(x, l) + [n] + Right(x, r)) == Elems(Left(x, l) + Right(x, r)) + {n};
  }

  /** avl_del of zset_update. */
  method TakeOut(tree: AVLNode, node: AVLNode, ghost t: Tree, ghost s: set<AVLNode>)
    returns (rest: AVLNode?, ghost t1: Tree, ghost b: seq<AVLNode>, ghost a: seq<AVLNode>)
    requires tree == Root(t) && Ordered(Snap(s), Recs(s), t) && Nodes(t) == s && node in s
    modifies s`left, s`right, s`parent, s`depth, s`cnt
    ensures rest == Root(t1) && Ordered(Snap(s), Recs(s), t1) && node !in Nodes(t1) && s == Nodes(t1) + {node}
    ensures Inorder(t) == b + [node] + a && Inorder(t1) == b + a
    ensures Recs(s) == old(Recs(s))
  {
    hide Rep, Distinct, Balanced, Sorted, Inorder, Height, Size, Less;
    ghost var x, l, r := Locate(Top, t, node);
    rest, t1 := AvlDel(node, x, l, r, s);
    OrderedWithout(Snap(s), Recs(s), x, l, node, r, t1);
    b, a := Left(x, l), Right(x, r);
  }

  /** avl_del, the new score, avl_init and tree_add of zset_update. */
  method Rescore(tree: AVLNode, node: AVLNode, score: real, ghost t: Tree, ghost s: set<AVLNode>)
    returns (root: AVLNode, ghost t': Tree, ghost b: seq<AVLNode>, ghost a: seq<AVLNode>,
             ghost b': seq<AVLNode>, ghost a': seq<AVLNode>)
    requires tree == Root(t) && Ordered(Snap(s), Recs(s), t) && Nodes(t) == s && node in s && node.record.ZNode?
    modifies s`left, s`right, s`parent, s`depth, s`cnt, node`record
    ensures root == Root(t') && Ordered(Snap(s), Recs(s), t') && Nodes(t') == s
    ensures Inorder(t) == b + [node] + a && Inorder(t') == b' + [node] + a' && b + a == b' + a'
    ensures Recs(s) == old(Recs(s))[node := ZNode(score, old(node.record.name))]
  {
    hide Rep, Distinct, Balanced, Sorted, Inorder, Height, Size, Less;
    ghost var k := Recs(s);
    var rest;
    ghost var t1;
    rest, t1, b, a := TakeOut(tree, node, t, s);
    ghost var m1 := Snap(s);
    node.record := ZNode(score, node.record.name);
    AvlInit(node, s);
    OrderedElsewhere(m1, Snap(s), k, Recs(s), t1, node);
    root, t', b', a' := TreeAdd(rest, node, t1, s);
  }

  // ---- zset_update, zset_lookup, zset_add, zset_query ----

  /** The tree side after `tree_add` of a new member. */
  method AddToTree(tree: AVLNode?, node: AVLNode, ghost t: Tree, ghost s: set<AVLNode>)
    returns (root: AVLNode, ghost t': Tree, ghost b: seq<AVLNode>, ghost a: seq<AVLNode>)
    requires tree == Root(t) && Nodes(t) == s && Ordered(Snap(s), Recs(s), t)
    requires node !in s && Fresh(Snap(s + {node}), node)
    modifies s`left, s`right, s`parent, s`depth, s`cnt, node`left, node`right, node`parent, node`depth, node`cnt
    ensures root == Root(t') && Nodes(t') == s + {node} && Ordered(Snap(s + {node}), Recs(s + {node}), t')
    ensures Inorder(t) == b + a && Inorder(t') == b + [node] + a
  {
    hide Rep, Distinct, Balanced, Inorder, Height, Size, Less;
    ghost var s' := s + {node};
    RepFrame(Snap(s), Snap(s'), t, null);
    assert Sorted(Recs(s'), Inorder(t));
    root, t', b, a := TreeAdd(tree, node, t, s');
  }

  /** The hash node found for `name`, embedded with the tree node that holds its score. */
  ghost predicate IsMember(n: HNode, name: bytes, scores: Scores, s: set<AVLNode>)
    reads n`owner, s`record
  {
    && n.key == name && name in scores
    && n.owner.InZNode? && n.owner.tree in s && n.owner.tree.record == ZNode(scores[name], name)
  }

  lemma SomeMember(own: Owners, k: Keys, q: seq<AVLNode>, scores: Scores, name: bytes)
    requires Members(own, k, q, scores) && name in scores
    ensures q != []
  {
  }

  lemma {:induction false} HashNodeOf(own: Owners, q: seq<AVLNode>, i: nat) returns (n: HNode)
    requires Hashed(own, q) && i < |q|
    ensures n in own && own[n] == InZNode(q[i])
  {
    var x := q[i];
    n :| n in own && own[n] == InZNode(x);
  }

  /** The members in order: lower scores first, equal scores by name, and exactly the names with their scores. */
  lemma {:induction false} MembersInOrder(m: Mem, own: Owners, k: Keys, t: Tree, scores: Scores)
    requires Ordered(m, k, t) && Members(own, k, Inorder(t), scores)
    ensures var q := Inorder(t);
            && (forall i | 0 <= i < |q| :: q[i] in k && k[q[i]].ZNode? && k[q[i]].name in scores && k[q[i]].score == scores[k[q[i]].name])
            && (forall i, j | 0 <= i < j < |q| :: Comes(k[q[i]], k[q[j]]) && k[q[i]].name != k[q[j]].name)
            && (forall name | name in scores :: exists i :: 0 <= i < |q| && k[q[i]] == ZNode(scores[name], name))
  {
    var q := Inorder(t);
    forall i | 0 <= i < |q|
      ensures q[i] in k && k[q[i]].ZNode? && k[q[i]].name in scores && k[q[i]].score == scores[k[q[i]].name]
    {
      var n := HashNodeOf(own, q, i);
    }
    InorderDistinct(t);
    forall i, j | 0 <= i < j < |q|
      ensures Comes(k[q[i]], k[q[j]]) && k[q[i]].name != k[q[j]].name
    {
      var n := HashNodeOf(own, q, i);
      var n' := HashNodeOf(own, q, j);
      LessTotal(k[q[i]], k[q[j]]);
      LessComes(k[q[i]], k[q[j]]);
    }
    forall name | name in scores
      ensures exists i :: 0 <= i < |q| && k[q[i]] == ZNode(scores[name], name)
    {
      var n :| n in own && n.key == name;
      var i :| 0 <= i < |q| && q[i] == own[n].tree;
      assert k[q[i]] == ZNode(scores[name], name);
    }
  }

  lemma {:induction false} InorderDistinct(t: Tree)
    requires Distinct(t)
    ensures forall i, j | 0 <= i < j < |Inorder(t)| :: Inorder(t)[i] != Inorder(t)[j]
  {
    if t.Br? {
      InorderDistinct(t.l);
      InorderDistinct(t.r);
      InorderNodes(t.l);
      InorderNodes(t.r);
      var l, r := Inorder(t.l), Inorder(t.r);
      assert forall i | 0 <= i < |l| :: l[i] in Elems(l);
      assert forall i | 0 <= i < |r| :: r[i] in Elems(r);
    }
  }

  class ZSet {
    var tree: AVLNode?
    const hmap: HMap

    /** Both indexes hold the members `scores`; the tree is `t`, over the nodes `s`, in the order of zless. */
    ghost predicate Represents(scores: Scores, t: Tree, s: set<AVLNode>)
      reads this, hmap, hmap.ht1, hmap.ht2, hmap.Shell(), hmap.Nodes()
      reads s`left, s`right, s`parent, s`depth, s`cnt, s`record
    {
      && tree == Root(t) && Nodes(t) == s && Ordered(Snap(s), Recs(s), t)
      && hmap.Valid() && Members(OwnersOf(hmap.Nodes()), Recs(s), Inorder(t), scores)
    }

    constructor ()
      ensures Represents(map[], Nil, {}) && fresh(hmap.Shell()) && hmap.Nodes() == {}
    {
      tree := null;
      hmap := new HMap();
    }

    /** zset_lookup */
    method ZsetLookup(name: bytes, ghost scores: Scores, ghost t: Tree, ghost s: set<AVLNode>) returns (node: HNode?)
      requires Represents(scores, t, s)
      modifies hmap.Shell(), hmap.Nodes()`next
      ensures Represents(scores, t, s) && fresh(hmap.Shell() - old(hmap.Shell())) && hmap.Nodes() == old(hmap.Nodes())
      ensures node == null ==> name !in scores
      ensures node != null ==> node in hmap.Nodes() && IsMember(node, name, scores, s)
    {
      hide HMap.Tables, HMap.Load, Ordered, Members, Respects, NoMatch;
      node := null;
      if tree == null {
        if name in scores {
          SomeMember(OwnersOf(hmap.Nodes()), Recs(s), Inorder(t), scores, name);
        }
        return;
      }
      var hcode := StrHash(name);
      node := Probe(HKey(hcode, name), scores, t, s);
    }

    /** The hash probe of zset_lookup. */
    method Probe(key: HKey, ghost scores: Scores, ghost t: Tree, ghost s: set<AVLNode>) returns (node: HNode?)
      requires Represents(scores, t, s) && key.hcode == HashOf(key.key)
      modifies hmap.Shell(), hmap.Nodes()`next
      ensures Represents(scores, t, s) && fresh(hmap.Shell() - old(hmap.Shell())) && hmap.Nodes() == old(hmap.Nodes())
      ensures node == null ==> key.key !in scores
      ensures node != null ==> node in hmap.Nodes() && IsMember(node, key.key, scores, s)
    {
      hide HMap.Tables, HMap.Load, HMap.HmSize, Ordered, Members, Respects, NoMatch, Inorder, Nodes;
      ghost var own, m, k := OwnersOf(hmap.Nodes()), Snap(s), Recs(s);
      NameLookup(own, k, Inorder(t), scores, key);
      assert forall x | x in s :: x !in hmap.Shell();
      node := hmap.HmLookup(key, HCmp);
      assert Snap(s) == m && Recs(s) == k;
      if node != null {
        MemberOf(own, k, Inorder(t), scores, node);
      }
    }

    /** zset_update */
    method ZsetUpdate(node: HNode, score: real, ghost scores: Scores, ghost t: Tree, ghost s: set<AVLNode>)
      returns (ghost t': Tree)
      requires Represents(scores, t, s) && node in hmap.Nodes() && IsMember(node, node.key, scores, s)
      modifies this`tree, s`left, s`right, s`parent, s`depth, s`cnt, s`record
      ensures Represents(scores[node.key := score], t', s)
    {
      hide HMap.Tables, HMap.Load, HMap.HmSize, Ordered, Members, Inorder, Nodes;
      ghost var own, k := OwnersOf(hmap.Nodes()), Recs(s);
      var x := node.owner.tree;
      t' := t;
      if x.record.score == score {
        assert scores[node.key := score] == scores;
        return;
      }
      NonEmpty(t, s, x);
      var root;
      ghost var b, a, b', a';
      root, t', b, a, b', a' := Rescore(tree, x, score, t, s);
      MembersRescored(own, k, Recs(s), scores, node, score, b, a, b', a');
      assert forall y | y in s :: y !in hmap.Shell();
      assert hmap.Valid() && OwnersOf(hmap.Nodes()) == own;
      SetTree(root, scores[node.key := score], t', s);
    }

    /** `zset->tree = root` */
    method SetTree(root: AVLNode?, ghost scores: Scores, ghost t: Tree, ghost s: set<AVLNode>)
      requires root == Root(t) && Nodes(t) == s && Ordered(Snap(s), Recs(s), t)
      requires hmap.Valid() && Members(OwnersOf(hmap.Nodes()), Recs(s), Inorder(t), scores)
      modifies this`tree
      ensures Represents(scores, t, s)
    {
      hide HMap.Tables, HMap.Load, Ordered, Members, Inorder, Nodes;
      assert this !in hmap.Shell();
      tree := root;
    }

    static lemma NonEmpty(t: Tree, s: set<AVLNode>, x: AVLNode)
      requires Nodes(t) == s && x in s
      ensures t.Br?
    {
    }

    /** zset_add: true iff the name is new. */
    method ZsetAdd(name: bytes, score: real, ghost scores: Scores, ghost t: Tree, ghost s: set<AVLNode>)
      returns (added: bool, ghost t': Tree, ghost s': set<AVLNode>)
      requires Represents(scores, t, s)
      modifies this`tree, s`left, s`right, s`parent, s`depth, s`cnt, s`record, hmap.Shell(), hmap.Nodes()`next
      ensures Represents(scores[name := score], t', s') && (added <==> name !in scores)
      ensures fresh(hmap.Shell() - old(hmap.Shell())) && fresh(hmap.Nodes() - old(hmap.Nodes())) && fresh(s' - s)
    {
      hide HMap.Tables, HMap.Load, HMap.HmSize, Ordered, Members, Inorder, Nodes;
      var node := ZsetLookup(name, scores, t, s);
      if node != null {
        t' := ZsetUpdate(node, score, scores, t, s);
        added, s' := false, s;
      } else {
        t', s' := AddMember(name, score, scores, t, s);
        added := true;
      }
    }

    /** znode_new and its insertion into both indexes. */
    method AddMember(name: bytes, score: real, ghost scores: Scores, ghost t: Tree, ghost s: set<AVLNode>)
      returns (ghost t': Tree, ghost s': set<AVLNode>)
      requires Represents(scores, t, s) && name !in scores
      modifies this`tree, s`left, s`right, s`parent, s`depth, s`cnt, hmap.Shell(), hmap.Nodes()`next
      ensures Represents(scores[name := score], t', s')
      ensures fresh(hmap.Shell() - old(hmap.Shell())) && fresh(hmap.Nodes() - old(hmap.Nodes())) && fresh(s' - s)
    {
      hide ZSet.Represents, HMap.Valid, Ordered, Members, Inorder, Nodes;
      var x := new AVLNode(ZNode(score, name));
      t', s' := AddHashed(name, x, score, scores, t, s);
    }

    /** The hash node of a new ZNode whose tree node is `x`. */
    method AddHashed(name: bytes, x: AVLNode, score: real, ghost scores: Scores, ghost t: Tree, ghost s: set<AVLNode>)
      returns (ghost t': Tree, ghost s': set<AVLNode>)
      requires Represents(scores, t, s) && name !in scores
      requires x !in s && x.record == ZNode(score, name) && Fresh(Snap(s + {x}), x)
      modifies this`tree, s`left, s`right, s`parent, s`depth, s`cnt, hmap.Shell(), hmap.Nodes()`next
      modifies x`left, x`right, x`parent, x`depth, x`cnt
      ensures Represents(scores[name := score], t', s') && s' == s + {x}
      ensures fresh(hmap.Shell() - old(hmap.Shell())) && fresh(hmap.Nodes() - old(hmap.Nodes()))
    {
      hide ZSet.Represents, HMap.Valid, Ordered, Members, Inorder, Nodes;
      var hcode := StrHash(name);
      var n := new HNode(hcode, name, InZNode(x));
      t', s' := LinkMember(n, x, score, scores, t, s);
    }

    /** `hm_insert(&zset->hmap, &node->hmap); tree_add(zset, node)` */
    method LinkMember(n: HNode, x: AVLNode, score: real, ghost scores: Scores, ghost t: Tree, ghost s: set<AVLNode>)
      returns (ghost t': Tree, ghost s': set<AVLNode>)
      requires Represents(scores, t, s) && n.key !in scores && n.hcode == HashOf(n.key) && n.owner == InZNode(x)
      requires n !in hmap.Nodes() && x !in s && x.record == ZNode(score, n.key) && Fresh(Snap(s + {x}), x)
      modifies this`tree, s`left, s`right, s`parent, s`depth, s`cnt, hmap.Shell(), hmap.Nodes()`next
      modifies n`next, x`left, x`right, x`parent, x`depth, x`cnt
      ensures Represents(scores[n.key := score], t', s') && s' == s + {x} && hmap.Nodes() == old(hmap.Nodes()) + {n}
      ensures fresh(hmap.Shell() - old(hmap.Shell()))
    {
      hide HMap.Tables, HMap.Load, HMap.HmSize, Ordered, Members, Inorder, Nodes;
      ghost var own := OwnersOf(hmap.Nodes());
      s' := s + {x};
      LinkHash(n, x, s);
      t' := LinkTree(n, x, score, scores, own, t, s);
    }

    /** The hash side of zset_add: the tree nodes are not touched. */
    method LinkHash(n: HNode, x: AVLNode, ghost s: set<AVLNode>)
      requires hmap.Valid() && n !in hmap.Nodes() && n.owner == InZNode(x)
      modifies hmap.Shell(), hmap.Nodes()`next, n`next
      ensures hmap.Valid() && hmap.Nodes() == old(hmap.Nodes()) + {n} && fresh(hmap.Shell() - old(hmap.Shell()))
      ensures OwnersOf(hmap.Nodes()) == old(OwnersOf(hmap.Nodes()))[n := InZNode(x)]
      ensures Snap(s) == old(Snap(s)) && Recs(s) == old(Recs(s)) && CellOf(x) == old(CellOf(x)) && x.record == old(x.record)
    {
      hide HMap.Valid, HMap.HmSize;
      ghost var own, own' := OwnersOf(hmap.Nodes()), OwnersOf(hmap.Nodes() + {n});
      ghost var m, k := Snap(s), Recs(s);
      assert own' == own[n := InZNode(x)];
      assert this !in hmap.Shell() && forall y | y in s + {x} :: y !in hmap.Shell();
      hmap.HmInsert(n);
      assert Snap(s) == m && Recs(s) == k;
    }

    /** The tree side of zset_add. */
    method LinkTree(n: HNode, x: AVLNode, score: real, ghost scores: Scores, ghost own: Owners, ghost t: Tree, ghost s: set<AVLNode>)
      returns (ghost t': Tree)
      requires tree == Root(t) && Nodes(t) == s && Ordered(Snap(s), Recs(s), t)
      requires hmap.Valid() && OwnersOf(hmap.Nodes()) == own[n := InZNode(x)] && Members(own, Recs(s), Inorder(t), scores)
      requires n !in own && n.key !in scores && n.hcode == HashOf(n.key)
      requires x !in s && x.record == ZNode(score, n.key) && Fresh(Snap(s + {x}), x)
      modifies this`tree, s`left, s`right, s`parent, s`depth, s`cnt, x`left, x`right, x`parent, x`depth, x`cnt
      ensures Represents(scores[n.key := score], t', s + {x})
    {
      hide HMap.Tables, HMap.Load, HMap.HmSize, Ordered, Members, Inorder, Nodes;
      ghost var k, s', own' := Recs(s), s + {x}, OwnersOf(hmap.Nodes());
      assert forall y | y in s' :: y !in hmap.Shell();
      var root;
      ghost var b, a;
      root, t', b, a := AddToTree(tree, x, t, s);
      MembersAdded(own, own', k, Recs(s'), scores, n, score, b, x, a);
      assert hmap.Valid() && OwnersOf(hmap.Nodes()) == own';
      SetTree(root, scores[n.key := score], t', s');
    }

    /** zset_query: the member at the lower bound of (score, name), moved by `offset` ranks. */
    method ZsetQuery(score: real, name: bytes, offset: int, ghost scores: Scores, ghost t: Tree, ghost s: set<AVLNode>)
      returns (found: AVLNode?)
      requires Represents(scores, t, s)
      ensures forall n | n in Inorder(t) :: n in Recs(s)
      ensures found == QueryResult(Recs(s), Inorder(t), ZNode(score, name), offset)
    {
      found := Query(tree, ZNode(score, name), offset, t, s);
    }
  }
}
