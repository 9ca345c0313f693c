/** Runs of zset_add, zset_lookup and zset_query in any order (build_redis/chapter11/zset.hpp), answered from a map
    of names to scores. */
module ZSetRuns {
  import opened AvlShapes
  import opened AvlContainer
  import opened AvlRank
  import opened AvlTree
  import opened Bytes
  import opened HashChains
  import opened HashMap
  import opened Options
  import opened ZOrder
  import opened ZSets

  datatype Call =
    | ToAdd(name: bytes, score: real)
    | ToLookup(name: bytes)
    | ToQuery(score: real, name: bytes, offset: int)

  /** Whether a name was new, the score of a name, or a member. */
  datatype Reply = Added(isNew: bool) | Score(score: Option<real>) | Member(record: Option<Record>)

  /** The members, lower scores first and equal scores by name. */
  ghost predicate Ranking(ms: seq<Record>, scores: Scores) {
    && (forall i | 0 <= i < |ms| :: ms[i].ZNode? && ms[i].name in scores && ms[i].score == scores[ms[i].name])
    && (forall i, j | 0 <= i < j < |ms| :: Comes(ms[i], ms[j]))
    && (forall name | name in scores :: ZNode(scores[name], name) in ms)
  }

  /** The first member not below `key`. */
  ghost function FirstFrom(ms: seq<Record>, key: Record): (i: nat)
    ensures i <= |ms| && (i < |ms| ==> !Comes(ms[i], key))
    ensures forall j | 0 <= j < i :: Comes(ms[j], key)
  {
    if ms == [] || !Comes(ms[0], key) then 0 else 1 + FirstFrom(ms[1..], key)
  }

  /** The member `offset` ranks from the first one not below `key`. */
  ghost function Shifted(ms: seq<Record>, key: Record, offset: int): Option<Record> {
    var i := FirstFrom(ms, key);
    if i < |ms| && 0 <= i + offset < |ms| then Some(ms[i + offset]) else None
  }

  /** What a call does to the scores and what it answers. */
  ghost predicate Answered(scores: Scores, c: Call, scores': Scores, reply: Reply) {
    match c
    case ToAdd(name, score) => scores' == scores[name := score] && reply == Added(name !in scores)
    case ToLookup(name) => scores' == scores && reply == Score(if name in scores then Some(scores[name]) else None)
    case ToQuery(score, name, offset) =>
      scores' == scores && exists ms :: Ranking(ms, scores) && reply == Member(Shifted(ms, ZNode(score, name), offset))
  }

  /** The scores leave one ranking, hence one answer. */
  lemma {:induction false} OneRanking(ms: seq<Record>, other: seq<Record>, scores: Scores)
    requires Ranking(ms, scores) && Ranking(other, scores)
    ensures ms == other
  {
    hide Comes;
    RankingPrefix(ms, other, scores, |ms|);
    RankingPrefix(other, ms, scores, |other|);
  }

  /** A member beyond the common prefix of `ms` is beyond it in `other`. */
  lemma {:induction false} NotBefore(ms: seq<Record>, other: seq<Record>, k: nat, j: nat)
    requires k < |ms| && k <= |other| && j < |other| && ms[..k] == other[..k] && other[j] == ms[k]
    requires ms[k].ZNode? && forall i | 0 <= i < k :: Comes(ms[i], ms[k])
    ensures j >= k
  {
    ComesTotal(ms[k], ms[k]);
    assert forall i | 0 <= i < k :: ms[..k][i] == other[..k][i];
  }

  lemma PlaceIn(ms: seq<Record>, other: seq<Record>, scores: Scores, k: nat) returns (j: nat)
    requires Ranking(ms, scores) && Ranking(other, scores) && k < |ms|
    ensures j < |other| && other[j] == ms[k] && ms[k].ZNode?
  {
    hide Comes;
    var x := ms[k];
    assert x == ZNode(scores[x.name], x.name);
    j :| 0 <= j < |other| && other[j] == x;
  }

  lemma {:induction false} RankingPrefix(ms: seq<Record>, other: seq<Record>, scores: Scores, k: nat)
    requires Ranking(ms, scores) && Ranking(other, scores) && k <= |ms|
    ensures k <= |other| && ms[..k] == other[..k]
    decreases k
  {
    hide Comes;
    if k > 0 {
      RankingPrefix(ms, other, scores, k - 1);
      var x := ms[k - 1];
      var j := PlaceIn(ms, other, scores, k - 1);
      NotBefore(ms, other, k - 1, j);
      ComesTotal(x, x);
      var y := other[k - 1];
      var i := PlaceIn(other, ms, scores, k - 1);
      NotBefore(other, ms, k - 1, i);
      ComesTotal(x, y);
    }
  }

  /** Without an offset, a query finds the least member that does not come before (score, name), and nothing exactly
      when all members do. */
  lemma {:induction false} QueryLeast(ms: seq<Record>, scores: Scores, score: real, name: bytes)
    requires Ranking(ms, scores)
    ensures var key, found := ZNode(score, name), Shifted(ms, ZNode(score, name), 0);
      if found == None then forall other | other in scores :: Comes(ZNode(scores[other], other), key)
      else
        var m := found.value;
        && m.ZNode? && m.name in scores && m.score == scores[m.name] && m.score >= score && !Comes(m, key)
        && forall other | other in scores && other != m.name ::
             var o := ZNode(scores[other], other); Comes(o, key) || Comes(m, o)
  {
    var key, i := ZNode(score, name), FirstFrom(ms, ZNode(score, name));
    hide NameBefore, FirstFrom;
    forall other | other in scores && (i == |ms| || other != ms[i].name)
      ensures var o := ZNode(scores[other], other); Comes(o, key) || (i < |ms| && Comes(ms[i], o))
    {
      var j :| 0 <= j < |ms| && ms[j] == ZNode(scores[other], other);
      assert j < i || (i < |ms| && j > i);
    }
  }

  // ---- The class keeps to it ----

  ghost function RecordsOf(k: Keys, q: seq<AVLNode>): (ms: seq<Record>)
    requires forall n | n in q :: n in k
    ensures |ms| == |q| && forall i | 0 <= i < |q| :: ms[i] == k[q[i]]
  {
    seq(|q|, i requires 0 <= i < |q| => k[q[i]])
  }

  lemma {:induction false} InOrderRanking(m: Mem, own: Owners, k: Keys, t: Tree, scores: Scores)
    requires Ordered(m, k, t) && Members(own, k, Inorder(t), scores) && forall n | n in Inorder(t) :: n in k
    ensures Ranking(RecordsOf(k, Inorder(t)), scores) && forall n | n in Inorder(t) :: k[n].ZNode?
  {
    hide Comes, Ordered, Members, Inorder;
    MembersInOrder(m, own, k, t, scores);
    var q := Inorder(t);
    forall name | name in scores
      ensures ZNode(scores[name], name) in RecordsOf(k, q)
    {
      var i :| 0 <= i < |q| && k[q[i]] == ZNode(scores[name], name);
      assert RecordsOf(k, q)[i] == ZNode(scores[name], name);
    }
  }

  lemma {:induction false} SameAnswer(k: Keys, q: seq<AVLNode>, key: Record, offset: int)
    requires (forall n | n in q :: n in k && k[n].ZNode?) && key.ZNode?
    ensures var found := QueryResult(k, q, key, offset);
      (found != null ==> found in k) && Shifted(RecordsOf(k, q), key, offset) == if found == null then None else Some(k[found])
  {
    hide Less, Comes, LowerBound, FirstFrom;
    forall n | n in q
      ensures Less(k[n], key) <==> Comes(k[n], key)
    {
      LessComes(k[n], key);
    }
    var ms := RecordsOf(k, q);
    assert LowerBound(k, q, key) == FirstFrom(ms, key);
  }

  /** One call. */
  method Do(z: ZSet, c: Call, ghost scores: Scores, ghost t: Tree, ghost s: set<AVLNode>)
    returns (reply: Reply, ghost scores': Scores, ghost t': Tree, ghost s': set<AVLNode>)
    requires z.Represents(scores, t, s)
    modifies z`tree, s`left, s`right, s`parent, s`depth, s`cnt, s`record, z.hmap.Shell(), z.hmap.Nodes()`next
    ensures z.Represents(scores', t', s') && Answered(scores, c, scores', reply)
    ensures fresh(z.hmap.Shell() - old(z.hmap.Shell())) && fresh(z.hmap.Nodes() - old(z.hmap.Nodes())) && fresh(s' - s)
  {
    hide HMap.Tables, HMap.Load, HMap.HmSize, Ordered, Members, Inorder, Nodes, QueryResult, Shifted, Ranking;
    scores', t', s' := scores, t, s;
    match c {
      case ToAdd(name, score) =>
        var added;
        added, t', s' := z.ZsetAdd(name, score, scores, t, s);
        scores' := scores[name := score];
        reply := Added(added);
      case ToLookup(name) =>
        var node := z.ZsetLookup(name, scores, t, s);
        reply := Score(if node == null then None else Some(node.owner.tree.record.score));
      case ToQuery(score, name, offset) =>
        var found := z.ZsetQuery(score, name, offset, scores, t, s);
        InOrderRanking(Snap(s), OwnersOf(z.hmap.Nodes()), Recs(s), t, scores);
        SameAnswer(Recs(s), Inorder(t), ZNode(score, name), offset);
        reply := Member(if found == null then None else Some(found.record));
    }
  }

  /** Any run of calls: the members are those of one map, and every call is answered from it. */
  method Run(z: ZSet, calls: seq<Call>, ghost scores: Scores, ghost t: Tree, ghost s: set<AVLNode>)
    returns (replies: seq<Reply>, ghost all: seq<Scores>, ghost t': Tree, ghost s': set<AVLNode>)
    requires z.Represents(scores, t, s)
    modifies z`tree, s`left, s`right, s`parent, s`depth, s`cnt, s`record, z.hmap.Shell(), z.hmap.Nodes()`next
    ensures |replies| == |calls| && |all| == |calls| + 1 && all[0] == scores
    ensures z.Represents(all[|calls|], t', s')
    ensures forall i | 0 <= i < |calls| :: Answered(all[i], calls[i], all[i + 1], replies[i])
    decreases |calls|
  {
    hide ZSet.Represents, HMap.Valid, Answered;
    replies, all, t', s' := [], [scores], t, s;
    if calls == [] {
      return;
    }
    var first;
    ghost var scores';
    first, scores', t', s' := Do(z, calls[0], scores, t, s);
    replies, all, t', s' := Run(z, calls[1..], scores', t', s');
    replies, all := [first] + replies, [scores] + all;
    assert forall i | 0 < i < |calls| :: calls[i] == calls[1..][i - 1];
  }
}
