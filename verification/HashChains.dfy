/** The chained tables of build_redis/chapter11/hashtable.hpp as values: bucket heads, next links and
    the chains of nodes they describe. */
module HashChains {

  import opened AvlShapes
  import opened Bytes

  /** What `container_of` reaches from a hash node: an Entry with its value, or a ZNode with its tree node. */
  datatype Owner = Entry(val: bytes) | InZNode(tree: AVLNode)

  /** The hash node; its hash code and key are fixed when it is made. */
  class HNode {
    const hcode: nat
    const key: bytes
    var next: HNode?
    var owner: Owner

    constructor (hcode: nat, key: bytes, owner: Owner)
      ensures this.hcode == hcode && this.key == key && this.owner == owner && next == null
    {
      this.hcode, this.key, this.owner, next := hcode, key, owner, null;
    }
  }

  type Links = map<HNode, HNode?>

  ghost function LinksOf(s: set<HNode>): Links
    reads s`next
  {
    map x | x in s :: x.next
  }

  type Owners = map<HNode, Owner>

  ghost function OwnersOf(s: set<HNode>): (own: Owners)
    reads s`owner
    ensures own.Keys == s
  {
    map n | n in s :: n.owner
  }

  ghost function Head(c: seq<HNode>): HNode? { if c == [] then null else c[0] }

  /** Following `next` from `head` visits exactly `c`. */
  ghost predicate Chain(links: Links, head: HNode?, c: seq<HNode>) {
    && head == Head(c)
    && forall i | 0 <= i < |c| :: c[i] in links && links[c[i]] == (if i + 1 < |c| then c[i + 1] else null)
  }

  ghost predicate Linked(heads: seq<HNode?>, links: Links, chains: seq<seq<HNode>>) {
    |heads| == |chains| && forall b | 0 <= b < |chains| :: Chain(links, heads[b], chains[b])
  }

  /** Every node is in the bucket of its masked hash code, once. */
  ghost predicate Placed(chains: seq<seq<HNode>>) {
    && (forall b, i | 0 <= b < |chains| && 0 <= i < |chains[b]| :: chains[b][i].hcode % |chains| == b)
    && (forall b, i, j | 0 <= b < |chains| && 0 <= i < j < |chains[b]| :: chains[b][i] != chains[b][j])
  }

  /** The nodes of the chains are exactly `s`. */
  ghost predicate Covers(chains: seq<seq<HNode>>, s: set<HNode>) {
    && (forall b, i | 0 <= b < |chains| && 0 <= i < |chains[b]| :: chains[b][i] in s)
    && (forall n | n in s :: exists b, i :: 0 <= b < |chains| && 0 <= i < |chains[b]| && chains[b][i] == n)
  }

  ghost predicate Table(heads: seq<HNode?>, links: Links, chains: seq<seq<HNode>>) {
    Linked(heads, links, chains) && Placed(chains) && Covers(chains, links.Keys)
  }

  lemma {:induction false} Find(chains: seq<seq<HNode>>, s: set<HNode>, n: HNode) returns (b: nat, i: nat)
    requires Covers(chains, s) && n in s
    ensures b < |chains| && i < |chains[b]| && chains[b][i] == n
  {
    b, i :| 0 <= b < |chains| && 0 <= i < |chains[b]| && chains[b][i] == n;
  }

  // ---- h_insert ----

  ghost function Pushed(chains: seq<seq<HNode>>, p: nat, n: HNode): seq<seq<HNode>>
    requires p < |chains|
  {
    chains[p := [n] + chains[p]]
  }

  lemma ChainFrame(links: Links, links': Links, head: HNode?, c: seq<HNode>)
    requires Chain(links, head, c)
    requires forall j | 0 <= j < |c| && c[j] in links :: c[j] in links' && links'[c[j]] == links[c[j]]
    ensures Chain(links', head, c)
  {
  }

  lemma {:induction false} PushChain(links: Links, head: HNode?, c: seq<HNode>, n: HNode)
    requires Chain(links, head, c) && n !in links
    ensures Chain(links[n := head], n, [n] + c)
  {
    var c', links' := [n] + c, links[n := head];
    forall i | 0 <= i < |c'|
      ensures c'[i] in links' && links'[c'[i]] == (if i + 1 < |c'| then c'[i + 1] else null)
    {
      assert i + 1 < |c'| ==> c'[i + 1] == c[i];
      if i > 0 {
        var k := i - 1;
        assert c'[i] == c[k] && c[k] in links;
        assert links[c[k]] == (if k + 1 < |c| then c[k + 1] else null);
      }
    }
    assert Chain(links', Head(c'), c');
  }

  lemma {:induction false} PushedTable(heads: seq<HNode?>, links: Links, chains: seq<seq<HNode>>, p: nat, n: HNode)
    requires Table(heads, links, chains) && p < |chains| && n.hcode % |chains| == p && n !in links
    ensures Table(heads[p := n], links[n := heads[p]], Pushed(chains, p, n))
  {
    hide Covers, Placed;
    var heads', links', chains' := heads[p := n], links[n := heads[p]], Pushed(chains, p, n);
    forall b | 0 <= b < |chains|
      ensures Chain(links', heads'[b], chains'[b])
    {
      assert Chain(links, heads[b], chains[b]);
      if b == p {
        PushChain(links, heads[p], chains[p], n);
      } else {
        ChainFrame(links, links', heads[b], chains[b]);
      }
    }
    PushedPlaced(chains, p, n, links.Keys);
    PushedCovers(chains, p, n, links.Keys);
    assert links'.Keys == links.Keys + {n};
  }

  lemma ChainAt(heads: seq<HNode?>, links: Links, chains: seq<seq<HNode>>, b: nat)
    requires Table(heads, links, chains) && b < |chains|
    ensures |heads| == |chains| && Chain(links, heads[b], chains[b]) && heads[b] == Head(chains[b])
    ensures forall i | 0 <= i < |chains[b]| :: chains[b][i] in links
  {
  }

  lemma PushedPlaced(chains: seq<seq<HNode>>, p: nat, n: HNode, s: set<HNode>)
    requires Placed(chains) && Covers(chains, s) && p < |chains| && n.hcode % |chains| == p && n !in s
    ensures Placed(Pushed(chains, p, n))
  {
  }

  lemma {:induction false} PushedCovers(chains: seq<seq<HNode>>, p: nat, n: HNode, s: set<HNode>)
    requires Covers(chains, s) && p < |chains|
    ensures Covers(Pushed(chains, p, n), s + {n})
  {
    var chains' := Pushed(chains, p, n);
    assert chains'[p][0] == n;
    forall m | m in s
      ensures exists b, i :: 0 <= b < |chains'| && 0 <= i < |chains'[b]| && chains'[b][i] == m
    {
      var b, i :| 0 <= b < |chains| && 0 <= i < |chains[b]| && chains[b][i] == m;
      assert chains'[b][if b == p then i + 1 else i] == m;
    }
  }

  lemma ChainLinks(links: Links, head: HNode?, c: seq<HNode>, i: nat)
    requires Chain(links, head, c) && i < |c|
    ensures c[i] in links && links[c[i]] == (if i + 1 < |c| then c[i + 1] else null)
    ensures if i == 0 then head == c[0] else c[i - 1] in links && links[c[i - 1]] == c[i]
  {
  }

  // ---- h_detach ----

  ghost function Cut(c: seq<HNode>, i: nat): seq<HNode>
    requires i < |c|
  {
    c[..i] + c[i + 1..]
  }

  ghost function Detached(chains: seq<seq<HNode>>, b: nat, i: nat): seq<seq<HNode>>
    requires b < |chains| && i < |chains[b]|
  {
    chains[b := Cut(chains[b], i)]
  }

  /** The links after `*from = (*from)->next`, with the removed node out of sight. */
  ghost function Unlinked(links: Links, c: seq<HNode>, i: nat): Links
    requires i < |c| && c[i] in links
  {
    (if i == 0 then links else links[c[i - 1] := links[c[i]]]) - {c[i]}
  }

  lemma {:induction false} CutChain(links: Links, head: HNode?, c: seq<HNode>, i: nat)
    requires Chain(links, head, c) && i < |c|
    requires forall j, k | 0 <= j < k < |c| :: c[j] != c[k]
    ensures Chain(Unlinked(links, c, i), if i == 0 then links[c[0]] else head, Cut(c, i))
  {
    var c', links' := Cut(c, i), Unlinked(links, c, i);
    assert c[i] in links && links[c[i]] == (if i + 1 < |c| then c[i + 1] else null);
    assert c' != [] ==> c'[0] == c[if i == 0 then 1 else 0];
    forall j | 0 <= j < |c'|
      ensures c'[j] in links' && links'[c'[j]] == (if j + 1 < |c'| then c'[j + 1] else null)
    {
      var k := if j < i then j else j + 1;
      assert c'[j] == c[k] && c[k] != c[i];
      assert c[k] in links && links[c[k]] == (if k + 1 < |c| then c[k + 1] else null);
      if j + 1 < |c'| {
        assert c'[j + 1] == c[if j + 1 < i then j + 1 else j + 2];
      }
      assert i > 0 && k != i - 1 ==> c[k] != c[i - 1];
    }
    assert Chain(links', Head(c'), c');
  }

  lemma {:induction false} OtherChain(heads: seq<HNode?>, links: Links, chains: seq<seq<HNode>>, b: nat, i: nat, a: nat)
    requires Table(heads, links, chains) && b < |chains| && i < |chains[b]| && a < |chains| && a != b
    ensures chains[b][i] in links && Chain(Unlinked(links, chains[b], i), heads[a], chains[a])
  {
    var c := chains[b];
    ChainAt(heads, links, chains, a);
    ChainAt(heads, links, chains, b);
    forall j | 0 <= j < |chains[a]|
      ensures chains[a][j] != c[i] && (i > 0 ==> chains[a][j] != c[i - 1])
    {
      assert chains[a][j].hcode % |chains| == a;
    }
    ChainFrame(links, Unlinked(links, c, i), heads[a], chains[a]);
  }

  lemma {:induction false} DetachedTable(heads: seq<HNode?>, links: Links, chains: seq<seq<HNode>>, b: nat, i: nat)
    requires Table(heads, links, chains) && b < |chains| && i < |chains[b]|
    ensures chains[b][i] in links && (i > 0 ==> chains[b][i - 1] in links && chains[b][i - 1] != chains[b][i])
    ensures var heads' := if i == 0 then heads[b := links[chains[b][i]]] else heads;
            Table(heads', Unlinked(links, chains[b], i), Detached(chains, b, i))
  {
    var c := chains[b];
    assert Chain(links, heads[b], c);
    var heads' := if i == 0 then heads[b := links[c[i]]] else heads;
    var links', chains' := Unlinked(links, c, i), Detached(chains, b, i);
    assert i > 0 ==> c[i - 1] in links;
    DetachedPlaced(chains, b, i);
    DetachedCovers(chains, b, i, links.Keys);
    CutChain(links, heads[b], c, i);
    forall a | 0 <= a < |chains'| && a != b
      ensures Chain(links', heads'[a], chains'[a])
    {
      OtherChain(heads, links, chains, b, i, a);
    }
    assert links'.Keys == links.Keys - {c[i]};
  }

  lemma DetachedPlaced(chains: seq<seq<HNode>>, b: nat, i: nat)
    requires Placed(chains) && b < |chains| && i < |chains[b]|
    ensures Placed(Detached(chains, b, i))
  {
  }

  lemma {:induction false} DetachedCovers(chains: seq<seq<HNode>>, b: nat, i: nat, s: set<HNode>)
    requires Placed(chains) && Covers(chains, s) && b < |chains| && i < |chains[b]|
    ensures Covers(Detached(chains, b, i), s - {chains[b][i]})
  {
    var chains', n, c, c' := Detached(chains, b, i), chains[b][i], chains[b], Cut(chains[b], i);
    assert forall j | 0 <= j < |c'| :: c'[j] == c[if j < i then j else j + 1];
    forall m | m in s - {n}
      ensures exists a, j :: 0 <= a < |chains'| && 0 <= j < |chains'[a]| && chains'[a][j] == m
    {
      var a, j :| 0 <= a < |chains| && 0 <= j < |chains[a]| && chains[a][j] == m;
      if a == b {
        assert chains'[a][if j < i then j else j - 1] == m;
      } else {
        assert chains'[a][j] == m;
      }
    }
    forall a, j | 0 <= a < |chains'| && 0 <= j < |chains'[a]|
      ensures chains'[a][j] in s - {n}
    {
      if a != b {
        assert chains[a][j].hcode % |chains| == a;
      }
    }
  }
}
