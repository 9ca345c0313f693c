/** Walking a chained table: h_scan of build_redis/chapter9/commands.hpp with the callback cb_scan. */
module HashScan {
  import opened Bytes
  import opened Wire
  import opened HashChains
  import opened HashMap

  /** All nodes, bucket by bucket. */
  ghost function Flatten(chains: seq<seq<HNode>>): seq<HNode> {
    if chains == [] then [] else Flatten(chains[..|chains| - 1]) + chains[|chains| - 1]
  }

  ghost predicate NoRepeats<T>(q: seq<T>) {
    forall i, j | 0 <= i < j < |q| :: q[i] != q[j]
  }

  /** What the scan meets comes from one of the buckets. */
  lemma {:induction false} FlattenSource(chains: seq<seq<HNode>>, k: nat, i: nat) returns (b: nat, j: nat)
    requires k <= |chains| && i < |Flatten(chains[..k])|
    ensures b < k && j < |chains[b]| && chains[b][j] == Flatten(chains[..k])[i]
  {
    assert chains[..k][..k - 1] == chains[..k - 1];
    var f := Flatten(chains[..k - 1]);
    if i < |f| {
      b, j := FlattenSource(chains, k - 1, i);
    } else {
      b, j := k - 1, i - |f|;
    }
  }

  /** The scan of the first k buckets meets each of their nodes once. */
  lemma {:induction false} FlattenPlaced(chains: seq<seq<HNode>>, k: nat)
    requires Placed(chains) && k <= |chains|
    ensures NoRepeats(Flatten(chains[..k]))
    ensures forall i | 0 <= i < |Flatten(chains[..k])| :: Flatten(chains[..k])[i].hcode % |chains| < k
    ensures forall b, i | 0 <= b < k && 0 <= i < |chains[b]| :: chains[b][i] in Flatten(chains[..k])
  {
    if k > 0 {
      FlattenPlaced(chains, k - 1);
      var f, c := Flatten(chains[..k - 1]), chains[k - 1];
      assert chains[..k][..k - 1] == chains[..k - 1];
      assert Flatten(chains[..k]) == f + c;
      hide Flatten;
      assert forall i | 0 <= i < |c| :: c[i].hcode % |chains| == k - 1;
      forall b, i | 0 <= b < k && 0 <= i < |chains[b]|
        ensures chains[b][i] in f + c
      {
        if b < k - 1 {
          assert chains[b][i] in f;
        } else {
          assert chains[b][i] in c;
        }
      }
    }
  }

  ghost function SetOf(q: seq<HNode>): set<HNode> { set n | n in q }

  lemma {:induction false} NoRepeatsCount(q: seq<HNode>)
    requires NoRepeats(q)
    ensures |SetOf(q)| == |q|
  {
    if q != [] {
      var p, n := q[..|q| - 1], q[|q| - 1];
      NoRepeatsCount(p);
      assert SetOf(q) == SetOf(p) + {n} && n !in SetOf(p);
    }
  }

  /** The scan of a whole table meets exactly its nodes, each once; so the chains hold as many nodes
      as the table counts. */
  lemma {:induction false} FlattenTable(chains: seq<seq<HNode>>, s: set<HNode>)
    requires Placed(chains) && Covers(chains, s)
    ensures NoRepeats(Flatten(chains)) && SetOf(Flatten(chains)) == s && |Flatten(chains)| == |s|
  {
    FlattenPlaced(chains, |chains|);
    assert chains[..|chains|] == chains;
    var f := Flatten(chains);
    forall n | n in s
      ensures n in f
    {
      var b, i := Find(chains, s, n);
    }
    forall i | 0 <= i < |f|
      ensures f[i] in s
    {
      var b, j := FlattenSource(chains, |chains|, i);
    }
    NoRepeatsCount(f);
  }

  // ---- The replies ----

  function Strs(ks: seq<bytes>): seq<Response> {
    seq(|ks|, i requires 0 <= i < |ks| => Str(ks[i]))
  }

  ghost function KeysOf(q: seq<HNode>): seq<bytes> {
    seq(|q|, i requires 0 <= i < |q| => q[i].key)
  }

  lemma EncodeAllCons(a: seq<Response>)
    ensures EncodeAll(a) == if a == [] then [] else Encode(a[0]) + EncodeAll(a[1..])
  {
  }

  lemma {:induction false} EncodeAllAppend(a: seq<Response>, b: seq<Response>)
    ensures EncodeAll(a + b) == EncodeAll(a) + EncodeAll(b)
  {
    hide *;
    EncodeAllCons(a);
    if a == [] {
      assert a + b == b;
      assert [] + EncodeAll(b) == EncodeAll(b);
    } else {
      var c := a + b;
      assert c[0] == a[0];
      assert c[1..] == a[1..] + b;
      EncodeAllCons(c);
      EncodeAllAppend(a[1..], b);
      var x, y, z := Encode(a[0]), EncodeAll(a[1..]), EncodeAll(b);
      assert (x + y) + z == x + (y + z);
    }
  }

  ghost function EncodeKeys(q: seq<HNode>): bytes {
    EncodeAll(Strs(KeysOf(q)))
  }

  lemma {:induction false} EncodeKeysAppend(a: seq<HNode>, b: seq<HNode>)
    ensures EncodeKeys(a + b) == EncodeKeys(a) + EncodeKeys(b)
  {
    assert Strs(KeysOf(a + b)) == Strs(KeysOf(a)) + Strs(KeysOf(b));
    EncodeAllAppend(Strs(KeysOf(a)), Strs(KeysOf(b)));
  }

  lemma {:induction false} EncodeOneKey(n: HNode)
    ensures EncodeKeys([n]) == Encode(Str(n.key))
  {
    var r := Str(n.key);
    assert Strs(KeysOf([n])) == [r];
    assert EncodeAll([r]) == Encode(r) + EncodeAll([]);
  }

  /** h_scan with cb_scan: append the keys of the table to `out`. */
  method HScan(t: HTab, out: bytes) returns (out': bytes)
    requires t.Valid()
    ensures out' == out + EncodeKeys(Flatten(t.chains))
  {
    hide Encode, EncodeKeys, Covers, Placed, Table, Linked, Chain;
    out' := out;
    if t.size == 0 {
      EmptyTable(t);
      return;
    }
    EncodeNothing();
    for i := 0 to t.mask + 1
      invariant out' == out + EncodeKeys(Flatten(t.chains[..i]))
    {
      out' := ScanBucket(t, i, out');
      assert t.chains[..i + 1][..i] == t.chains[..i];
      EncodeKeysAppend(Flatten(t.chains[..i]), t.chains[i]);
    }
    assert t.chains[..|t.chains|] == t.chains;
  }

  lemma EncodeNothing()
    ensures EncodeKeys([]) == [] && Flatten([]) == []
  {
  }

  lemma {:induction false} EmptyTable(t: HTab)
    requires t.Valid() && t.size == 0
    ensures EncodeKeys(Flatten(t.chains)) == []
  {
    if t.tab != null {
      FlattenTable(t.chains, LinksOf(t.nodes).Keys);
      assert Flatten(t.chains) == [];
    }
    EncodeNothing();
  }

  /** The inner loop of h_scan over one bucket. */
  method ScanBucket(t: HTab, b: nat, out: bytes) returns (out': bytes)
    requires t.Valid() && t.tab != null && b < |t.chains|
    ensures out' == out + EncodeKeys(t.chains[b])
  {
    hide Encode, EncodeKeys, Covers, Placed, Table, Linked, Chain;
    out' := out;
    ghost var c, links := t.chains[b], LinksOf(t.nodes);
    ChainAt(t.tab[..], links, t.chains, b);
    EncodeNothing();
    ghost var j := 0;
    var node := t.tab[b];
    while node != null
      invariant j <= |c| && node == (if j < |c| then c[j] else null)
      invariant out' == out + EncodeKeys(c[..j])
      decreases |c| - j
    {
      ChainLinks(links, t.tab[..][b], c, j);
      assert links[node] == node.next;
      EncodeOneKey(node);
      EncodeKeysAppend(c[..j], [node]);
      assert c[..j + 1] == c[..j] + [node];
      out' := OutStr(out', node.key);
      node := node.next;
      j := j + 1;
    }
    assert c[..|c|] == c;
  }
}
