/** The hash map of build_redis/chapter11/hashtable.hpp: a chained table that is doubled and then
    emptied into its successor a few nodes at a time. */
module HashMap {
  import opened Bits
  import opened Bytes
  import opened HashChains
  import opened Options

  const RESIZING_WORK := 128
  const MAX_LOAD_FACTOR := 8

  /** The key node that a lookup carries: the hash code and the bytes. */
  datatype HKey = HKey(hcode: nat, key: bytes)

  type Cmp = (HNode, HKey) -> bool

  /** `HNode **`: the pointer that points to a node of a chain. */
  datatype Slot = Bucket(pos: nat) | NextOf(node: HNode)

  /** A match has the hash code of the key, so it can only be in the key's bucket. */
  ghost predicate Respects(s: set<HNode>, cmp: Cmp, key: HKey) {
    forall n | n in s && cmp(n, key) :: n.hcode == key.hcode
  }

  ghost predicate NoMatch(s: set<HNode>, cmp: Cmp, key: HKey) {
    forall n | n in s :: !cmp(n, key)
  }

  lemma MatchUnion(a: set<HNode>, b: set<HNode>, cmp: Cmp, key: HKey)
    ensures Respects(a + b, cmp, key) <==> Respects(a, cmp, key) && Respects(b, cmp, key)
    ensures NoMatch(a + b, cmp, key) <==> NoMatch(a, cmp, key) && NoMatch(b, cmp, key)
  {
  }

  ghost predicate IsPow2(n: nat) { exists k: nat :: n == Pow2(k) }

  class HTab {
    var tab: array?<HNode?>
    var mask: nat
    var size: nat
    ghost var nodes: set<HNode>
    ghost var chains: seq<seq<HNode>>

    /** The chains hold exactly `nodes`, each once and in the bucket of its masked hash code;
        `size` counts them; the number of buckets is a power of two. */
    ghost predicate Valid()
      reads this, tab, nodes`next
    {
      if tab == null then nodes == {} && chains == [] && mask == 0 && size == 0
      else
        && tab.Length == mask + 1 == |chains| && IsPow2(mask + 1)
        && size == |nodes|
        && Table(tab[..], LinksOf(nodes), chains)
    }

    /** HTab{} */
    constructor ()
      ensures Valid() && tab == null && nodes == {}
    {
      tab, mask, size := null, 0, 0;
      nodes, chains := {}, [];
    }

    /** h_init */
    method HInit(n: nat)
      requires n > 0 && And(n - 1, n) == 0
      modifies this
      ensures Valid() && fresh(tab) && tab != null && mask == n - 1 && size == 0 && nodes == {}
      ensures forall b | 0 <= b < |chains| :: chains[b] == []
    {
      tab := new HNode?[n](_ => null);
      mask := n - 1;
      size := 0;
      nodes, chains := {}, seq(n, _ => []);
      PowerOfTwoTest(n);
    }

    /** `hcode & mask` */
    lemma Masked(hcode: nat)
      requires Valid() && tab != null
      ensures And(hcode, mask) == hcode % |chains| < |chains|
    {
      var k: nat :| mask + 1 == Pow2(k);
      MaskIsMod(hcode, k);
    }

    /** h_insert */
    method HInsert(node: HNode)
      requires Valid() && tab != null && node !in nodes
      modifies this`size, this`nodes, this`chains, tab, node`next
      ensures Valid() && size == old(size) + 1 && nodes == old(nodes) + {node}
      ensures |chains| == old(|chains|)
      ensures var p := node.hcode % |chains|; p < |chains| && chains == Pushed(old(chains), p, node)
    {
      ghost var heads, links := tab[..], LinksOf(nodes);
      Masked(node.hcode);
      var pos := And(node.hcode, mask);
      PushedTable(heads, links, chains, pos, node);
      var next := tab[pos];
      node.next := next;
      tab[pos] := node;
      size := size + 1;
      nodes, chains := nodes + {node}, Pushed(chains, pos, node);
      assert tab[..] == heads[pos := node];
      assert LinksOf(nodes) == links[node := next];
    }

    /** The slot `from` is the one that points to the i-th node of bucket `b`. */
    ghost predicate Points(from: Slot, b: nat, i: nat)
      reads this
    {
      && b < |chains| && i < |chains[b]|
      && from == if i == 0 then Bucket(b) else NextOf(chains[b][i - 1])
    }

    /** h_lookup: the slot of the first matching node in the bucket of the key. */
    method HLookup(key: HKey, cmp: Cmp) returns (found: bool, from: Slot, ghost b: nat, ghost i: nat)
      requires Valid()
      requires Respects(nodes, cmp, key)
      ensures found ==> tab != null && Points(from, b, i) && chains[b][i] in nodes && cmp(chains[b][i], key)
      ensures !found ==> NoMatch(nodes, cmp, key)
    {
      hide Table, Linked, Placed, Covers, Chain;
      found, from, b, i := false, Bucket(0), 0, 0;
      if tab == null {
        return;
      }
      Masked(key.hcode);
      var pos := And(key.hcode, mask);
      from, b := Bucket(pos), pos;
      ghost var c, links := chains[b], LinksOf(nodes);
      ChainAt(tab[..], links, chains, b);
      var node := tab[pos];
      while node != null
        invariant i <= |c| && node == (if i < |c| then c[i] else null)
        invariant from == if i == 0 then Bucket(b) else NextOf(c[i - 1])
        invariant forall j | 0 <= j < i :: !cmp(c[j], key)
        decreases |c| - i
      {
        if cmp(node, key) {
          found := true;
          return;
        }
        ChainLinks(links, tab[..][b], c, i);
        assert links[node] == node.next;
        from := NextOf(node);
        node := node.next;
        i := i + 1;
      }
      OnlyInBucket(key, cmp, b);
    }

    /** No match in the bucket of the key: no match in the table. */
    lemma OnlyInBucket(key: HKey, cmp: Cmp, b: nat)
      requires Valid() && tab != null && b < |chains| && b == key.hcode % |chains|
      requires Respects(nodes, cmp, key)
      requires forall j | 0 <= j < |chains[b]| :: !cmp(chains[b][j], key)
      ensures NoMatch(nodes, cmp, key)
    {
      forall n | n in nodes
        ensures !cmp(n, key)
      {
        assert n in LinksOf(nodes);
        var a, j := Find(chains, LinksOf(nodes).Keys, n);
        assert chains[a][j].hcode % |chains| == a;
      }
    }

    /** `*from` */
    method Target(from: Slot, ghost b: nat, ghost i: nat) returns (node: HNode)
      requires Valid() && tab != null && Points(from, b, i)
      ensures node == chains[b][i]
    {
      hide Table, Linked, Placed, Covers, Chain;
      ghost var links := LinksOf(nodes);
      ChainAt(tab[..], links, chains, b);
      ChainLinks(links, tab[..][b], chains[b], i);
      match from {
        case Bucket(pos) => node := tab[pos];
        case NextOf(prev) =>
          assert links[prev] == prev.next;
          node := prev.next;
      }
    }

    /** h_detach */
    method HDetach(from: Slot, ghost b: nat, ghost i: nat) returns (node: HNode)
      requires Valid() && tab != null && Points(from, b, i)
      modifies this`size, this`nodes, this`chains, tab, nodes`next
      ensures Valid() && node == old(chains[b][i]) && node in old(nodes)
      ensures size == old(size) - 1 && nodes == old(nodes) - {node}
      ensures chains == Detached(old(chains), b, i)
    {
      hide Table, Linked, Placed, Covers, Chain;
      ghost var heads, links, c := tab[..], LinksOf(nodes), chains[b];
      ChainAt(heads, links, chains, b);
      DetachedTable(heads, links, chains, b, i);
      ChainLinks(links, heads[b], c, i);
      match from {
        case Bucket(pos) =>
          node := tab[pos];
          tab[pos] := node.next;
        case NextOf(prev) =>
          node := prev.next;
          prev.next := node.next;
      }
      size := size - 1;
      nodes, chains := nodes - {node}, Detached(chains, b, i);
      assert tab[..] == if i == 0 then heads[b := links[c[i]]] else heads;
      assert LinksOf(nodes) == Unlinked(links, c, i);
    }
  }

  /** How far a map has grown: the buckets of the new table, and the nodes left in the old one while a migration runs. */
  datatype Stage = Stage(buckets: nat, left: Option<nat>)

  /** A round of migration moves 128 nodes, and ends the migration with the last one. */
  function Helped(s: Stage): Stage {
    match s.left
    case None => s
    case Some(n) => s.(left := if n <= 128 then None else Some(n - 128))
  }

  /** An insertion that makes it `n` nodes: the first one brings four buckets, and eight nodes a bucket start a migration
      to twice as many, unless one is running. */
  function Grown(s: Stage, n: nat): Stage {
    var b := if s.buckets == 0 then 4 else s.buckets;
    if s.left == None && n >= 8 * b then Stage(2 * b, Some(n)) else Stage(b, s.left)
  }

  /** A node was taken out of the old table. */
  predicate LessOne(s: Stage, s': Stage) {
    s.left.Some? && s.left.value > 0 && s' == s.(left := Some(s.left.value - 1))
  }

  class HMap {
    const ht1: HTab
    const ht2: HTab
    var resizingPos: nat

    /** Both tables are valid and share no node. While a migration runs, the new table has twice the
        buckets of the old one, and the old buckets below `resizingPos` are empty. */
    ghost predicate Tables()
      reads this, ht1, ht2, ht1.tab, ht2.tab, ht1.nodes`next, ht2.nodes`next
    {
      && ht1 != ht2 && ht1.Valid() && ht2.Valid() && ht1.nodes !! ht2.nodes
      && (ht1.tab != null ==> ht1.tab != ht2.tab && ht1.mask + 1 >= 4)
      && (ht2.tab != null ==>
            && ht1.tab != null && ht1.mask + 1 == 2 * (ht2.mask + 1)
            && resizingPos <= |ht2.chains| && EmptyBelow(ht2.chains, resizingPos))
    }

    static ghost predicate EmptyBelow(chains: seq<seq<HNode>>, pos: nat)
      requires pos <= |chains|
    {
      forall b | 0 <= b < pos :: chains[b] == []
    }

    ghost function Now(): Stage
      reads ht1, ht2
    {
      Stage(if ht1.tab == null then 0 else ht1.mask + 1, if ht2.tab == null then None else Some(ht2.size))
    }

    /** hm_size */
    function HmSize(): nat
      reads ht1, ht2
    {
      ht1.size + ht2.size
    }

    /** The load bound that the code keeps although it checks the load only between migrations. */
    ghost predicate Load()
      reads this, ht1, ht2
    {
      && (ht1.tab != null ==> LoadOk(HmSize(), ht1.mask + 1))
      && (ht2.tab != null ==> MigrationOk(HmSize(), ht2.mask + 1, ht2.size))
    }

    static ghost predicate LoadOk(n: nat, buckets: nat) {
      n < MAX_LOAD_FACTOR * buckets
    }

    /** With `c` old buckets, `left` nodes still in them and `n` nodes in all. */
    static ghost predicate MigrationOk(n: nat, c: nat, left: nat) {
      RESIZING_WORK * (n - MAX_LOAD_FACTOR * c) <= MAX_LOAD_FACTOR * c - left
    }

    /** The insertion of one node and then a round of migration. */
    static lemma InsertPays(n: nat, c: nat, left: nat, left': nat)
      requires MigrationOk(n, c, left) && c > 0
      requires left' == if left <= RESIZING_WORK then 0 else left - RESIZING_WORK
      ensures LoadOk(n + 1, 2 * c)
      ensures left' > 0 ==> MigrationOk(n + 1, c, left')
    {
    }

    /** A round of migration alone, and the removal of a node of the old table or of the new. */
    static lemma OthersPay(n: nat, c: nat, left: nat, left': nat)
      requires MigrationOk(n, c, left) && left' <= left
      ensures MigrationOk(n, c, left') && (c > 0 ==> LoadOk(n, 2 * c))
      ensures n > 0 ==> MigrationOk(n - 1, c, left') && LoadOk(n - 1, 2 * c)
      ensures n > 0 && left' > 0 ==> MigrationOk(n - 1, c, left' - 1)
    {
    }

    /** The migration starts when the load factor is reached, which is at n + 1 == 8c exactly. */
    static lemma StartPays(n: nat, c: nat)
      requires c > 0
      ensures LoadOk(n, c) ==> ((n + 1) / c >= MAX_LOAD_FACTOR <==> n + 1 == MAX_LOAD_FACTOR * c)
      ensures LoadOk(n, c) && n + 1 != MAX_LOAD_FACTOR * c ==> LoadOk(n + 1, c)
    {
    }

    ghost predicate Valid()
      reads this, ht1, ht2, ht1.tab, ht2.tab, ht1.nodes`next, ht2.nodes`next
    {
      Tables() && Load()
    }

    ghost function Nodes(): set<HNode>
      reads ht1, ht2
    {
      ht1.nodes + ht2.nodes
    }

    /** The objects of the map besides its nodes. */
    ghost function Shell(): set<object>
      reads this, ht1, ht2
    {
      {this, ht1, ht2} + (if ht1.tab == null then {} else {ht1.tab}) + (if ht2.tab == null then {} else {ht2.tab})
    }

    constructor ()
      ensures Valid() && Nodes() == {} && fresh(Shell())
    {
      ht1 := new HTab();
      ht2 := new HTab();
      resizingPos := 0;
    }

    /** While nodes are left in the old table, `resizingPos` is one of its buckets. */
    lemma PosInside()
      requires Tables() && ht2.tab != null && ht2.size > 0
      ensures resizingPos < |ht2.chains|
    {
      var n :| n in ht2.nodes;
      assert n in LinksOf(ht2.nodes);
      var b, i := Find(ht2.chains, LinksOf(ht2.nodes).Keys, n);
    }

    /** `h_insert(&hmap->ht1, h_detach(&hmap->ht2, from))` */
    method MoveFirst()
      requires Tables() && ht2.tab != null && resizingPos < |ht2.chains| && ht2.chains[resizingPos] != []
      modifies ht1`size, ht1`nodes, ht1`chains, ht2`size, ht2`nodes, ht2`chains
      modifies ht1.tab, ht2.tab, ht1.nodes`next, ht2.nodes`next
      ensures Tables() && Nodes() == old(Nodes()) && ht1.size == old(ht1.size) + 1 && ht2.size == old(ht2.size) - 1
      ensures |ht2.chains| == old(|ht2.chains|)
    {
      hide Table;
      var node := ht2.HDetach(Bucket(resizingPos), resizingPos, 0);
      ht1.HInsert(node);
    }

    /** hm_help_resizing: move at most RESIZING_WORK nodes, and drop the old table when it is empty. */
    method HelpResizing()
      requires Tables()
      modifies this`resizingPos, ht1`size, ht1`nodes, ht1`chains, ht2
      modifies ht1.tab, ht2.tab, ht1.nodes`next, ht2.nodes`next
      ensures Tables() && Nodes() == old(Nodes()) && HmSize() == old(HmSize())
      ensures ht2.size == if old(ht2.size) <= RESIZING_WORK then 0 else old(ht2.size) - RESIZING_WORK
      ensures ht2.tab == if ht2.size == 0 then null else old(ht2.tab)
      ensures ht2.tab != null ==> ht2.mask == old(ht2.mask)
      ensures Now() == Helped(old(Now()))
    {
      hide Table;
      if ht2.tab == null {
        return;
      }
      var nwork := 0;
      while nwork < RESIZING_WORK && ht2.size > 0
        invariant Tables() && ht2.tab == old(ht2.tab) && ht2.mask == old(ht2.mask)
        invariant Nodes() == old(Nodes()) && HmSize() == old(HmSize())
        invariant nwork <= RESIZING_WORK && ht2.size == old(ht2.size) - nwork
        invariant |ht2.chains| == |old(ht2.chains)|
        decreases ht2.size, |ht2.chains| - resizingPos
      {
        PosInside();
        BucketHead(resizingPos);
        if ht2.tab[resizingPos] == null {
          resizingPos := resizingPos + 1;
        } else {
          MoveFirst();
          nwork := nwork + 1;
        }
      }
      if ht2.size == 0 {
        DropOld();
      }
    }

    /** hm_help_resizing on a map within its load bound. */
    method Help()
      requires Valid()
      modifies this`resizingPos, ht1`size, ht1`nodes, ht1`chains, ht2
      modifies ht1.tab, ht2.tab, ht1.nodes`next, ht2.nodes`next
      ensures Valid() && Nodes() == old(Nodes()) && HmSize() == old(HmSize())
      ensures ht2.tab == null || ht2.tab == old(ht2.tab)
      ensures Now() == Helped(old(Now()))
    {
      hide Table, HTab.Valid;
      ghost var n, c, left := HmSize(), ht2.mask + 1, ht2.size;
      HelpResizing();
      if ht2.tab != null {
        OthersPay(n, c, left, ht2.size);
      }
    }

    lemma BucketHead(b: nat)
      requires Tables() && ht2.tab != null && b < |ht2.chains|
      ensures ht2.tab.Length == |ht2.chains| && (ht2.tab[b] == null <==> ht2.chains[b] == [])
    {
    }

    /** `free(hmap->ht2.tab); hmap->ht2 = HTab{}` */
    method DropOld()
      requires Tables() && ht2.tab != null && ht2.size == 0
      modifies ht2
      ensures Tables() && Nodes() == old(Nodes()) && ht2.tab == null && ht2.size == 0
    {
      hide Table;
      ht2.tab, ht2.mask, ht2.size := null, 0, 0;
      ht2.nodes, ht2.chains := {}, [];
    }

    /** hm_lookup */
    method HmLookup(key: HKey, cmp: Cmp) returns (node: HNode?)
      requires Valid() && Respects(Nodes(), cmp, key)
      modifies Shell(), Nodes()`next
      ensures Valid() && Nodes() == old(Nodes()) && HmSize() == old(HmSize())
      ensures fresh(Shell() - old(Shell())) && OwnersOf(Nodes()) == old(OwnersOf(Nodes()))
      ensures node == null ==> NoMatch(Nodes(), cmp, key)
      ensures node != null ==> node in Nodes() && cmp(node, key)
      ensures Now() == Helped(old(Now()))
    {
      hide Table, Respects, NoMatch, Load, HTab.Valid, HTab.Points;
      Help();
      MatchUnion(ht1.nodes, ht2.nodes, cmp, key);
      var found, from;
      ghost var b, i;
      found, from, b, i := ht1.HLookup(key, cmp);
      if found {
        node := ht1.Target(from, b, i);
        return;
      }
      found, from, b, i := ht2.HLookup(key, cmp);
      if found {
        node := ht2.Target(from, b, i);
        return;
      }
      node := null;
    }

    /** hm_start_resizing */
    method StartResizing()
      requires Tables() && ht1.tab != null && ht2.tab == null
      modifies this`resizingPos, ht1, ht2
      ensures Tables() && Nodes() == old(Nodes()) && HmSize() == old(HmSize())
      ensures ht2.tab != null && ht2.size == old(ht1.size) && ht2.mask == old(ht1.mask) && ht1.size == 0
      ensures fresh(ht1.tab) && ht2.tab == old(ht1.tab) && ht2.nodes == old(ht1.nodes) && ht1.nodes == {}
    {
      hide Table, LoadOk, MigrationOk;
      ht2.tab, ht2.mask, ht2.size := ht1.tab, ht1.mask, ht1.size;
      ht2.nodes, ht2.chains := ht1.nodes, ht1.chains;
      DoublePow2(ht1.mask + 1);
      ht1.HInit((ht1.mask + 1) * 2);
      resizingPos := 0;
    }

    static lemma DoublePow2(n: nat)
      requires IsPow2(n)
      ensures n > 0 && IsPow2(n * 2) && And(n * 2 - 1, n * 2) == 0
    {
      var k: nat :| n == Pow2(k);
      assert n * 2 == Pow2(k + 1);
      PowerOfTwoTest(n * 2);
    }

    /** What an insertion leaves of the load bound before the migration goes on. */
    ghost predicate LoadBefore()
      reads this, ht1, ht2
    {
      && HmSize() > 0
      && (ht2.tab == null ==> LoadOk(HmSize() - 1, ht1.mask + 1))
      && (ht2.tab != null ==> MigrationOk(HmSize() - 1, ht2.mask + 1, ht2.size))
    }

    /** hm_insert up to hm_help_resizing. */
    method InsertFirst(node: HNode)
      requires Valid() && node !in Nodes()
      modifies this`resizingPos, ht1, ht2, ht1.tab, node`next
      ensures Tables() && Nodes() == old(Nodes()) + {node} && HmSize() == old(HmSize()) + 1 && ht1.tab != null
      ensures ht1.tab == old(ht1.tab) || fresh(ht1.tab)
      ensures ht2.tab == old(ht2.tab) || (old(ht2.tab) == null && (ht2.tab == old(ht1.tab) || fresh(ht2.tab)))
      ensures ht1.nodes <= old(ht1.nodes) + {node} && ht2.nodes <= old(ht1.nodes) + old(ht2.nodes) + {node}
      ensures ht2.tab == null ==> LoadOk(HmSize(), ht1.mask + 1)
      ensures ht2.tab != null ==> MigrationOk(HmSize() - 1, ht2.mask + 1, ht2.size)
                                  || (HmSize() == MAX_LOAD_FACTOR * (ht2.mask + 1) == ht2.size)
      ensures Now() == Grown(old(Now()), HmSize())
    {
      hide Table, LoadOk, MigrationOk, HTab.Valid;
      FirstTable();
      PushNew(node);
      CheckLoad();
    }

    /** `h_insert(&hmap->ht1, node)` */
    method PushNew(node: HNode)
      requires Valid() && ht1.tab != null && node !in Nodes()
      modifies ht1`size, ht1`nodes, ht1`chains, ht1.tab, node`next
      ensures Tables() && LoadBefore() && HmSize() == old(HmSize()) + 1
      ensures ht1.nodes == old(ht1.nodes) + {node} && Now() == old(Now())
    {
      hide Table, LoadOk, MigrationOk;
      ht1.HInsert(node);
    }

    /** The load check of hm_insert, made only when no migration runs. */
    method CheckLoad()
      requires Tables() && ht1.tab != null && LoadBefore()
      modifies this`resizingPos, ht1, ht2
      ensures Tables() && Nodes() == old(Nodes()) && HmSize() == old(HmSize()) && ht1.tab != null
      ensures ht1.tab == old(ht1.tab) || fresh(ht1.tab)
      ensures ht2.tab == old(ht2.tab) || (old(ht2.tab) == null && ht2.tab == old(ht1.tab))
      ensures ht1.nodes <= old(ht1.nodes) && ht2.nodes <= old(ht1.nodes) + old(ht2.nodes)
      ensures ht2.tab == null ==> LoadOk(HmSize(), ht1.mask + 1)
      ensures ht2.tab != null ==> MigrationOk(HmSize() - 1, ht2.mask + 1, ht2.size)
                                  || (HmSize() == MAX_LOAD_FACTOR * (ht2.mask + 1) == ht2.size)
      ensures Now() == Grown(old(Now()), HmSize())
    {
      hide Table, LoadOk, MigrationOk, HTab.Valid;
      EightPerBucket(HmSize(), ht1.mask + 1);
      StartPays(HmSize() - 1, ht1.mask + 1);
      NoOld();
      if ht2.tab == null {
        var loadFactor := ht1.size / (ht1.mask + 1);
        if loadFactor >= MAX_LOAD_FACTOR {
          StartResizing();
        }
      }
    }

    /** The division of the load check. */
    static lemma EightPerBucket(n: nat, buckets: nat)
      requires buckets > 0
      ensures n / buckets >= 8 <==> n >= 8 * buckets
    {
      assert n == buckets * (n / buckets) + n % buckets;
    }

    lemma NoOld()
      requires Tables()
      ensures ht2.tab == null ==> ht2.size == 0
    {
    }

    /** `if (!hmap->ht1.tab) h_init(&hmap->ht1, 4)` */
    method FirstTable()
      requires Valid()
      modifies ht1
      ensures Valid() && ht1.tab != null && Nodes() == old(Nodes()) && HmSize() == old(HmSize())
      ensures ht1.tab == old(ht1.tab) || fresh(ht1.tab)
      ensures ht1.nodes == old(ht1.nodes)
      ensures Now() == if old(ht1.tab) == null then Stage(4, None) else old(Now())
    {
      hide Table;
      if ht1.tab == null {
        PowerOfTwoTest(4);
        assert Pow2(2) == 4;
        ht1.HInit(4);
      }
    }

    /** hm_insert */
    method HmInsert(node: HNode)
      requires Valid() && node !in Nodes()
      modifies Shell(), Nodes()`next, node`next
      ensures Valid() && Nodes() == old(Nodes()) + {node} && HmSize() == old(HmSize()) + 1
      ensures fresh(Shell() - old(Shell())) && OwnersOf(Nodes()) == old(OwnersOf(Nodes() + {node}))
      ensures Now() == Helped(Grown(old(Now()), HmSize()))
    {
      hide Table, HTab.Valid;
      InsertFirst(node);
      ghost var n, c, left := HmSize(), ht2.mask + 1, ht2.size;
      if ht2.tab != null && MigrationOk(n - 1, c, left) {
        InsertPays(n - 1, c, left, if left <= RESIZING_WORK then 0 else left - RESIZING_WORK);
      }
      HelpResizing();
    }

    /** Look the key up in the new table, and take its node out. */
    method PopNew(key: HKey, cmp: Cmp) returns (node: HNode?)
      requires Valid() && Respects(ht1.nodes, cmp, key)
      modifies ht1`size, ht1`nodes, ht1`chains, ht1.tab, ht1.nodes`next
      ensures Valid()
      ensures node == null ==> Nodes() == old(Nodes()) && HmSize() == old(HmSize()) && NoMatch(ht1.nodes, cmp, key)
      ensures node != null ==> node in old(Nodes()) && cmp(node, key)
                               && Nodes() == old(Nodes()) - {node} && HmSize() == old(HmSize()) - 1
      ensures Now() == old(Now())
    {
      hide Table, Respects, NoMatch;
      node := null;
      var found, from;
      ghost var b, i;
      found, from, b, i := ht1.HLookup(key, cmp);
      if found {
        node := ht1.HDetach(from, b, i);
      }
    }

    /** The same for the old table. */
    method PopOld(key: HKey, cmp: Cmp) returns (node: HNode?)
      requires Valid() && Respects(ht2.nodes, cmp, key)
      modifies ht2`size, ht2`nodes, ht2`chains, ht2.tab, ht2.nodes`next
      ensures Valid()
      ensures node == null ==> Nodes() == old(Nodes()) && HmSize() == old(HmSize()) && NoMatch(ht2.nodes, cmp, key)
      ensures node != null ==> node in old(Nodes()) && cmp(node, key)
                               && Nodes() == old(Nodes()) - {node} && HmSize() == old(HmSize()) - 1
      ensures Now() == old(Now()) || (node != null && LessOne(old(Now()), Now()))
    {
      hide Table, Respects, NoMatch;
      node := null;
      var found, from;
      ghost var b, i;
      found, from, b, i := ht2.HLookup(key, cmp);
      if found {
        node := ht2.HDetach(from, b, i);
      }
    }

    /** hm_pop */
    method HmPop(key: HKey, cmp: Cmp) returns (node: HNode?)
      requires Valid() && Respects(Nodes(), cmp, key)
      modifies Shell(), Nodes()`next
      ensures Valid() && fresh(Shell() - old(Shell())) && OwnersOf(old(Nodes())) == old(OwnersOf(Nodes()))
      ensures node == null ==> Nodes() == old(Nodes()) && HmSize() == old(HmSize()) && NoMatch(Nodes(), cmp, key)
      ensures node != null ==> node in old(Nodes()) && cmp(node, key)
                               && Nodes() == old(Nodes()) - {node} && HmSize() == old(HmSize()) - 1
      ensures Now() == Helped(old(Now())) || (node != null && LessOne(Helped(old(Now())), Now()))
    {
      hide Table, Respects, NoMatch, Load, HTab.Valid, HTab.Points;
      Help();
      MatchUnion(ht1.nodes, ht2.nodes, cmp, key);
      node := PopNew(key, cmp);
      if node == null {
        MatchUnion(ht1.nodes, ht2.nodes, cmp, key);
        node := PopOld(key, cmp);
        MatchUnion(ht1.nodes, ht2.nodes, cmp, key);
      }
    }
  }
}
