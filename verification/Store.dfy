/** The key-value commands of build_redis/chapter9/commands.hpp on the hash map. */
module Store {
  import opened Bytes
  import opened Wire
  import opened HashChains
  import opened HashMap
  import opened HashScan

  const ERR_UNKNOWN := 1

  /** str_hash over a whole string, in uint32_t arithmetic. */
  function HashOf(data: bytes): nat {
    if data == [] then 0x811C9DC5
    else U32(U32(HashOf(data[..|data| - 1]) + data[|data| - 1]) * 0x01000193)
  }

  method StrHash(data: bytes) returns (h: nat)
    ensures h == HashOf(data)
  {
    h := 0x811C9DC5;
    for i := 0 to |data|
      invariant h == HashOf(data[..i])
    {
      assert data[..i + 1][..i] == data[..i];
      h := U32(U32(h + data[i]) * 0x01000193);
    }
    assert data[..|data|] == data;
  }

  /** entry_eq */
  predicate EntryEq(lhs: HNode, rhs: HKey) {
    lhs.hcode == rhs.hcode && lhs.key == rhs.key
  }

  type Dict = map<bytes, bytes>

  /** The entries are those of the dictionary: one node for each key, with its value and its hash code. */
  ghost predicate Holds(own: Owners, dict: Dict) {
    && (forall n | n in own :: n.hcode == HashOf(n.key) && n.key in dict && own[n] == Entry(dict[n.key]))
    && (forall n, m | n in own && m in own && n.key == m.key :: n == m)
    && (forall k | k in dict :: exists n :: n in own && n.key == k)
  }

  lemma KeyLookup(own: Owners, dict: Dict, key: HKey)
    requires Holds(own, dict) && key.hcode == HashOf(key.key)
    ensures Respects(own.Keys, EntryEq, key)
    ensures NoMatch(own.Keys, EntryEq, key) <==> key.key !in dict
  {
  }

  lemma HoldsUpdate(own: Owners, dict: Dict, n: HNode, val: bytes)
    requires Holds(own, dict) && n in own
    ensures Holds(own[n := Entry(val)], dict[n.key := val])
  {
  }

  lemma HoldsInsert(own: Owners, dict: Dict, n: HNode, val: bytes)
    requires Holds(own, dict) && n !in own && n.key !in dict && n.hcode == HashOf(n.key)
    ensures Holds(own[n := Entry(val)], dict[n.key := val])
  {
  }

  lemma HoldsRemove(own: Owners, dict: Dict, n: HNode)
    requires Holds(own, dict) && n in own
    ensures n.key in dict && Holds(own - {n}, dict - {n.key})
  {
  }

  // ---- What a command does to a dictionary, and what it answers ----

  datatype Outcome = Outcome(dict: Dict, reply: Response)

  const CMD_GET: bytes := [103, 101, 116]
  const CMD_SET: bytes := [115, 101, 116]
  const CMD_DEL: bytes := [100, 101, 108]
  const CMD_KEYS: bytes := [107, 101, 121, 115]
  /** "Unknown cmd" */
  const UNKNOWN_CMD: bytes := [85, 110, 107, 110, 111, 119, 110, 32, 99, 109, 100]

  /** `ks` lists every key of the dictionary exactly once. */
  ghost predicate ListsKeys(ks: seq<bytes>, dict: Dict) {
    NoRepeats(ks) && forall k :: k in ks <==> k in dict
  }

  /** A command on the dictionary: the reply to `keys` may list the keys in any order. */
  ghost predicate Answers(dict: Dict, cmd: seq<bytes>, dict': Dict, reply: Response) {
    if |cmd| == 1 && cmd[0] == CMD_KEYS then
      dict' == dict && exists ks :: ListsKeys(ks, dict) && reply == Arr(Strs(ks))
    else if |cmd| == 2 && cmd[0] == CMD_GET then
      dict' == dict && reply == if cmd[1] in dict then Str(dict[cmd[1]]) else Nil
    else if |cmd| == 3 && cmd[0] == CMD_SET then
      dict' == dict[cmd[1] := cmd[2]] && reply == Nil
    else if |cmd| == 2 && cmd[0] == CMD_DEL then
      dict' == dict - {cmd[1]} && reply == Int(if cmd[1] in dict then 1 else 0)
    else
      dict' == dict && reply == Err(ERR_UNKNOWN, UNKNOWN_CMD)
  }

  lemma {:induction false} EntryValue(own: Owners, dict: Dict, n: HNode)
    requires Holds(own, dict) && n in own
    ensures n.key in dict && own[n] == Entry(dict[n.key]) && n.hcode == HashOf(n.key)
  {
  }

  lemma {:induction false} ScanUnion(f1: seq<HNode>, f2: seq<HNode>)
    requires NoRepeats(f1) && NoRepeats(f2) && SetOf(f1) !! SetOf(f2)
    ensures NoRepeats(f1 + f2) && SetOf(f1 + f2) == SetOf(f1) + SetOf(f2)
  {
    assert forall i, j | 0 <= i < |f1| && 0 <= j < |f2| :: f1[i] in SetOf(f1) && f2[j] in SetOf(f2);
  }

  /** The header and the two scans make up one array reply. */
  lemma {:induction false} KeysReply(out: bytes, f1: seq<HNode>, f2: seq<HNode>)
    ensures var ks := KeysOf(f1 + f2);
            out + ArrHeader(|ks|) + EncodeKeys(f1) + EncodeKeys(f2) == out + Encode(Arr(Strs(ks)))
  {
    var ks := KeysOf(f1 + f2);
    EncodeKeysAppend(f1, f2);
    assert |Strs(ks)| == |ks|;
    assert out + ArrHeader(|ks|) + EncodeKeys(f1) + EncodeKeys(f2)
        == out + (ArrHeader(|ks|) + (EncodeKeys(f1) + EncodeKeys(f2)));
  }

  /** The keys met by a scan that meets every node once are the keys of the dictionary, once each. */
  lemma {:induction false} ScannedKeys(own: Owners, dict: Dict, q: seq<HNode>)
    requires Holds(own, dict) && NoRepeats(q) && SetOf(q) == own.Keys
    ensures ListsKeys(KeysOf(q), dict)
  {
    var ks := KeysOf(q);
    assert forall i | 0 <= i < |q| :: q[i] in SetOf(q) && q[i] in own;
    forall k | k in dict
      ensures k in ks
    {
      var n :| n in own && n.key == k;
      assert n in SetOf(q);
      var i :| 0 <= i < |q| && q[i] == n;
      assert ks[i] == k;
    }
  }

  lemma {:induction false} TableNodes(t: HTab)
    requires t.Valid()
    ensures NoRepeats(Flatten(t.chains)) && SetOf(Flatten(t.chains)) == t.nodes && |Flatten(t.chains)| == t.size
  {
    if t.tab != null {
      assert LinksOf(t.nodes).Keys == t.nodes;
      FlattenTable(t.chains, t.nodes);
    }
  }

  /** g_data */
  class Store {
    const db: HMap

    /** The map holds exactly the entries of `dict`. */
    ghost predicate Represents(dict: Dict)
      reads this, db, db.ht1, db.ht2, db.Shell(), db.Nodes()
    {
      db.Valid() && Holds(OwnersOf(db.Nodes()), dict)
    }

    constructor ()
      ensures Represents(map[]) && fresh(db.Shell()) && db.Nodes() == {}
    {
      db := new HMap();
    }

    /** `hm_lookup(&g_data.db, &key.node, &entry_eq)` */
    method FindEntry(key: HKey, ghost dict: Dict) returns (node: HNode?)
      requires Represents(dict) && key.hcode == HashOf(key.key)
      modifies db.Shell(), db.Nodes()`next
      ensures Represents(dict) && fresh(db.Shell() - old(db.Shell())) && db.Nodes() == old(db.Nodes())
      ensures node == null <==> key.key !in dict
      ensures node != null ==> node in db.Nodes() && node.key == key.key && node.owner == Entry(dict[key.key])
    {
      hide HMap.Tables, HMap.Load, Holds, Respects, NoMatch;
      ghost var own := OwnersOf(db.Nodes());
      KeyLookup(own, dict, key);
      node := db.HmLookup(key, EntryEq);
      if node != null {
        EntryValue(own, dict, node);
      }
    }

    /** do_get */
    method DoGet(key: bytes, out: bytes, ghost dict: Dict) returns (out': bytes)
      requires Represents(dict)
      modifies db.Shell(), db.Nodes()
      ensures Represents(dict) && fresh(db.Shell() - old(db.Shell())) && fresh(db.Nodes() - old(db.Nodes()))
      ensures out' == out + Encode(if key in dict then Str(dict[key]) else Nil)
    {
      hide HMap.Tables, HMap.Load, Holds, Encode;
      var hcode := StrHash(key);
      var node := FindEntry(HKey(hcode, key), dict);
      if node == null {
        out' := OutNil(out);
      } else {
        out' := OutStr(out, node.owner.val);
      }
    }

    /** `container_of(node, Entry, node)->val.swap(cmd[2])` */
    method SetValue(node: HNode, val: bytes, ghost dict: Dict)
      requires Represents(dict) && node in db.Nodes()
      modifies node`owner
      ensures Represents(dict[node.key := val]) && db.Shell() == old(db.Shell()) && db.Nodes() == old(db.Nodes())
    {
      hide Holds, HTab.Valid;
      ghost var own := OwnersOf(db.Nodes());
      HoldsUpdate(own, dict, node, val);
      node.owner := Entry(val);
      assert OwnersOf(db.Nodes()) == own[node := Entry(val)];
    }

    /** `hm_insert(&g_data.db, &ent->node)` */
    method InsertEntry(ent: HNode, ghost dict: Dict)
      requires Represents(dict) && ent !in db.Nodes()
      requires ent.key !in dict && ent.hcode == HashOf(ent.key) && ent.owner.Entry?
      modifies db.Shell(), db.Nodes()`next, ent`next
      ensures Represents(dict[ent.key := ent.owner.val]) && db.Nodes() == old(db.Nodes()) + {ent}
      ensures fresh(db.Shell() - old(db.Shell()))
    {
      hide Holds, HMap.Valid;
      ghost var own := OwnersOf(db.Nodes());
      HoldsInsert(own, dict, ent, ent.owner.val);
      ghost var own' := OwnersOf(db.Nodes() + {ent});
      assert own' == own[ent := ent.owner];
      db.HmInsert(ent);
    }

    /** A new entry, linked into the map. */
    method AddEntry(hcode: nat, key: bytes, val: bytes, ghost dict: Dict)
      requires Represents(dict) && key !in dict && hcode == HashOf(key)
      modifies db.Shell(), db.Nodes()`next
      ensures Represents(dict[key := val])
      ensures fresh(db.Shell() - old(db.Shell())) && fresh(db.Nodes() - old(db.Nodes()))
    {
      hide HMap.Tables, HMap.Load, Holds;
      var ent := new HNode(hcode, key, Entry(val));
      InsertEntry(ent, dict);
    }

    /** do_set for a hashed key: replace the value of the entry, or add an entry. */
    method SetEntry(key: HKey, val: bytes, ghost dict: Dict)
      requires Represents(dict) && key.hcode == HashOf(key.key)
      modifies db.Shell(), db.Nodes()
      ensures Represents(dict[key.key := val])
      ensures fresh(db.Shell() - old(db.Shell())) && fresh(db.Nodes() - old(db.Nodes()))
    {
      hide HMap.Tables, HMap.Load, Holds;
      var node := FindEntry(key, dict);
      if node != null {
        SetValue(node, val, dict);
      } else {
        AddEntry(key.hcode, key.key, val, dict);
      }
    }

    /** do_set */
    method DoSet(key: bytes, val: bytes, out: bytes, ghost dict: Dict) returns (out': bytes)
      requires Represents(dict)
      modifies db.Shell(), db.Nodes()
      ensures Represents(dict[key := val]) && fresh(db.Shell() - old(db.Shell())) && fresh(db.Nodes() - old(db.Nodes()))
      ensures out' == out + Encode(Nil)
    {
      hide HMap.Tables, HMap.Load, Holds, Encode;
      var hcode := StrHash(key);
      SetEntry(HKey(hcode, key), val, dict);
      out' := OutNil(out);
    }

    /** do_del */
    method DoDel(key: bytes, out: bytes, ghost dict: Dict) returns (out': bytes)
      requires Represents(dict)
      modifies db.Shell(), db.Nodes()
      ensures Represents(dict - {key}) && fresh(db.Shell() - old(db.Shell())) && fresh(db.Nodes() - old(db.Nodes()))
      ensures out' == out + Encode(Int(if key in dict then 1 else 0))
    {
      hide HMap.Tables, HMap.Load, Holds, Respects, NoMatch, Encode;
      var hcode := StrHash(key);
      ghost var own := OwnersOf(db.Nodes());
      KeyLookup(own, dict, HKey(hcode, key));
      var node := db.HmPop(HKey(hcode, key), EntryEq);
      if node != null {
        EntryValue(own, dict, node);
        HoldsRemove(own, dict, node);
        assert OwnersOf(db.Nodes()) == own - {node};
      } else {
        assert dict - {key} == dict;
      }
      out' := OutInt(out, if node != null then 1 else 0);
    }

    /** The keys in the order in which do_keys meets them. */
    ghost function ScanOrder(): seq<bytes>
      reads db.ht1, db.ht2
    {
      KeysOf(Flatten(db.ht1.chains) + Flatten(db.ht2.chains))
    }

    lemma ScanListsKeys(dict: Dict)
      requires Represents(dict)
      ensures ListsKeys(ScanOrder(), dict) && |ScanOrder()| == db.HmSize()
    {
      hide Holds, Flatten, HTab.Valid, HMap.Load;
      var f1, f2 := Flatten(db.ht1.chains), Flatten(db.ht2.chains);
      TableNodes(db.ht1);
      TableNodes(db.ht2);
      ScanUnion(f1, f2);
      ScannedKeys(OwnersOf(db.Nodes()), dict, f1 + f2);
    }

    /** do_keys */
    method DoKeys(out: bytes, ghost dict: Dict) returns (out': bytes)
      requires Represents(dict)
      ensures ListsKeys(ScanOrder(), dict)
      ensures out' == out + Encode(Arr(Strs(ScanOrder())))
    {
      hide Holds, Encode, HTab.Valid, HMap.Load, Flatten, EncodeAll, EncodeKeys, ListsKeys, Strs, KeysOf, ArrHeader;
      ScanListsKeys(dict);
      out' := OutArr(out, db.HmSize());
      out' := HScan(db.ht1, out');
      out' := HScan(db.ht2, out');
      KeysReply(out, Flatten(db.ht1.chains), Flatten(db.ht2.chains));
    }

    /** do_request */
    method DoRequest(cmd: seq<bytes>, out: bytes, ghost dict: Dict)
      returns (out': bytes, ghost dict': Dict, ghost reply: Response)
      requires Represents(dict)
      modifies db.Shell(), db.Nodes()
      ensures Represents(dict') && fresh(db.Shell() - old(db.Shell())) && fresh(db.Nodes() - old(db.Nodes()))
      ensures Answers(dict, cmd, dict', reply) && out' == out + Encode(reply)
    {
      hide HMap.Valid, Holds, Encode;
      dict' := dict;
      if |cmd| == 1 && cmd[0] == CMD_KEYS {
        out' := DoKeys(out, dict);
        reply := Arr(Strs(ScanOrder()));
      } else if |cmd| == 2 && cmd[0] == CMD_GET {
        out' := DoGet(cmd[1], out, dict);
        reply := if cmd[1] in dict then Str(dict[cmd[1]]) else Nil;
      } else if |cmd| == 3 && cmd[0] == CMD_SET {
        out' := DoSet(cmd[1], cmd[2], out, dict);
        dict', reply := dict[cmd[1] := cmd[2]], Nil;
      } else if |cmd| == 2 && cmd[0] == CMD_DEL {
        out' := DoDel(cmd[1], out, dict);
        dict', reply := dict - {cmd[1]}, Int(if cmd[1] in dict then 1 else 0);
      } else {
        out' := OutErr(out, ERR_UNKNOWN, UNKNOWN_CMD);
        reply := Err(ERR_UNKNOWN, UNKNOWN_CMD);
      }
    }

    /** Any run of commands from any state: every reply is the encoding of an answer of the dictionary. */
    method Run(cmds: seq<seq<bytes>>, ghost dict: Dict)
      returns (outs: seq<bytes>, ghost dicts: seq<Dict>, ghost replies: seq<Response>)
      requires Represents(dict)
      modifies db.Shell(), db.Nodes()
      ensures |outs| == |replies| == |cmds| && |dicts| == |cmds| + 1 && dicts[0] == dict
      ensures Represents(dicts[|cmds|])
      ensures forall i | 0 <= i < |cmds| :: Answers(dicts[i], cmds[i], dicts[i + 1], replies[i]) && outs[i] == Encode(replies[i])
    {
      hide HMap.Valid, Holds, Encode, Answers;
      outs, dicts, replies := [], [dict], [];
      ghost var d := dict;
      for i := 0 to |cmds|
        invariant Represents(d) && fresh(db.Shell() - old(db.Shell())) && fresh(db.Nodes() - old(db.Nodes()))
        invariant |outs| == |replies| == i && |dicts| == i + 1 && dicts[0] == dict && dicts[i] == d
        invariant forall j | 0 <= j < i :: Answers(dicts[j], cmds[j], dicts[j + 1], replies[j]) && outs[j] == Encode(replies[j])
      {
        var out;
        ghost var reply;
        out, d, reply := DoRequest(cmds[i], [], d);
        outs, dicts, replies := outs + [out], dicts + [d], replies + [reply];
      }
    }
  }
}
