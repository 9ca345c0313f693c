/** Which literals and matches stbi_zlib_compress writes for its input (cuda/chapter3/stb_image_write.h). */
module Parses {
  import opened Bytes
  import opened DeflateBits
  import opened Inflate
  import opened Matches

  datatype Token = Lit(b: byte) | Ref(len: nat, dist: nat)

  /** The last code from `j` on whose base is at most `len`. */
  function LengthCode(len: nat, j: nat): (r: nat)
    requires j < 29
    ensures r < 29
    decreases 29 - j
  {
    if j + 1 < 29 && LengthBase(j + 1) <= len then LengthCode(len, j + 1) else j
  }

  function DistCode(dist: nat, d: nat): (r: nat)
    requires d < 30
    ensures r < 30
    decreases 30 - d
  {
    if d + 1 < 30 && DistBase(d + 1) <= dist then DistCode(dist, d + 1) else d
  }

  function Over(v: int, base: int): nat { if v < base then 0 else v - base }

  /** The bits of a literal or a match, with the codes of section 3.2.6 of RFC 1951. */
  function TokenBits(t: Token): bits {
    match t
    case Lit(b) => SymbolBits(b)
    case Ref(len, dist) =>
      var j, d := LengthCode(len, 0), DistCode(dist, 0);
      MatchBits(j, Over(len, LengthBase(j)), d, Over(dist, DistBase(d)))
  }

  function TokensBits(ts: seq<Token>): bits {
    if ts == [] then [] else TokensBits(ts[..|ts| - 1]) + TokenBits(ts[|ts| - 1])
  }

  lemma TokensBitsAppend(ts: seq<Token>, t: Token)
    ensures TokensBits(ts + [t]) == TokensBits(ts) + TokenBits(t)
  {
    assert (ts + [t])[..|ts|] == ts;
  }

  type Table = seq<seq<nat>>

  /** At position `i`, with the hash table as it is there: the match that is chosen, or a literal. */
  ghost predicate Next(data: bytes, quality: nat, i: nat, table: Table, t: Token, i': nat, table': Table) {
    if i + 3 < |data| then
      && quality > 0 && Seen(table, i) && table' == Entered(table, data, i, quality)
      && exists best, loc ::
        && Chosen(data, table, i, quality, best, loc)
        && if loc == -1 then t == Lit(data[i]) && i' == i + 1 else t == Ref(best, Over(i, loc)) && i' == i + best
    else i < |data| && t == Lit(data[i]) && i' == i + 1 && table' == table
  }

  /** The tokens up to some position, and position and table before each of them and at the end. */
  datatype Parse = Parse(tokens: seq<Token>, at: seq<nat>, tables: seq<Table>)

  ghost predicate IsParse(data: bytes, quality: nat, p: Parse, i: nat) {
    && |p.at| == |p.tables| == |p.tokens| + 1
    && p.at[0] == 0 && p.tables[0] == seq(ZHASH, _ => [])
    && p.at[|p.tokens|] == i
    && forall k | 0 <= k < |p.tokens| ::
      Next(data, quality, p.at[k], p.tables[k], p.tokens[k], p.at[k + 1], p.tables[k + 1])
  }

  function Nothing(): Parse { Parse([], [0], [seq(ZHASH, _ => [])]) }

  function More(p: Parse, t: Token, i: nat, table: Table): Parse {
    Parse(p.tokens + [t], p.at + [i], p.tables + [table])
  }

  lemma {:induction false} ParsesMore(data: bytes, quality: nat, p: Parse, i: nat, t: Token, i': nat, table': Table)
    requires IsParse(data, quality, p, i) && Next(data, quality, i, p.tables[|p.tokens|], t, i', table')
    ensures IsParse(data, quality, More(p, t, i', table'), i')
  {
    hide Next;
  }

  // ---- The input and the quality leave no choice ----

  lemma {:induction false} OneBest(data: bytes, list: seq<nat>, i: nat, best: nat, loc: int, best': nat, loc': int)
    requires i <= |data| && Before(list, i) && IsBest(data, list, i, best, loc) && IsBest(data, list, i, best', loc')
    ensures best == best' && loc == loc'
  {
    hide MatchLen;
    if loc != -1 && loc' != -1 {
      var k :| 0 <= k < |list| && list[k] == loc && list[k] > i - WINDOW && MatchLen(data, list[k], i) == best
        && forall j | k < j < |list| && list[j] > i - WINDOW :: MatchLen(data, list[j], i) < best;
      var k' :| 0 <= k' < |list| && list[k'] == loc' && list[k'] > i - WINDOW && MatchLen(data, list[k'], i) == best'
        && forall j | k' < j < |list| && list[j] > i - WINDOW :: MatchLen(data, list[j], i) < best';
      assert k == k';
    }
  }

  lemma {:induction false} OneNext(data: bytes, quality: nat, i: nat, table: Table, t: Token, j: nat, table': Table,
                                   u: Token, k: nat, table'': Table)
    requires Next(data, quality, i, table, t, j, table') && Next(data, quality, i, table, u, k, table'')
    ensures t == u && j == k && table' == table''
  {
    hide IsBest, NextBeats, Entered, Zhash;
    if i + 3 < |data| {
      var best, loc :| Chosen(data, table, i, quality, best, loc)
        && if loc == -1 then t == Lit(data[i]) && j == i + 1 else t == Ref(best, Over(i, loc)) && j == i + best;
      var best', loc' :| Chosen(data, table, i, quality, best', loc')
        && if loc' == -1 then u == Lit(data[i]) && k == i + 1 else u == Ref(best', Over(i, loc')) && k == i + best';
      OneChoice(data, table, i, quality, best, loc, best', loc');
    }
  }

  lemma {:induction false} OneChoice(data: bytes, table: Table, i: nat, quality: nat, best: nat, loc: int, best': nat, loc': int)
    requires Seen(table, i) && i + 3 < |data| && quality > 0
    requires Chosen(data, table, i, quality, best, loc) && Chosen(data, table, i, quality, best', loc')
    ensures best == best' && loc == loc'
  {
    hide IsBest, NextBeats, Entered, Zhash;
    var list := table[Zhash(data, i)];
    var l :| IsBest(data, list, i, best, l)
      && loc == if l != -1 && NextBeats(data, Entered(table, data, i, quality)[Zhash(data, i + 1)], i, best) then -1 else l;
    var l' :| IsBest(data, list, i, best', l')
      && loc' == if l' != -1 && NextBeats(data, Entered(table, data, i, quality)[Zhash(data, i + 1)], i, best') then -1 else l';
    OneBest(data, list, i, best, l, best', l');
  }

  lemma {:induction false} OneParse(data: bytes, quality: nat, p: Parse, q: Parse)
    requires IsParse(data, quality, p, |data|) && IsParse(data, quality, q, |data|)
    ensures p == q
  {
    hide Next;
    SameSoFar(data, quality, p, q, |p.tokens|);
    SameSoFar(data, quality, q, p, |q.tokens|);
  }

  lemma {:induction false} SameSoFar(data: bytes, quality: nat, p: Parse, q: Parse, k: nat)
    requires IsParse(data, quality, p, |data|) && IsParse(data, quality, q, |data|) && k <= |p.tokens|
    ensures k <= |q.tokens| && p.tokens[..k] == q.tokens[..k] && p.at[..k + 1] == q.at[..k + 1] && p.tables[..k + 1] == q.tables[..k + 1]
    decreases k
  {
    hide Next;
    if k > 0 {
      SameSoFar(data, quality, p, q, k - 1);
      assert p.at[k - 1] == p.at[..k][k - 1] == q.at[..k][k - 1] == q.at[k - 1];
      assert p.tables[k - 1] == p.tables[..k][k - 1] == q.tables[..k][k - 1] == q.tables[k - 1];
      Inside(data, quality, p.at[k - 1], p.tables[k - 1], p.tokens[k - 1], p.at[k], p.tables[k]);
      OneNext(data, quality, p.at[k - 1], p.tables[k - 1], p.tokens[k - 1], p.at[k], p.tables[k],
              q.tokens[k - 1], q.at[k], q.tables[k]);
    }
  }

  lemma Inside(data: bytes, quality: nat, i: nat, table: Table, t: Token, i': nat, table': Table)
    requires Next(data, quality, i, table, t, i', table')
    ensures i < |data|
  {
  }

  // ---- Why a literal, and which match ----

  /** No entry of the list beyond `low` matches at `i` by more than `n` bytes. */
  ghost predicate AtMost(data: bytes, list: seq<nat>, i: nat, low: int, n: int)
    requires i <= |data|
  {
    forall j | 0 <= j < |list| && list[j] > low :: list[j] < i && MatchLen(data, list[j], i) <= n
  }

  /** A literal before the last three bytes: no entry of its bucket in the window matches three bytes there, or an entry
      of the next bucket matches more at the next byte than all of them. */
  lemma {:induction false} WhyLiteral(data: bytes, quality: nat, i: nat, table: Table, b: byte, i': nat, table': Table)
    returns (n: nat)
    requires Next(data, quality, i, table, Lit(b), i', table') && i + 3 < |data|
    ensures b == data[i] && i' == i + 1 && |table| == |table'| == ZHASH
    ensures var list, next := table[Zhash(data, i)], table'[Zhash(data, i + 1)];
      || AtMost(data, list, i, i - WINDOW, 2)
      || (n >= 3 && AtMost(data, list, i, i - WINDOW, n) && !AtMost(data, next, i + 1, i + 1 - WINDOW, n))
  {
    hide MatchLen, Zhash, Entered;
    var best: nat, loc: int :| Chosen(data, table, i, quality, best, loc) && loc == -1;
    var list, next := table[Zhash(data, i)], table'[Zhash(data, i + 1)];
    var l: int :| IsBest(data, list, i, best, l) && (l == -1 || NextBeats(data, next, i, best));
    n := best;
    if l != -1 {
      assert AtMost(data, list, i, i - WINDOW, best);
      assert !AtMost(data, next, i + 1, i + 1 - WINDOW, best);
    }
  }

  /** A match copies what stands there; it comes from the latest of the entries of its bucket in the window that match
      longest, and no entry of the next bucket matches longer at the next byte. */
  lemma {:induction false} WhyMatch(data: bytes, quality: nat, i: nat, table: Table, len: nat, dist: nat, i': nat, table': Table)
    requires Next(data, quality, i, table, Ref(len, dist), i', table')
    ensures i + 3 < |data| && i' == i + len <= |data| && 3 <= len <= MAX_MATCH && 0 < dist <= i && dist < WINDOW
    ensures forall k | i <= k < i + len :: data[k] == data[k - dist]
    ensures len == 258 || i + len == |data| || data[i + len] != data[i + len - dist]
    ensures |table| == |table'| == ZHASH
    ensures var list, next := table[Zhash(data, i)], table'[Zhash(data, i + 1)];
      && AtMost(data, list, i, i - WINDOW, len) && AtMost(data, next, i + 1, i + 1 - WINDOW, len)
      && exists k :: 0 <= k < |list| && list[k] == i - dist && AtMost(data, list[k + 1..], i, i - WINDOW, len - 1)
  {
    hide MatchLen, Zhash, Entered;
    var best, loc :| Chosen(data, table, i, quality, best, loc) && loc != -1 && len == best && dist == Over(i, loc);
    ChosenIsMatch(data, table, i, quality, best, loc);
    MatchCopies(data, loc, i);
    var list, next := table[Zhash(data, i)], table'[Zhash(data, i + 1)];
    assert IsBest(data, list, i, best, loc) && !NextBeats(data, next, i, best);
    var k :| 0 <= k < |list| && list[k] == loc && forall j | k < j < |list| && list[j] > i - WINDOW :: MatchLen(data, list[j], i) < best;
    var later := list[k + 1..];
    assert forall j | 0 <= j < |later| :: later[j] == list[k + 1 + j];
  }

  lemma MatchCopies(data: bytes, a: nat, b: nat)
    requires a < b <= |data|
    ensures MatchLen(data, a, b) <= MAX_MATCH && b + MatchLen(data, a, b) <= |data|
    ensures forall k | b <= k < b + MatchLen(data, a, b) :: data[k] == data[k - (b - a)]
    ensures var n := MatchLen(data, a, b); n == 258 || b + n == |data| || data[a + n] != data[b + n]
  {
    hide Common;
  }

  // ---- What the hash table holds ----

  /** The positions among the first `k` of a parse that were entered in bucket `h`. */
  ghost function Entries(data: bytes, at: seq<nat>, k: nat, h: nat): seq<nat>
    requires k <= |at|
  {
    if k == 0 then []
    else
      Entries(data, at, k - 1, h)
      + if at[k - 1] + 3 < |data| && Zhash(data, at[k - 1]) == h then [at[k - 1]] else []
  }

  /** The latest entries: all of them, or more than `quality`, and never more than twice as many. */
  ghost predicate Latest(list: seq<nat>, all: seq<nat>, quality: nat) {
    && |list| <= |all| && list == all[|all| - |list|..] && |list| <= 2 * quality && (|list| < |all| ==> |list| > quality)
  }

  lemma {:induction false} LatestPushed(list: seq<nat>, all: seq<nat>, quality: nat, i: nat)
    requires quality > 0 && Latest(list, all, quality)
    ensures Latest(Pushed(list, quality, i), all + [i], quality)
  {
  }

  lemma {:induction false} BucketAfter(data: bytes, quality: nat, i: nat, table: Table, t: Token, i': nat, table': Table, h: nat)
    requires Next(data, quality, i, table, t, i', table') && |table| == ZHASH && h < ZHASH && quality > 0
    ensures |table'| == ZHASH
    ensures table'[h] == if i + 3 < |data| && Zhash(data, i) == h then Pushed(table[h], quality, i) else table[h]
  {
    hide Zhash, Chosen, Pushed;
  }

  /** At every point of a parse, each bucket holds the latest of the positions that were entered in it. */
  lemma {:induction false} BucketsHold(data: bytes, quality: nat, p: Parse, i: nat, k: nat, h: nat)
    requires IsParse(data, quality, p, i) && k <= |p.tokens| && h < ZHASH && quality > 0
    ensures |p.tables[k]| == ZHASH && Latest(p.tables[k][h], Entries(data, p.at, k, h), quality)
    decreases k
  {
    if k > 0 {
      BucketsHold(data, quality, p, i, k - 1, h);
      hide Zhash, Next, Latest, Pushed;
      var n := p.at[k - 1];
      BucketAfter(data, quality, n, p.tables[k - 1], p.tokens[k - 1], p.at[k], p.tables[k], h);
      LatestPushed(p.tables[k - 1][h], Entries(data, p.at, k - 1, h), quality, n);
      assert Entries(data, p.at, k - 1, h) + [] == Entries(data, p.at, k - 1, h);
    }
  }
}
