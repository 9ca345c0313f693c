/** The match search of stbi_zlib_compress: hash chains, the longest match in the window, the lazy test. */
module Matches {
  import opened Bytes

  const ZHASH := 16384
  const MAX_MATCH := 258
  const WINDOW := 32768

  /** How far data[a..] and data[b..] agree, up to `room` bytes. */
  function Common(data: bytes, a: nat, b: nat, room: nat): (n: nat)
    requires a < b <= |data|
    ensures n <= room && b + n <= |data|
    ensures forall k | b <= k < b + n :: data[k] == data[k - (b - a)]
    ensures n < room && b + n < |data| ==> data[a + n] != data[b + n]
    decreases room
  {
    if room == 0 || b == |data| || data[a] != data[b] then 0 else 1 + Common(data, a + 1, b + 1, room - 1)
  }

  /** The length of the match at `b` with an earlier place `a`. */
  function MatchLen(data: bytes, a: nat, b: nat): nat
    requires a < b <= |data|
  {
    Common(data, a, b, MAX_MATCH)
  }

  /** stbiw__zlib_countm, with the limit of its callers: up to the end of the data. */
  method CountM(data: bytes, a: nat, b: nat) returns (i: nat)
    requires a < b <= |data|
    ensures i == MatchLen(data, a, b)
  {
    var limit := |data| - b;
    i := 0;
    while i < limit && i < 258
      invariant i <= limit && i <= 258
      invariant MatchLen(data, a, b) == i + Common(data, a + i, b + i, MAX_MATCH - i)
    {
      if data[a + i] != data[b + i] {
        break;
      }
      i := i + 1;
    }
  }

  /** stbiw__zhash, masked to a bucket of the table. */
  function Zhash(data: bytes, i: nat): (h: nat)
    requires i + 2 < |data|
    ensures h < ZHASH
  {
    var b0: nat, b1: nat, b2: nat := data[i], data[i + 1], data[i + 2];
    var h0 := (b0 + b1 * 256 + b2 * 65536) as bv32;
    var h1 := h0 ^ (h0 << 3);
    var h2 := h1 + (h1 >> 5);
    var h3 := h2 ^ (h2 << 4);
    var h4 := h3 + (h3 >> 17);
    var h5 := h4 ^ (h4 << 25);
    var h6 := h5 + (h5 >> 6);
    Bucket(h6)
  }

  function Bucket(h: bv32): (r: nat)
    ensures r < ZHASH
  {
    ((h & 0x3fff) as bv14) as nat
  }

  /** Every position in the list lies before `i`. */
  ghost predicate Before(list: seq<nat>, i: nat) {
    forall j | 0 <= j < |list| :: list[j] < i
  }

  /** The best match among the entries in the window: a longest one of at least 3 bytes, the latest of those. */
  ghost predicate IsBest(data: bytes, list: seq<nat>, i: nat, best: nat, bestloc: int)
    requires i <= |data| && Before(list, i)
  {
    && best >= 3
    && (if bestloc == -1 then best == 3
        else exists k | 0 <= k < |list| ::
          && list[k] == bestloc && list[k] > i - WINDOW && MatchLen(data, list[k], i) == best
          && forall j | k < j < |list| && list[j] > i - WINDOW :: MatchLen(data, list[j], i) < best)
    && forall j | 0 <= j < |list| && list[j] > i - WINDOW ::
      MatchLen(data, list[j], i) <= best && (bestloc == -1 ==> MatchLen(data, list[j], i) < 3)
  }

  method BestMatch(data: bytes, hlist: seq<nat>, i: nat) returns (best: nat, bestloc: int)
    requires i <= |data| && Before(hlist, i)
    ensures IsBest(data, hlist, i, best, bestloc)
  {
    hide MatchLen;
    best, bestloc := 3, -1;
    for j := 0 to |hlist|
      invariant Before(hlist[..j], i) && IsBest(data, hlist[..j], i, best, bestloc)
    {
      ghost var seen, more := hlist[..j], hlist[..j + 1];
      assert more == seen + [hlist[j]];
      if hlist[j] > i - WINDOW {
        var d := CountM(data, hlist[j], i);
        if d >= best {
          best, bestloc := d, hlist[j];
          assert more[j] == bestloc;
        }
      }
    }
    assert hlist[..|hlist|] == hlist;
  }

  /** The lazy test: some entry matches the data at the next byte by more than `best`. */
  ghost predicate NextBeats(data: bytes, hlist: seq<nat>, i: nat, best: nat)
    requires i < |data| && Before(hlist, i + 1)
  {
    exists j | 0 <= j < |hlist| && hlist[j] > i - (WINDOW - 1) :: MatchLen(data, hlist[j], i + 1) > best
  }

  method BetterNext(data: bytes, hlist: seq<nat>, i: nat, best: nat) returns (better: bool)
    requires i < |data| && Before(hlist, i + 1)
    ensures better <==> NextBeats(data, hlist, i, best)
  {
    hide MatchLen;
    better := false;
    for j := 0 to |hlist|
      invariant !better
      invariant forall k | 0 <= k < j && hlist[k] > i - (WINDOW - 1) :: MatchLen(data, hlist[k], i + 1) <= best
    {
      if hlist[j] > i - (WINDOW - 1) {
        var e := CountM(data, hlist[j], i + 1);
        if e > best {
          better := true;
          break;
        }
      }
    }
  }

  /** Appending a position to its list; a list of 2 * quality entries first loses its older half. */
  function Pushed(list: seq<nat>, quality: nat, i: nat): (r: seq<nat>)
    requires quality > 0
    ensures r != [] && r[|r| - 1] == i
    ensures |list| <= 2 * quality ==> |r| <= 2 * quality
    ensures Before(list, i) ==> Before(r, i + 1)
  {
    (if |list| == 2 * quality then list[quality..] else list) + [i]
  }

  /** Every position in the hash table lies before `i`. */
  ghost predicate Seen(table: seq<seq<nat>>, i: nat) {
    |table| == ZHASH && forall h | 0 <= h < ZHASH :: Before(table[h], i)
  }

  lemma {:induction false} SeenLater(table: seq<seq<nat>>, i: nat, k: nat)
    requires Seen(table, i) && i <= k
    ensures Seen(table, k)
  {
  }

  /** The table with `i` entered in the bucket of its bytes. */
  ghost function Entered(table: seq<seq<nat>>, data: bytes, i: nat, quality: nat): (r: seq<seq<nat>>)
    requires Seen(table, i) && i + 2 < |data| && quality > 0
    ensures Seen(r, i + 1)
  {
    var h := Zhash(data, i);
    SeenLater(table, i, i + 1);
    table[h := Pushed(table[h], quality, i)]
  }

  /** A best match from the bucket of the bytes at `i`, unless the bucket of the next bytes has a better one. */
  ghost predicate Chosen(data: bytes, table: seq<seq<nat>>, i: nat, quality: nat, best: nat, bestloc: int)
    requires Seen(table, i) && i + 3 < |data| && quality > 0
  {
    var next := Entered(table, data, i, quality)[Zhash(data, i + 1)];
    exists loc ::
      && IsBest(data, table[Zhash(data, i)], i, best, loc)
      && bestloc == if loc != -1 && NextBeats(data, next, i, best) then -1 else loc
  }

  lemma {:induction false} ChosenIsMatch(data: bytes, table: seq<seq<nat>>, i: nat, quality: nat, best: nat, bestloc: int)
    requires Seen(table, i) && i + 3 < |data| && quality > 0
    requires Chosen(data, table, i, quality, best, bestloc) && bestloc != -1
    ensures 0 <= bestloc < i && i - bestloc < WINDOW && best >= 3 && best == MatchLen(data, bestloc, i)
  {
    hide Zhash, MatchLen, Entered, NextBeats, Pushed;
  }

  /** Search the bucket of the bytes at `i`, enter `i` into it, and drop a match that the next byte beats. */
  method FindMatch(data: bytes, table: array<seq<nat>>, i: nat, quality: nat) returns (best: nat, bestloc: int)
    requires i + 3 < |data| && quality > 0 && Seen(table[..], i)
    modifies table
    ensures table[..] == Entered(old(table[..]), data, i, quality)
    ensures Chosen(data, old(table[..]), i, quality, best, bestloc)
  {
    hide Zhash, IsBest, MatchLen, Pushed, Seen, Before, NextBeats;
    var h := Zhash(data, i);
    ghost var table0 := table[..];
    SeenAt(table0, i, h);
    best, bestloc := BestMatch(data, table[h], i);
    ghost var loc := bestloc;
    table[h] := Pushed(table[h], quality, i);
    ghost var table1 := table[..];
    assert table1 == Entered(table0, data, i, quality);
    if bestloc != -1 {
      h := Zhash(data, i + 1);
      SeenAt(table1, i + 1, h);
      var better := BetterNext(data, table[h], i, best);
      if better {
        bestloc := -1;
      }
    }
    assert IsBest(data, table0[Zhash(data, i)], i, best, loc);
  }

  lemma {:induction false} SeenAt(table: seq<seq<nat>>, i: nat, h: nat)
    requires Seen(table, i) && h < ZHASH
    ensures |table| == ZHASH && Before(table[h], i)
  {
  }
}
