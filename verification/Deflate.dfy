/** stbi_zlib_compress (cuda/chapter3/stb_image_write.h): what it writes inflates to its input. */
module Deflate {
  import opened Bytes
  import opened Bits
  import opened Inflate
  import opened DeflateBits
  import opened ZWriter
  import opened Matches
  import opened Parses

  // ---- The encoder's own tables, each with a sentinel ----

  const LENGTHC: seq<nat> :=
    [3, 4, 5, 6, 7, 8, 9, 10, 11, 13, 15, 17, 19, 23, 27, 31, 35, 43, 51, 59, 67, 83, 99, 115, 131, 163, 195, 227, 258, 259]
  const LENGTHEB: seq<nat> :=
    [0, 0, 0, 0, 0, 0, 0, 0, 1, 1, 1, 1, 2, 2, 2, 2, 3, 3, 3, 3, 4, 4, 4, 4, 5, 5, 5, 5, 0]
  const DISTC: seq<nat> :=
    [1, 2, 3, 4, 5, 7, 9, 13, 17, 25, 33, 49, 65, 97, 129, 193, 257, 385, 513, 769, 1025, 1537, 2049, 3073,
     4097, 6145, 8193, 12289, 16385, 24577, 32768]
  const DISTEB: seq<nat> :=
    [0, 0, 0, 0, 1, 1, 2, 2, 3, 3, 4, 4, 5, 5, 6, 6, 7, 7, 8, 8, 9, 9, 10, 10, 11, 11, 12, 12, 13, 13]

  lemma {:induction false} LengthTable(j: nat)
    requires j < 29
    ensures LENGTHC[j] == LengthBase(j) && LENGTHEB[j] == LengthExtra(j)
    ensures LENGTHC[j + 1] - LENGTHC[j] <= Pow2(LENGTHEB[j]) && LENGTHEB[j] <= 13
  {
    PowersUpTo9();
  }

  lemma {:induction false} DistTable(j: nat)
    requires j < 30
    ensures DISTC[j] == DistBase(j) && DISTEB[j] == DistExtra(j)
    ensures DISTC[j + 1] - DISTC[j] <= Pow2(DISTEB[j]) && DISTEB[j] <= 13
  {
    PowersUpTo9();
    Pow2Add(9, 1);
    Pow2Add(9, 2);
    Pow2Add(9, 3);
    Pow2Add(9, 4);
  }

  method LengthIndex(best: nat) returns (j: nat)
    requires 3 <= best <= 258
    ensures j < 29 && LENGTHC[j] <= best < LENGTHC[j + 1] && j == LengthCode(best, 0)
  {
    j := 0;
    while best > LENGTHC[j + 1] - 1
      invariant j < 29 && LENGTHC[j] <= best && LengthCode(best, 0) == LengthCode(best, j)
      decreases 29 - j
    {
      j := j + 1;
    }
  }

  method DistIndex(d: nat) returns (j: nat)
    requires 1 <= d <= 32767
    ensures j < 30 && DISTC[j] <= d < DISTC[j + 1] && j == DistCode(d, 0)
  {
    j := 0;
    while d > DISTC[j + 1] - 1
      invariant j < 30 && DISTC[j] <= d && DistCode(d, 0) == DistCode(d, j)
      decreases 30 - j
    {
      j := j + 1;
    }
  }

  // ---- One symbol ----

  /** The writer holds a zlib header and an open final block with fixed codes that decodes to `out`. */
  ghost predicate Emitted(w: Writer, out: bytes) {
    && Valid(w) && w.out[..2] == [0x78, 0x5e]
    && |Written(w)| >= 3 && Written(w)[..3] == [1, 1, 0]
    && Decodes(Written(w)[3..], out)
  }

  lemma {:induction false} HeaderKept(w0: Writer, w: Writer)
    requires |w0.out| >= 2 && w0.out <= w.out
    ensures w.out[..2] == w0.out[..2]
  {
  }

  /** The header bytes, BFINAL and BTYPE. */
  method OpenBlock() returns (w: Writer)
    ensures Emitted(w, []) && |w.out| >= 2 && Written(w) == [1, 1, 0]
  {
    hide Written, Decodes;
    w := Writer([0x78, 0x5e], 0, 0);
    NothingWritten(w);
    w := Add(w, 1, 1);
    w := Add(w, 1, 2);
    OneBits();
    DecodesNothing();
    HeaderKept(Writer([0x78, 0x5e], 0, 0), w);
    assert Written(w)[3..] == [];
  }

  lemma {:induction false} NothingWritten(w: Writer)
    requires |w.out| == 2 && w.bitbuf == 0 && w.bitcount == 0
    ensures Valid(w) && Written(w) == []
  {
  }

  lemma OneBits()
    ensures Pow2(1) == 2 && Pow2(2) == 4 && Lsb(1, 1) == [1] && Lsb(1, 2) == [1, 0]
  {
  }

  method Literal(w0: Writer, ghost out: bytes, b: byte) returns (w: Writer)
    requires Emitted(w0, out)
    ensures Emitted(w, out + [b]) && |w.out| >= 2 && Written(w) == Written(w0) + TokenBits(Lit(b))
  {
    hide Written, Decodes, SymbolBits;
    w := HuffB(w0, b);
    HeaderKept(w0, w);
    DecodesLiteral(Written(w0)[3..], out, b);
    assert (Written(w0) + SymbolBits(b))[3..] == Written(w0)[3..] + SymbolBits(b);
  }

  /** The length of a match: symbol and extra bits. */
  method LengthSymbol(w0: Writer, best: nat) returns (w: Writer, ghost j: nat, ghost e: nat)
    requires Valid(w0) && 3 <= best <= 258
    ensures Valid(w) && w0.out <= w.out && j < 29 && j == LengthCode(best, 0)
    ensures e < Pow2(LengthExtra(j)) && LengthBase(j) + e == best
    ensures Written(w) == Written(w0) + SymbolBits(257 + j) + Lsb(e, LengthExtra(j))
  {
    hide Written, SymbolBits, LengthBase, LengthExtra, LengthCode, Pow2;
    var k := LengthIndex(best);
    LengthTable(k);
    w := Huff(w0, k + 257);
    ghost var s := Written(w0) + SymbolBits(k + 257);
    assert LENGTHEB[k] == 0 ==> s + Lsb(best - LENGTHC[k], LENGTHEB[k]) == s;
    hide Lsb;
    if LENGTHEB[k] != 0 {
      w := Add(w, best - LENGTHC[k], LENGTHEB[k]);
    }
    j, e := k, best - LENGTHC[k];
  }

  /** Its distance: code and extra bits. */
  method DistSymbol(w0: Writer, d: nat) returns (w: Writer, ghost c: nat, ghost f: nat)
    requires Valid(w0) && 1 <= d <= 32767
    ensures Valid(w) && w0.out <= w.out && c < 30 && c == DistCode(d, 0)
    ensures f < Pow2(DistExtra(c)) && DistBase(c) + f == d
    ensures Written(w) == Written(w0) + Msb(c, 5) + Lsb(f, DistExtra(c))
  {
    hide Written, DistBase, DistExtra, DistCode, Pow2, Msb;
    var l := DistIndex(d);
    DistTable(l);
    w := HuffA(w0, l, 5);
    ghost var s := Written(w0) + Msb(l, 5);
    assert DISTEB[l] == 0 ==> s + Lsb(d - DISTC[l], DISTEB[l]) == s;
    hide Lsb;
    if DISTEB[l] != 0 {
      w := Add(w, d - DISTC[l], DISTEB[l]);
    }
    c, f := l, d - DISTC[l];
  }

  /** The length and distance of a match. */
  method MatchSymbols(w0: Writer, best: nat, d: nat) returns (w: Writer, ghost j: nat, ghost e: nat, ghost c: nat, ghost f: nat)
    requires Valid(w0) && 3 <= best <= 258 && 1 <= d <= 32767
    ensures Valid(w) && w0.out <= w.out
    ensures j < 29 && e < Pow2(LengthExtra(j)) && LengthBase(j) + e == best
    ensures c < 30 && f < Pow2(DistExtra(c)) && DistBase(c) + f == d
    ensures Written(w) == Written(w0) + MatchBits(j, e, c, f) && j == LengthCode(best, 0) && c == DistCode(d, 0)
  {
    hide Written, SymbolBits, LengthBase, LengthExtra, DistBase, DistExtra, LengthCode, DistCode, Pow2, Msb, Lsb;
    w, j, e := LengthSymbol(w0, best);
    w, c, f := DistSymbol(w, d);
    ghost var a, x, y, z := SymbolBits(257 + j), Lsb(e, LengthExtra(j)), Msb(c, 5), Lsb(f, DistExtra(c));
    assert Written(w0) + a + x + y + z == Written(w0) + (a + x + y + z);
  }

  lemma RefBits(best: nat, d: nat, j: nat, e: nat, c: nat, f: nat)
    requires j == LengthCode(best, 0) && c == DistCode(d, 0) && LengthBase(j) + e == best && DistBase(c) + f == d
    ensures TokenBits(Ref(best, d)) == MatchBits(j, e, c, f)
  {
    hide MatchBits;
  }

  lemma MatchDecodes(data: bytes, i: nat, bestloc: nat, s: bits, j: nat, e: nat, c: nat, f: nat)
    requires bestloc < i <= |data| && Decodes(s, data[..i])
    requires j < 29 && e < Pow2(LengthExtra(j)) && LengthBase(j) + e == MatchLen(data, bestloc, i)
    requires c < 30 && f < Pow2(DistExtra(c)) && DistBase(c) + f == i - bestloc
    ensures i + MatchLen(data, bestloc, i) <= |data|
    ensures Decodes(s + MatchBits(j, e, c, f), data[..i + MatchLen(data, bestloc, i)])
  {
    hide Decodes, MatchBits, Copy, LengthBase, LengthExtra, DistBase, DistExtra, Pow2, Common;
    DecodesMatch(s, data[..i], j, e, c, f);
    CopyExtends(data, i, i - bestloc, MatchLen(data, bestloc, i));
  }

  method Match(w0: Writer, ghost data: bytes, i: nat, best: nat, bestloc: nat) returns (w: Writer)
    requires bestloc < i <= |data| && i - bestloc <= 32767 && best >= 3 && best == MatchLen(data, bestloc, i)
    requires Emitted(w0, data[..i])
    ensures i + best <= |data| && Emitted(w, data[..i + best]) && |w.out| >= 2
    ensures Written(w) == Written(w0) + TokenBits(Ref(best, i - bestloc))
  {
    hide Written, Decodes, MatchBits, LengthBase, LengthExtra, DistBase, DistExtra, Pow2, Common;
    var d := i - bestloc;
    MatchFits(data, bestloc, i);
    ghost var j, e, c, f;
    w, j, e, c, f := MatchSymbols(w0, best, d);
    HeaderKept(w0, w);
    RefBits(best, d, j, e, c, f);
    MatchDecodes(data, i, bestloc, Written(w0)[3..], j, e, c, f);
    assert (Written(w0) + MatchBits(j, e, c, f))[3..] == Written(w0)[3..] + MatchBits(j, e, c, f);
  }

  lemma MatchFits(data: bytes, a: nat, b: nat)
    requires a < b <= |data|
    ensures MatchLen(data, a, b) <= MAX_MATCH && b + MatchLen(data, a, b) <= |data|
  {
  }

  // ---- The loop over the data ----

  lemma NothingParsed(data: bytes, quality: nat, table: Table)
    requires |table| == ZHASH && forall h | 0 <= h < ZHASH :: table[h] == []
    ensures IsParse(data, quality, Nothing(), 0) && Nothing().tables[0] == table && TokensBits(Nothing().tokens) == []
  {
  }

  /** The parse with what was chosen at `i`. */
  lemma {:induction false} AfterToken(data: bytes, quality: nat, p: Parse, i: nat, best: nat, bestloc: int, table: Table, table': Table)
    returns (q: Parse)
    requires IsParse(data, quality, p, i) && p.tables[|p.tokens|] == table && i + 3 < |data| && quality > 0 && Seen(table, i)
    requires table' == Entered(table, data, i, quality) && Chosen(data, table, i, quality, best, bestloc)
    ensures var t := if bestloc == -1 then Lit(data[i]) else Ref(best, Over(i, bestloc));
      && q.tokens == p.tokens + [t] && TokensBits(q.tokens) == TokensBits(p.tokens) + TokenBits(t)
      && IsParse(data, quality, q, if bestloc == -1 then i + 1 else i + best)
      && |q.tables| == |q.tokens| + 1 && q.tables[|q.tokens|] == table'
  {
    hide Chosen, Entered, Seen, TokenBits, TokensBits;
    var t := if bestloc == -1 then Lit(data[i]) else Ref(best, Over(i, bestloc));
    var k := if bestloc == -1 then i + 1 else i + best;
    assert Next(data, quality, i, table, t, k, table');
    ParsesMore(data, quality, p, i, t, k, table');
    q := More(p, t, k, table');
    TokensBitsAppend(p.tokens, t);
  }

  lemma {:induction false} AfterLast(data: bytes, quality: nat, p: Parse, i: nat) returns (q: Parse)
    requires IsParse(data, quality, p, i) && i < |data| <= i + 3
    ensures q.tokens == p.tokens + [Lit(data[i])] && TokensBits(q.tokens) == TokensBits(p.tokens) + TokenBits(Lit(data[i]))
    ensures IsParse(data, quality, q, i + 1) && |q.tables| == |q.tokens| + 1
  {
    hide TokenBits, TokensBits;
    var t, table := Lit(data[i]), p.tables[|p.tokens|];
    ParsesMore(data, quality, p, i, t, i + 1, table);
    q := More(p, t, i + 1, table);
    TokensBitsAppend(p.tokens, t);
  }

  lemma {:induction false} NothingSeen(table: seq<seq<nat>>)
    requires |table| == ZHASH && forall h | 0 <= h < ZHASH :: table[h] == []
    ensures Seen(table, 0)
  {
  }

  function Clamped(quality: int): nat { if quality < 5 then 5 else quality }

  /** The fixed-code block for the data, up to its end-of-block symbol: it decodes to the data, and it is the parse that
      the search and the lazy test choose at every position. */
  method FixedBlock(data: bytes, quality0: int) returns (w: Writer, ghost p: Parse)
    ensures Emitted(w, data)
    ensures IsParse(data, Clamped(quality0), p, |data|) && |w.out| >= 2 && Written(w) == [1, 1, 0] + TokensBits(p.tokens)
  {
    hide Emitted, Chosen, MatchLen, Entered, Seen, Next, Written, TokenBits, TokensBits, IsParse;
    var quality := if quality0 < 5 then 5 else quality0;
    w := OpenBlock();
    var table := new seq<nat>[ZHASH](_ => []);
    NothingSeen(table[..]);
    p := Nothing();
    NothingParsed(data, quality, table[..]);
    var i: nat := 0;
    while i < |data| - 3
      invariant i <= |data| && Emitted(w, data[..i]) && Seen(table[..], i)
      invariant IsParse(data, quality, p, i) && |p.tables| == |p.tokens| + 1 && p.tables[|p.tokens|] == table[..]
      invariant |w.out| >= 2 && Written(w) == [1, 1, 0] + TokensBits(p.tokens)
      decreases |data| - i
    {
      ghost var before := table[..];
      var best, bestloc := FindMatch(data, table, i, quality);
      if bestloc != -1 {
        ChosenIsMatch(data, before, i, quality, best, bestloc);
        w := Match(w, data, i, best, bestloc);
        SeenLater(table[..], i + 1, i + best);
        p := AfterToken(data, quality, p, i, best, bestloc, before, table[..]);
        i := i + best;
      } else {
        w := Literal(w, data[..i], data[i]);
        assert data[..i] + [data[i]] == data[..i + 1];
        SeenLater(table[..], i + 1, i + 1);
        p := AfterToken(data, quality, p, i, best, bestloc, before, table[..]);
        i := i + 1;
      }
    }
    while i < |data|
      invariant i <= |data| && Emitted(w, data[..i]) && |data| <= i + 3
      invariant IsParse(data, quality, p, i) && |p.tables| == |p.tokens| + 1
      invariant |w.out| >= 2 && Written(w) == [1, 1, 0] + TokensBits(p.tokens)
    {
      w := Literal(w, data[..i], data[i]);
      assert data[..i] + [data[i]] == data[..i + 1];
      p := AfterLast(data, quality, p, i);
      i := i + 1;
    }
    assert data[..i] == data;
  }
}
