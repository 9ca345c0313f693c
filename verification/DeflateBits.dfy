/** Reading back what the bit writer of stbi_zlib_compress writes. */
module DeflateBits {
  import opened Bytes
  import opened Bits
  import opened Inflate
  import opened Options

  lemma {:induction false} ReadLsbOf(v: nat, n: nat, rest: bits)
    requires v < Pow2(n)
    ensures ReadLsb(Lsb(v, n) + rest, n) == v
  {
    if n > 0 {
      ReadLsbOf(v / 2, n - 1, rest);
      assert (Lsb(v, n) + rest)[1..] == Lsb(v / 2, n - 1) + rest;
    }
  }

  /** The first k bits of a code, as a number, are its leading bits. */
  lemma {:induction false} ReadMsbOf(c: nat, n: nat, rest: bits, k: nat)
    requires c < Pow2(n) && k <= n
    ensures ReadMsb(Msb(c, n) + rest, k) == c / Pow2(n - k)
    decreases n
  {
    if n > 0 {
      assert Msb(c, n) + rest == Msb(c / 2, n - 1) + ([c % 2] + rest);
      if k == n {
        ReadMsbOf(c / 2, n - 1, [c % 2] + rest, n - 1);
        ReadMsbPrefix(Msb(c, n) + rest, n);
        assert (Msb(c, n) + rest)[n - 1] == c % 2;
      } else {
        ReadMsbOf(c / 2, n - 1, [c % 2] + rest, k);
        HalfThen(c, n - 1 - k);
      }
    }
  }

  lemma ReadMsbPrefix(s: bits, n: nat)
    requires 0 < n <= |s|
    ensures ReadMsb(s, n) == 2 * ReadMsb(s, n - 1) + s[n - 1]
  {
  }

  lemma {:induction false} HalfThen(c: nat, k: nat)
    ensures (c / 2) / Pow2(k) == c / Pow2(k + 1)
  {
    var p := Pow2(k);
    var h := c / 2;
    var q, r := h / p, h % p;
    assert h == p * q + r;
    assert c == 2 * (p * q) + (2 * r + c % 2);
    assert 2 * (p * q) == (2 * p) * q;
    DivUnique(c, 2 * p, q, 2 * r + c % 2);
  }

  /** The fixed code of a symbol, as the macros stbiw__zlib_huff1 to huff4 compute it. */
  function CodeOf(sym: nat): (c: (nat, nat))
    requires sym < 288
    ensures c.0 < Pow2(c.1) && 7 <= c.1 <= 9
  {
    PowersUpTo9();
    if sym <= 143 then (0x30 + sym, 8)
    else if sym <= 255 then (0x190 + sym - 144, 9)
    else if sym <= 279 then (sym - 256, 7)
    else (0xc0 + sym - 280, 8)
  }

  lemma PowersUpTo9()
    ensures Pow2(0) == 1 && Pow2(1) == 2 && Pow2(2) == 4 && Pow2(3) == 8 && Pow2(4) == 16
    ensures Pow2(5) == 32 && Pow2(6) == 64 && Pow2(7) == 128 && Pow2(8) == 256 && Pow2(9) == 512
  {
  }

  function SymbolBits(sym: nat): bits
    requires sym < 288
  {
    Msb(CodeOf(sym).0, CodeOf(sym).1)
  }

  /** The fixed codes are a prefix code: a symbol is read back, whatever follows it. */
  lemma {:induction false} DecodeSymbolOf(sym: nat, rest: bits)
    requires sym < 288
    ensures DecodeSymbol(SymbolBits(sym) + rest) == Some((sym, rest))
  {
    var (c, n) := CodeOf(sym);
    var s := Msb(c, n) + rest;
    PowersUpTo9();
    hide Pow2, Msb, ReadMsb;
    assert s[n..] == rest;
    ReadMsbOf(c, n, rest, 7);
    if n == 7 {
      assert ReadMsb(s, 7) == c;
    } else if n == 8 {
      ReadMsbOf(c, n, rest, 8);
      assert ReadMsb(s, 7) == c / 2 && ReadMsb(s, 8) == c;
    } else {
      ReadMsbOf(c, n, rest, 8);
      ReadMsbOf(c, n, rest, 9);
      assert ReadMsb(s, 7) == c / 4 && ReadMsb(s, 8) == c / 2 && ReadMsb(s, 9) == c;
    }
  }

  // ---- What a prefix of a block with fixed codes decodes to ----

  /** Whatever follows, decoding `s` from an empty output leaves `out` and what follows. */
  ghost predicate Decodes(s: bits, out: bytes) {
    forall rest: bits :: InflateFixed(s + rest, []) == InflateFixed(rest, out)
  }

  lemma {:induction false} DecodesNothing()
    ensures Decodes([], [])
  {
    assert forall rest: bits :: [] + rest == rest;
  }

  lemma LiteralStep(s: bits, out: bytes, b: byte, rest: bits)
    requires DecodeSymbol(s) == Some((b, rest))
    ensures InflateFixed(s, out) == InflateFixed(rest, out + [b])
  {
  }

  lemma MatchStep(s: bits, out: bytes, sym: nat, s1: bits, len: nat, s2: bits, dist: nat, rest: bits)
    requires sym > END_OF_BLOCK && 0 < dist <= |out|
    requires DecodeSymbol(s) == Some((sym, s1)) && DecodeLength(sym, s1) == Some((len, s2))
    requires DecodeDistance(s2) == Some((dist, rest))
    ensures InflateFixed(s, out) == InflateFixed(rest, Copy(out, dist, len))
  {
  }

  lemma {:induction false} DecodesLiteral(s: bits, out: bytes, b: byte)
    requires Decodes(s, out)
    ensures Decodes(s + SymbolBits(b), out + [b])
  {
    hide DecodeSymbol, InflateFixed, SymbolBits;
    forall rest: bits
      ensures InflateFixed((s + SymbolBits(b)) + rest, []) == InflateFixed(rest, out + [b])
    {
      assert (s + SymbolBits(b)) + rest == s + (SymbolBits(b) + rest);
      DecodeSymbolOf(b, rest);
      LiteralStep(SymbolBits(b) + rest, out, b, rest);
    }
  }

  /** The bits of a match: length symbol, its extra bits, distance code, its extra bits. */
  function MatchBits(j: nat, e: nat, d: nat, f: nat): bits
    requires j < 29 && d < 30
  {
    SymbolBits(257 + j) + Lsb(e, LengthExtra(j)) + Msb(d, 5) + Lsb(f, DistExtra(d))
  }

  lemma {:induction false} DecodeLengthOf(j: nat, e: nat, rest: bits)
    requires j < 29 && e < Pow2(LengthExtra(j))
    ensures DecodeLength(257 + j, Lsb(e, LengthExtra(j)) + rest) == Some((LengthBase(j) + e, rest))
  {
    var n := LengthExtra(j);
    ReadLsbOf(e, n, rest);
    assert (Lsb(e, n) + rest)[n..] == rest;
  }

  lemma {:induction false} DecodeDistanceOf(d: nat, f: nat, rest: bits)
    requires d < 30 && f < Pow2(DistExtra(d))
    ensures DecodeDistance(Msb(d, 5) + (Lsb(f, DistExtra(d)) + rest)) == Some((DistBase(d) + f, rest))
  {
    var n := DistExtra(d);
    var t := Lsb(f, n) + rest;
    PowersUpTo9();
    ReadMsbOf(d, 5, t, 5);
    assert (Msb(d, 5) + t)[5..] == t;
    ReadLsbOf(f, n, rest);
    assert t[n..] == rest;
  }

  lemma {:induction false} DecodesMatch(s: bits, out: bytes, j: nat, e: nat, d: nat, f: nat)
    requires Decodes(s, out) && j < 29 && d < 30 && e < Pow2(LengthExtra(j)) && f < Pow2(DistExtra(d))
    requires DistBase(d) + f <= |out|
    ensures Decodes(s + MatchBits(j, e, d, f), Copy(out, DistBase(d) + f, LengthBase(j) + e))
  {
    hide DecodeSymbol, DecodeLength, DecodeDistance, InflateFixed, SymbolBits, Copy, LengthExtra, DistExtra, LengthBase, DistBase;
    var m, x, y, z := SymbolBits(257 + j), Lsb(e, LengthExtra(j)), Msb(d, 5), Lsb(f, DistExtra(d));
    forall rest: bits
      ensures InflateFixed((s + MatchBits(j, e, d, f)) + rest, [])
           == InflateFixed(rest, Copy(out, DistBase(d) + f, LengthBase(j) + e))
    {
      var all := m + (x + (y + (z + rest)));
      assert (s + MatchBits(j, e, d, f)) + rest == s + all;
      DecodeSymbolOf(257 + j, x + (y + (z + rest)));
      DecodeLengthOf(j, e, y + (z + rest));
      DecodeDistanceOf(d, f, rest);
      MatchStep(all, out, 257 + j, x + (y + (z + rest)), LengthBase(j) + e, y + (z + rest), DistBase(d) + f, rest);
    }
  }

  lemma {:induction false} DecodesEnd(s: bits, out: bytes, rest: bits)
    requires Decodes(s, out)
    ensures InflateFixed(s + SymbolBits(END_OF_BLOCK) + rest, []) == Some((out, rest))
  {
    assert s + SymbolBits(END_OF_BLOCK) + rest == s + (SymbolBits(END_OF_BLOCK) + rest);
    DecodeSymbolOf(END_OF_BLOCK, rest);
  }

  /** Copying a match: when the data repeats itself `dist` back, the copy extends the output with the data. */
  lemma {:induction false} CopyExtends(data: bytes, i: nat, dist: nat, len: nat)
    requires 0 < dist <= i && i + len <= |data|
    requires forall k | i <= k < i + len :: data[k] == data[k - dist]
    ensures Copy(data[..i], dist, len) == data[..i + len]
    decreases len
  {
    if len > 0 {
      var out := data[..i];
      assert out[|out| - dist] == data[i];
      assert out + [data[i]] == data[..i + 1];
      CopyExtends(data, i + 1, dist, len - 1);
    }
  }

  // ---- Byte streams ----

  lemma StreamCons(a: bytes)
    ensures Stream(a) == if a == [] then [] else Lsb(a[0], 8) + Stream(a[1..])
  {
  }

  lemma {:induction false} StreamAppend(a: bytes, b: bytes)
    ensures Stream(a + b) == Stream(a) + Stream(b)
  {
    hide *;
    StreamCons(a);
    if a == [] {
      assert a + b == b;
      assert [] + Stream(b) == Stream(b);
    } else {
      var c := a + b;
      assert c[0] == a[0];
      assert c[1..] == a[1..] + b;
      StreamCons(c);
      StreamAppend(a[1..], b);
      var x, y, z := Lsb(a[0], 8), Stream(a[1..]), Stream(b);
      assert (x + y) + z == x + (y + z);
    }
  }

  lemma StreamOne(x: byte)
    ensures Stream([x]) == Lsb(x, 8)
  {
  }

  lemma {:induction false} ReadBytesOf(b: bytes, rest: bits)
    ensures ReadBytes(Stream(b) + rest, |b|) == b && (Stream(b) + rest)[8 * |b|..] == rest
  {
    if b == [] {
      assert Stream(b) + rest == rest;
    } else {
      var s, t := Stream(b) + rest, Stream(b[1..]) + rest;
      var x := Lsb(b[0], 8);
      assert s == x + t;
      PowersUpTo9();
      ReadLsbOf(b[0], 8, t);
      hide Lsb, ReadLsb, Stream;
      assert s[8..] == t;
      ReadBytesOf(b[1..], rest);
      assert b == [b[0]] + b[1..];
      assert s[8 * |b|..] == t[8 * |b[1..]|..];
    }
  }

  /** The low bits of a number, split: the first n, then the others. */
  lemma {:induction false} LsbSplit(v: nat, n: nat, m: nat)
    ensures Lsb(v, n + m) == Lsb(v, n) + Lsb(Shr(v, n), m)
  {
    if n > 0 {
      LsbSplit(v / 2, n - 1, m);
      HalfThen(v, n - 1);
    }
  }

  lemma {:induction false} LsbOfSum(a: nat, c: nat, n: nat, m: nat)
    requires a < Pow2(n)
    ensures Lsb(a + Shl(c, n), n + m) == Lsb(a, n) + Lsb(c, m)
  {
    if n > 0 {
      var h := Shl(c, n - 1);
      assert Shl(c, n) == 2 * h by { assert c * (2 * Pow2(n - 1)) == 2 * (c * Pow2(n - 1)); }
      assert (a + 2 * h) / 2 == a / 2 + h && (a + 2 * h) % 2 == a % 2;
      LsbOfSum(a / 2, c, n - 1, m);
    } else {
      assert Shl(c, 0) == c;
    }
  }

  lemma {:induction false} LsbLow(v: nat, n: nat)
    ensures Lsb(v, n) == Lsb(v % Pow2(n), n)
  {
    if n > 0 {
      ModHalf(v, Pow2(n - 1));
      LsbLow(v / 2, n - 1);
      var w := v % Pow2(n);
      assert w == v % 2 + 2 * ((v / 2) % Pow2(n - 1));
      assert w / 2 == (v / 2) % Pow2(n - 1) && w % 2 == v % 2;
    }
  }
}
