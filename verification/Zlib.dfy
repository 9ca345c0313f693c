/** stbi_zlib_compress as a whole: the fixed-code block or stored blocks, then the checksum; and its inverse. */
module Zlib {
  import opened Bytes
  import opened Bits
  import opened Adler
  import opened Inflate
  import opened DeflateBits
  import opened ZWriter
  import opened Deflate
  import opened Options
  import opened Parses

  // ---- The block with fixed codes ----

  lemma {:induction false} FixedDecodes(w: Writer, data: bytes, w1: Writer, k: nat)
    requires Emitted(w, data) && ZWriter.Valid(w1) && w1.bitcount == 0 && w1.out[..2] == w.out[..2] && k < 8
    requires Written(w1) == Written(w) + SymbolBits(END_OF_BLOCK) + Lsb(0, k)
    ensures Decode(w1.out + Trailer(AdlerOf(data))) == Some(data)
  {
    hide AdlerOf, Decodes, SymbolBits, Stream, InflateFixed;
    var t := Trailer(AdlerOf(data));
    var z := w1.out + t;
    var pad := Lsb(0, k) + Stream(t);
    StreamAppend(w1.out[2..], t);
    assert z[2..] == w1.out[2..] + t;
    var s := Written(w);
    assert Stream(z[2..]) == s + (SymbolBits(END_OF_BLOCK) + pad) by {
      assert Written(w1) == Stream(w1.out[2..]);
    }
    FixedBlockInflates(s, data, pad);
    assert z[|z| - 4..] == t;
    assert z[0] == z[..2][0] == 0x78 && z[1] == z[..2][1] == 0x5e by {
      assert z[..2] == w1.out[..2];
    }
  }

  lemma {:induction false} FixedBlockInflates(s: bits, data: bytes, rest: bits)
    requires |s| >= 3 && s[..3] == [1, 1, 0] && Decodes(s[3..], data)
    ensures InflateBlocks(s + (SymbolBits(END_OF_BLOCK) + rest), []) == Some((data, rest))
  {
    hide Decodes, SymbolBits, InflateFixed;
    var u := s + (SymbolBits(END_OF_BLOCK) + rest);
    DecodesEnd(s[3..], data, rest);
    assert u[3..] == s[3..] + SymbolBits(END_OF_BLOCK) + rest;
    assert u[0] == s[..3][0] && u[1] == s[..3][1] && u[2] == s[..3][2];
    ReadTwo(u[1..]);
  }

  lemma ReadTwo(s: bits)
    requires |s| >= 2
    ensures s[0] == 1 && s[1] == 0 ==> ReadLsb(s, 2) == 1
    ensures s[0] == 0 && s[1] == 0 ==> ReadLsb(s, 2) == 0
  {
    assert ReadLsb(s[1..], 1) == s[1] + 2 * ReadLsb(s[1..][1..], 0);
  }

  // ---- Stored blocks ----

  const MAX_STORED := 32767

  /** `~x` on a C int */
  function Not(x: int): int { -x - 1 }

  /** BFINAL with BTYPE 0, LEN, and its complement as the two casts of ~blocklen give it. */
  function StoredHeader(final: bool, blocklen: nat): (h: bytes)
    ensures |h| == 5
  {
    [if final then 1 else 0, blocklen % 256, blocklen / 256 % 256, Not(blocklen) % 256, Not(blocklen) / 256 % 256]
  }

  /** The stored blocks for the data from `j` on. */
  function StoredFrom(data: bytes, j: nat): bytes
    requires j <= |data|
    decreases |data| - j
  {
    if j == |data| then []
    else
      var n := if |data| - j > MAX_STORED then MAX_STORED else |data| - j;
      StoredHeader(|data| - j == n, n) + (data[j..j + n] + StoredFrom(data, j + n))
  }

  /** What the fallback test compares against, for `n` bytes: the stored size. */
  function StoredSize(n: nat): nat {
    n + ((n + 32766) / 32767) * 5
  }

  lemma {:induction false} StoredLength(data: bytes, j: nat)
    requires j <= |data|
    ensures |StoredFrom(data, j)| == StoredSize(|data| - j)
    decreases |data| - j
  {
    if j < |data| {
      var n := if |data| - j > MAX_STORED then MAX_STORED else |data| - j;
      StoredLength(data, j + n);
    }
  }

  lemma {:induction false} Le16(v: nat)
    requires v < 65536
    ensures Lsb(v % 256, 8) + Lsb(v / 256, 8) == Lsb(v, 16)
  {
    PowersUpTo9();
    LsbSplit(v, 8, 8);
    LsbLow(v, 8);
  }

  lemma Complement(n: nat)
    requires n < 65536
    ensures Not(n) % 256 == (65535 - n) % 256 && Not(n) / 256 % 256 == (65535 - n) / 256
  {
  }

  lemma {:induction false} StreamOfHeader(final: bool, n: nat)
    requires n < 65536
    ensures Stream(StoredHeader(final, n)) == Lsb(if final then 1 else 0, 8) + (Lsb(n, 16) + Lsb(65535 - n, 16))
  {
    hide Stream, Lsb;
    var h := StoredHeader(final, n);
    Complement(n);
    Le16(n);
    Le16(65535 - n);
    assert h == [h[0]] + ([h[1]] + ([h[2]] + ([h[3]] + [h[4]])));
    StreamAppend([h[3]], [h[4]]);
    StreamAppend([h[2]], [h[3]] + [h[4]]);
    StreamAppend([h[1]], [h[2]] + ([h[3]] + [h[4]]));
    StreamAppend([h[0]], [h[1]] + ([h[2]] + ([h[3]] + [h[4]])));
    StreamOne(h[0]);
    StreamOne(h[1]);
    StreamOne(h[2]);
    StreamOne(h[3]);
    StreamOne(h[4]);
    assert h[1] == n % 256 && h[2] == n / 256;
    var a, b, c, d := Lsb(h[1], 8), Lsb(h[2], 8), Lsb(h[3], 8), Lsb(h[4], 8);
    assert a + (b + (c + d)) == (a + b) + (c + d);
  }

  /** One stored block gives its bytes, whatever bytes follow. */
  lemma {:induction false} StoredInflates(final: bool, chunk: bytes, tail: bytes, out: bytes)
    requires |chunk| <= MAX_STORED
    ensures var s := Stream(StoredHeader(final, |chunk|) + (chunk + tail));
      && |s| > 3 && s[0] == (if final then 1 else 0) && ReadLsb(s[1..], 2) == 0
      && InflateStored(s[3..], out) == Some((out + chunk, Stream(tail)))
  {
    hide Stream, Lsb, ReadLsb, ReadBytes;
    var n := |chunk|;
    var h := StoredHeader(final, n);
    StreamAppend(h, chunk + tail);
    StreamAppend(chunk, tail);
    StreamOfHeader(final, n);
    var body := Stream(chunk) + Stream(tail);
    var first := Lsb(if final then 1 else 0, 8);
    var len, nlen := Lsb(n, 16), Lsb(65535 - n, 16);
    var t := len + (nlen + body);
    var s := Stream(h + (chunk + tail));
    assert s == first + t;
    FirstByte(final, t);
    var u := s[3..];
    assert u[|u| % 8..] == t by {
      assert |u| % 8 == 5;
      assert s[8..] == t;
    }
    PowersUpTo9();
    Pow2Add(8, 8);
    ReadLsbOf(n, 16, nlen + body);
    assert t[16..] == nlen + body;
    ReadLsbOf(65535 - n, 16, body);
    assert t[32..] == body;
    ReadBytesOf(chunk, Stream(tail));
    assert t[32 + 8 * n..] == body[8 * n..];
  }

  lemma {:induction false} FirstByte(final: bool, t: bits)
    ensures var s := Lsb(if final then 1 else 0, 8) + t;
      s[0] == (if final then 1 else 0) && ReadLsb(s[1..], 2) == 0
  {
    var v := if final then 1 else 0;
    assert Lsb(v, 8) == [v] + Lsb(0, 7) && Lsb(0, 7) == [0] + Lsb(0, 6) && Lsb(0, 6) == [0] + Lsb(0, 5);
    var s := Lsb(v, 8) + t;
    ReadTwo(s[1..]);
    assert s[1] == 0 && s[2] == 0;
  }

  lemma {:induction false} AllStoredInflates(data: bytes, j: nat, tail: bytes)
    requires j < |data|
    ensures InflateBlocks(Stream(StoredFrom(data, j) + tail), data[..j]) == Some((data, Stream(tail)))
    decreases |data| - j
  {
    hide Stream, InflateStored, InflateFixed, StoredHeader;
    var n := if |data| - j > MAX_STORED then MAX_STORED else |data| - j;
    var final := |data| - j == n;
    var chunk, more := data[j..j + n], StoredFrom(data, j + n);
    assert StoredFrom(data, j) + tail == StoredHeader(final, n) + (chunk + (more + tail));
    StoredInflates(final, chunk, more + tail, data[..j]);
    assert data[..j] + chunk == data[..j + n];
    if final {
      assert more + tail == tail && data[..j + n] == data;
    } else {
      AllStoredInflates(data, j + n, tail);
    }
  }

  lemma {:induction false} StoredDecodes(data: bytes)
    requires |data| > 0
    ensures Decode([0x78, 0x5e] + StoredFrom(data, 0) + Trailer(AdlerOf(data))) == Some(data)
  {
    hide AdlerOf, StoredFrom, InflateBlocks, Stream;
    var t := Trailer(AdlerOf(data));
    var z := [0x78, 0x5e] + StoredFrom(data, 0) + t;
    assert z[2..] == StoredFrom(data, 0) + t;
    AllStoredInflates(data, 0, t);
    assert data[..0] == [];
    assert z[|z| - 4..] == t;
  }

  method StoredBlocks(data: bytes, out0: bytes) returns (out: bytes)
    requires |out0| > 2 + StoredSize(|data|)
    ensures out == out0[..2] + StoredFrom(data, 0)
  {
    out := out0[..2];
    var j: nat := 0;
    while j < |data|
      invariant j <= |data| && out + StoredFrom(data, j) == out0[..2] + StoredFrom(data, 0)
    {
      hide StoredHeader;
      var blocklen := |data| - j;
      if blocklen > 32767 {
        blocklen := 32767;
      }
      ghost var out1 := out;
      out := out + StoredHeader(|data| - j == blocklen, blocklen);
      // The copy relies on the room the discarded block left in the buffer.
      StoredLength(data, 0);
      assert |out| + blocklen < |out0|;
      out := out + data[j..j + blocklen];
      assert out + StoredFrom(data, j + blocklen) == out1 + StoredFrom(data, j);
      j := j + blocklen;
    }
    assert out + [] == out;
  }

  // ---- The whole function ----

  /** The bits of the block with fixed codes. */
  function FixedBits(p: Parse): bits { [1, 1, 0] + TokensBits(p.tokens) + SymbolBits(END_OF_BLOCK) }

  /** The block with fixed codes of the parse, padded with zero bits, unless stored blocks are shorter. */
  ghost predicate Holds(data: bytes, p: Parse, body: bytes) {
    var size := (|FixedBits(p)| + 7) / 8;
    if size <= StoredSize(|data|) then |body| == size && Stream(body) == FixedBits(p) + Lsb(0, 8 * size - |FixedBits(p)|)
    else body == StoredFrom(data, 0)
  }

  lemma {:induction false} StreamSize(b: bytes)
    ensures |Stream(b)| == 8 * |b|
  {
    if b != [] {
      StreamSize(b[1..]);
    }
  }

  lemma {:induction false} FixedSize(w: Writer, p: Parse, k: nat)
    requires ZWriter.Valid(w) && w.bitcount == 0 && k < 8 && Written(w) == FixedBits(p) + Lsb(0, k)
    ensures |w.out| - 2 == (|FixedBits(p)| + 7) / 8
    ensures Stream(w.out[2..]) == FixedBits(p) + Lsb(0, 8 * (|w.out| - 2) - |FixedBits(p)|)
  {
    hide FixedBits;
    StreamSize(w.out[2..]);
    assert Written(w) == Stream(w.out[2..]);
  }

  /** The parse of the data for the quality decides the result; on a non-empty input, it decodes to the input.
      The empty input takes the fallback with no block at all, and the result is no zlib stream. */
  method Compress(data: bytes, quality: int) returns (z: bytes, ghost p: Parse)
    ensures IsParse(data, Clamped(quality), p, |data|)
    ensures |z| >= 6 && z[..2] == [0x78, 0x5e] && Holds(data, p, z[2..|z| - 4]) && z[|z| - 4..] == Trailer(AdlerOf(data))
    ensures |data| > 0 ==> Decode(z) == Some(data)
    ensures |data| == 0 ==> z == [0x78, 0x5e, 0, 0, 0, 1] && Decode(z) == None
    ensures |z| <= 2 + StoredSize(|data|) + 4
  {
    hide Emitted, Written, Decode, StoredFrom, SymbolBits, AdlerOf, IsParse, TokensBits, Stream, Lsb;
    var w0;
    w0, p := FixedBlock(data, quality);
    EmittedIsOpen(w0, data);
    var w := Huff(w0, 256);
    var w1 := Pad(w);
    ghost var k: nat :| k < 8 && Written(w1) == Written(w) + Lsb(0, k);
    assert w1.out[..2] == w0.out[..2];
    FixedDecodes(w0, data, w1, k);
    FixedSize(w1, p, k);
    var out := w1.out;
    if |out| > |data| + 2 + ((|data| + 32766) / 32767) * 5 {
      out := StoredBlocks(data, out);
      StoredLength(data, 0);
      if |data| > 0 {
        StoredDecodes(data);
      }
    }
    assert out[..2] == [0x78, 0x5e] && Holds(data, p, out[2..]);
    var s1, s2 := Checksum(data);
    var trailer := [Shr(s2, 8) % 256, s2 % 256, Shr(s1, 8) % 256, s1 % 256];
    assert trailer == Trailer(Sums(s1, s2)) by { PowersUpTo9(); }
    z := out + trailer;
    assert z[2..|z| - 4] == out[2..] && z[..2] == out[..2];
    if |data| == 0 {
      assert StoredFrom(data, 0) == [] by { NoStored(data); }
      EmptyDoesNotDecode(z);
    }
  }

  lemma NoStored(data: bytes)
    ensures data == [] ==> StoredFrom(data, 0) == []
  {
  }

  lemma {:induction false} EmittedIsOpen(w: Writer, data: bytes)
    requires Emitted(w, data)
    ensures ZWriter.Valid(w) && w.out[..2] == [0x78, 0x5e] && |Written(w)| >= 3
  {
  }

  lemma {:induction false} SomethingWritten(w: Writer)
    requires ZWriter.Valid(w) && w.bitcount == 0 && |Written(w)| >= 3
    ensures |w.out| > 2
  {
  }

  lemma {:induction false} EmptyDoesNotDecode(z: bytes)
    requires z == [0x78, 0x5e] + StoredFrom([], 0) + Trailer(AdlerOf([]))
    ensures z == [0x78, 0x5e, 0, 0, 0, 1] && Decode(z) == None
  {
    hide Stream, InflateFixed;
    var b := z[2..];
    assert b == [0, 0, 0, 1] && b == [0] + b[1..];
    StreamAppend([0], b[1..]);
    StreamOne(0);
    FirstByte(false, Stream(b[1..]));
  }
}
