/** A decoder written from RFC 1951 (DEFLATE) and RFC 1950 (zlib), for the block types the encoder emits:
    stored blocks and blocks with the fixed Huffman codes. */
module Inflate {
  import opened Bytes
  import opened Bits
  import opened Adler
  import opened Options

  type bit = x: nat | x < 2 witness 0
  type bits = seq<bit>

  // ---- Section 3.1.1: packing into bytes, least significant bit first ----

  /** The n low-order bits of `v`, least significant first. */
  function Lsb(v: nat, n: nat): (b: bits)
    ensures |b| == n
  {
    if n == 0 then [] else [v % 2] + Lsb(v / 2, n - 1)
  }

  /** The n low-order bits of `v`, most significant first: the order of Huffman codes. */
  function Msb(v: nat, n: nat): (b: bits)
    ensures |b| == n
  {
    if n == 0 then [] else Msb(v / 2, n - 1) + [v % 2]
  }

  function Stream(b: bytes): (s: bits)
    ensures |s| == 8 * |b|
  {
    if b == [] then [] else Lsb(b[0], 8) + Stream(b[1..])
  }

  function ReadLsb(s: bits, n: nat): nat
    requires n <= |s|
  {
    if n == 0 then 0 else s[0] + 2 * ReadLsb(s[1..], n - 1)
  }

  function ReadMsb(s: bits, n: nat): nat
    requires n <= |s|
  {
    if n == 0 then 0 else 2 * ReadMsb(s, n - 1) + s[n - 1]
  }

  // ---- Section 3.2.5: lengths and distances ----

  const LENGTH_BASE: seq<nat> :=
    [3, 4, 5, 6, 7, 8, 9, 10, 11, 13, 15, 17, 19, 23, 27, 31, 35, 43, 51, 59, 67, 83, 99, 115, 131, 163, 195, 227, 258]
  const LENGTH_EXTRA: seq<nat> :=
    [0, 0, 0, 0, 0, 0, 0, 0, 1, 1, 1, 1, 2, 2, 2, 2, 3, 3, 3, 3, 4, 4, 4, 4, 5, 5, 5, 5, 0]
  const DIST_BASE: seq<nat> :=
    [1, 2, 3, 4, 5, 7, 9, 13, 17, 25, 33, 49, 65, 97, 129, 193, 257, 385, 513, 769, 1025, 1537, 2049, 3073,
     4097, 6145, 8193, 12289, 16385, 24577]
  const DIST_EXTRA: seq<nat> :=
    [0, 0, 0, 0, 1, 1, 2, 2, 3, 3, 4, 4, 5, 5, 6, 6, 7, 7, 8, 8, 9, 9, 10, 10, 11, 11, 12, 12, 13, 13]

  function LengthBase(j: nat): nat
    requires j < 29
  {
    LENGTH_BASE[j]
  }

  function LengthExtra(j: nat): nat
    requires j < 29
  {
    LENGTH_EXTRA[j]
  }

  function DistBase(d: nat): (r: nat)
    requires d < 30
    ensures r > 0
  {
    DIST_BASE[d]
  }

  function DistExtra(d: nat): nat
    requires d < 30
  {
    DIST_EXTRA[d]
  }

  const END_OF_BLOCK := 256

  // ---- Section 3.2.6: the fixed codes ----

  /** The next literal/length symbol and the bits after it. */
  function DecodeSymbol(s: bits): (r: Option<(nat, bits)>)
    ensures r.Some? ==> r.value.0 < 288 && |r.value.1| < |s|
  {
    if |s| < 7 then None
    else
      var v7 := ReadMsb(s, 7);
      if v7 <= 0x17 then Some((256 + v7, s[7..]))
      else if |s| < 8 then None
      else
        var v8 := ReadMsb(s, 8);
        if 0x30 <= v8 <= 0xBF then Some((v8 - 0x30, s[8..]))
        else if 0xC0 <= v8 <= 0xC7 then Some((280 + v8 - 0xC0, s[8..]))
        else if |s| < 9 then None
        else
          var v9 := ReadMsb(s, 9);
          if 0x190 <= v9 <= 0x1FF then Some((144 + v9 - 0x190, s[9..])) else None
  }

  /** Extra bits: an integer, least significant bit first. */
  function DecodeExtra(s: bits, n: nat): (r: Option<(nat, bits)>)
    ensures r.Some? ==> |r.value.1| + n == |s|
  {
    if |s| < n then None else Some((ReadLsb(s, n), s[n..]))
  }

  /** The length that symbol `sym` begins. */
  function DecodeLength(sym: nat, s: bits): (r: Option<(nat, bits)>)
    requires sym >= 257
    ensures r.Some? ==> |r.value.1| <= |s|
  {
    if sym > 285 then None
    else
      var j := sym - 257;
      match DecodeExtra(s, LengthExtra(j))
      case None => None
      case Some((e, s1)) => Some((LengthBase(j) + e, s1))
  }

  /** The distance: a five-bit code, then its extra bits. */
  function DecodeDistance(s: bits): (r: Option<(nat, bits)>)
    ensures r.Some? ==> r.value.0 > 0 && |r.value.1| <= |s|
  {
    if |s| < 5 || ReadMsb(s, 5) > 29 then None
    else
      var d := ReadMsb(s, 5);
      match DecodeExtra(s[5..], DistExtra(d))
      case None => None
      case Some((f, s1)) => Some((DistBase(d) + f, s1))
  }

  /** Copy `len` bytes from `dist` back; the copy may overlap what it produces. */
  function Copy(out: bytes, dist: nat, len: nat): (r: bytes)
    requires 0 < dist <= |out|
    ensures |r| == |out| + len
    decreases len
  {
    if len == 0 then out else Copy(out + [out[|out| - dist]], dist, len - 1)
  }

  /** The symbols of a block with fixed codes, up to the end of the block. */
  function InflateFixed(s: bits, out: bytes): (r: Option<(bytes, bits)>)
    ensures r.Some? ==> |r.value.1| < |s|
    decreases |s|
  {
    match DecodeSymbol(s)
    case None => None
    case Some((sym, s1)) =>
      if sym < 256 then InflateFixed(s1, out + [sym])
      else if sym == END_OF_BLOCK then Some((out, s1))
      else
        match DecodeLength(sym, s1)
        case None => None
        case Some((len, s2)) =>
          match DecodeDistance(s2)
          case None => None
          case Some((dist, s3)) =>
            if dist > |out| then None else InflateFixed(s3, Copy(out, dist, len))
  }

  // ---- Section 3.2.4: stored blocks ----

  function ReadBytes(s: bits, n: nat): (b: bytes)
    requires 8 * n <= |s|
    ensures |b| == n
  {
    if n == 0 then [] else
      ReadLsbBound(s, 8);
      [ReadLsb(s, 8)] + ReadBytes(s[8..], n - 1)
  }

  lemma {:induction false} ReadLsbBound(s: bits, n: nat)
    requires n <= |s|
    ensures ReadLsb(s, n) < Pow2(n)
  {
    if n > 0 {
      ReadLsbBound(s[1..], n - 1);
    }
  }

  /** Skip to a byte boundary, read LEN and its complement, then LEN bytes. */
  function InflateStored(s: bits, out: bytes): (r: Option<(bytes, bits)>)
    ensures r.Some? ==> |r.value.1| <= |s|
  {
    var t := s[|s| % 8..];
    if |t| < 32 then None
    else
      var len, nlen := ReadLsb(t, 16), ReadLsb(t[16..], 16);
      if len + nlen != 65535 || |t| < 32 + 8 * len then None
      else Some((out + ReadBytes(t[32..], len), t[32 + 8 * len..]))
  }

  // ---- Section 3.2.3: blocks ----

  function InflateBlocks(s: bits, out: bytes): (r: Option<(bytes, bits)>)
    ensures r.Some? ==> |r.value.1| <= |s|
    decreases |s|
  {
    if |s| < 3 then None
    else
      var final, kind := s[0], ReadLsb(s[1..], 2);
      var r := if kind == 0 then InflateStored(s[3..], out)
               else if kind == 1 then InflateFixed(s[3..], out)
               else None;
      match r
      case None => None
      case Some((out1, s1)) => if final == 1 then r else InflateBlocks(s1, out1)
  }

  // ---- RFC 1950, section 2.2 ----

  /** CMF and FLG are a valid deflate header with no preset dictionary. */
  predicate ValidHeader(cmf: byte, flg: byte) {
    && cmf % 16 == 8 && cmf / 16 <= 7
    && (cmf * 256 + flg) % 31 == 0
    && (flg / 32) % 2 == 0
  }

  /** The data of a zlib stream, if it is one and its checksum is right. */
  function Decode(z: bytes): Option<bytes> {
    if |z| < 2 || !ValidHeader(z[0], z[1]) then None
    else
      match InflateBlocks(Stream(z[2..]), [])
      case None => None
      case Some((data, rest)) =>
        var end := |rest| / 8;
        if |z| - 2 >= end && z[|z| - end..] == Trailer(AdlerOf(data)) then Some(data) else None
  }
}
