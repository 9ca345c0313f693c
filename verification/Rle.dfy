/** The run-length encoders of cuda/chapter3/stb_image_write.h, TGA and Radiance HDR, against decoders of the two formats. */
module Rle {
  import opened Bytes
  import opened Options

  // ---- TGA ----

  /** How stbiw__write_pixel orders the bytes of a pixel for TGA: blue first, alpha last. */
  function WritePixel(p: bytes): (w: bytes)
    requires 1 <= |p| <= 4
    ensures |w| == |p|
  {
    if |p| == 1 then [p[0]]
    else if |p| == 2 then [p[0], p[1]]
    else if |p| == 3 then [p[2], p[1], p[0]]
    else [p[2], p[1], p[0], p[3]]
  }

  /** Swapping red and blue back. */
  function ReadPixel(w: bytes): (p: bytes)
    requires 1 <= |w| <= 4
    ensures |p| == |w|
  {
    if |w| <= 2 then w else [w[2], w[1], w[0]] + w[3..]
  }

  lemma PixelRoundTrip(p: bytes)
    requires 1 <= |p| <= 4
    ensures ReadPixel(WritePixel(p)) == p
  {
  }

  function ReadPixels(b: bytes, comp: nat, k: nat): (r: Option<(seq<bytes>, bytes)>)
    requires 1 <= comp <= 4
    ensures r.Some? ==> |r.value.0| == k && |r.value.1| <= |b|
    decreases k
  {
    if k == 0 then Some(([], b))
    else if |b| < comp then None
    else
      match ReadPixels(b[comp..], comp, k - 1)
      case None => None
      case Some((ps, rest)) => Some(([ReadPixel(b[..comp])] + ps, rest))
  }

  function Repeat<T>(x: T, k: nat): (s: seq<T>)
    ensures |s| == k
  {
    seq(k, _ => x)
  }

  /** The packets of the TGA format: a header below 128 announces header + 1 raw pixels, the others header - 127 copies. */
  function ExpandTga(b: bytes, comp: nat, acc: seq<bytes>): Option<seq<bytes>>
    requires 1 <= comp <= 4
    decreases |b|
  {
    if b == [] then Some(acc)
    else if b[0] < 128 then
      match ReadPixels(b[1..], comp, b[0] + 1)
      case None => None
      case Some((ps, rest)) => ExpandTga(rest, comp, acc + ps)
    else if |b| < 1 + comp then None
    else ExpandTga(b[1 + comp..], comp, acc + Repeat(ReadPixel(b[1..1 + comp]), b[0] - 127))
  }

  ghost predicate Row(row: seq<bytes>, comp: nat) {
    1 <= comp <= 4 && forall k | 0 <= k < |row| :: |row[k]| == comp
  }

  function WritePixels(ps: seq<bytes>): bytes
    requires forall k | 0 <= k < |ps| :: 1 <= |ps[k]| <= 4
  {
    if ps == [] then [] else WritePixel(ps[0]) + WritePixels(ps[1..])
  }

  lemma {:induction false} ReadPixelsOf(ps: seq<bytes>, comp: nat, rest: bytes)
    requires Row(ps, comp)
    ensures ReadPixels(WritePixels(ps) + rest, comp, |ps|) == Some((ps, rest))
  {
    if ps == [] {
      assert [] + rest == rest;
    } else {
      var b := WritePixels(ps) + rest;
      var more := WritePixels(ps[1..]) + rest;
      assert b == WritePixel(ps[0]) + more;
      assert b[..comp] == WritePixel(ps[0]) && b[comp..] == more;
      PixelRoundTrip(ps[0]);
      ReadPixelsOf(ps[1..], comp, rest);
      assert ps == [ps[0]] + ps[1..];
    }
  }

  lemma {:induction false} WritePixelsAppend(ps: seq<bytes>, p: bytes)
    requires (forall k | 0 <= k < |ps| :: 1 <= |ps[k]| <= 4) && 1 <= |p| <= 4
    ensures WritePixels(ps + [p]) == WritePixels(ps) + WritePixel(p)
  {
    if ps == [] {
      assert [] + [p] == [p] && [p][1..] == [];
      assert WritePixels([p]) == WritePixel(p) + WritePixels([]);
    } else {
      WritePixelsAppend(ps[1..], p);
      assert (ps + [p])[0] == ps[0] && (ps + [p])[1..] == ps[1..] + [p];
    }
  }

  lemma RawStep(ps: seq<bytes>, comp: nat, acc: seq<bytes>, rest: bytes)
    requires Row(ps, comp) && 1 <= |ps| <= 128
    ensures ExpandTga([|ps| - 1] + (WritePixels(ps) + rest), comp, acc) == ExpandTga(rest, comp, acc + ps)
  {
    hide ReadPixels, WritePixels;
    var packet := [|ps| - 1] + (WritePixels(ps) + rest);
    assert packet[1..] == WritePixels(ps) + rest;
    ReadPixelsOf(ps, comp, rest);
  }

  lemma RunStep(p: bytes, len: nat, acc: seq<bytes>, rest: bytes)
    requires 1 <= |p| <= 4 && 1 <= len <= 128
    ensures ExpandTga([127 + len] + (WritePixel(p) + rest), |p|, acc) == ExpandTga(rest, |p|, acc + Repeat(p, len))
  {
    hide ReadPixels, ReadPixel, WritePixel;
    var packet := [127 + len] + (WritePixel(p) + rest);
    assert packet[1..1 + |p|] == WritePixel(p) && packet[1 + |p|..] == rest;
    PixelRoundTrip(p);
  }

  /** The end of the stretch of equal elements at `i`, the first of which are known up to `k`. */
  function SameEnd<T(==)>(row: seq<T>, i: nat, k: nat): (e: nat)
    requires i < k <= |row|
    ensures k <= e <= |row| && (e < |row| ==> row[e] != row[i])
    ensures forall j | k <= j < e :: row[j] == row[i]
    decreases |row| - k
  {
    if k == |row| || row[k] != row[i] then k else SameEnd(row, i, k + 1)
  }

  /** The first pixel from `k` on that equals the one two before it. */
  function Echo<T(==)>(row: seq<T>, k: nat): (e: nat)
    requires 2 <= k <= |row|
    ensures k <= e <= |row| && (e < |row| ==> row[e] == row[e - 2])
    ensures forall j | k <= j < e :: row[j] != row[j - 2]
    decreases |row| - k
  {
    if k == |row| || row[k] == row[k - 2] then k else Echo(row, k + 1)
  }

  /** The packet at `i`: all the pixels equal to it, or raw pixels up to the one before an echo; 128 at most. */
  function Packet(row: seq<bytes>, i: nat): (p: (nat, bool))
    requires i < |row|
    ensures 1 <= p.0 <= 128 && i + p.0 <= |row|
  {
    if i + 1 == |row| then (1, true)
    else if row[i] == row[i + 1] then
      var e := SameEnd(row, i, i + 1);
      (if e - i < 128 then e - i else 128, false)
    else
      var e := Echo(row, i + 2);
      var left := |row| - i;
      (if e < |row| && e - i < 128 then e - i - 1 else if left < 128 then left else 128, true)
  }

  /** A run packet stands where two pixels are equal, and takes all that are, up to 128; a raw packet has no pixel that
      equals the one two before it, and ends one before such a pixel, at the end of the line, or after 128. */
  lemma {:induction false} PacketLaw(row: seq<bytes>, i: nat)
    requires i < |row|
    ensures var (len, raw) := Packet(row, i);
      && (raw <==> i + 1 == |row| || row[i] != row[i + 1])
      && if raw then
           && (forall k | i + 2 <= k <= i + len && k < |row| && k < i + 128 :: row[k] != row[k - 2])
           && (len == 128 || i + len == |row| || (i + len + 1 < |row| && row[i + len + 1] == row[i + len - 1]))
         else
           && (forall k | i <= k < i + len :: row[k] == row[i])
           && (len == 128 || i + len == |row| || row[i + len] != row[i])
  {
    hide SameEnd, Echo;
  }

  /** The search of the encoder. */
  method PacketLength(row: seq<bytes>, i: nat) returns (len: nat, diff: bool)
    requires i < |row|
    ensures (len, diff) == Packet(row, i)
  {
    diff := true;
    len := 1;
    if i < |row| - 1 {
      len := 2;
      diff := row[i] != row[i + 1];
      var k := i + 2;
      if diff {
        var prev := i;
        while k < |row| && len < 128
          invariant 2 <= len <= 128 && k == i + len <= |row| && prev == k - 2
          invariant Echo(row, i + 2) == Echo(row, k)
        {
          if row[prev] != row[k] {
            prev := prev + 1;
            len := len + 1;
          } else {
            len := len - 1;
            break;
          }
          k := k + 1;
        }
      } else {
        while k < |row| && len < 128
          invariant 2 <= len <= 128 && k == i + len <= |row|
          invariant SameEnd(row, i, i + 1) == SameEnd(row, i, k)
        {
          if row[i] == row[k] {
            len := len + 1;
          } else {
            break;
          }
          k := k + 1;
        }
      }
    }
  }

  function TgaPacket(row: seq<bytes>, i: nat): bytes
    requires i < |row| && forall k | 0 <= k < |row| :: 1 <= |row[k]| <= 4
  {
    var (len, raw) := Packet(row, i);
    if raw then [len - 1] + WritePixels(row[i..i + len]) else [127 + len] + WritePixel(row[i])
  }

  /** The packets from `i` on. */
  function TgaBytes(row: seq<bytes>, i: nat): bytes
    requires i <= |row| && forall k | 0 <= k < |row| :: 1 <= |row[k]| <= 4
    decreases |row| - i
  {
    if i == |row| then [] else TgaPacket(row, i) + TgaBytes(row, i + Packet(row, i).0)
  }

  /** The packet at `i` adds its pixels. */
  lemma {:induction false} PacketExpands(row: seq<bytes>, comp: nat, i: nat, rest: bytes)
    requires Row(row, comp) && i < |row|
    ensures ExpandTga(TgaPacket(row, i) + rest, comp, row[..i]) == ExpandTga(rest, comp, row[..i + Packet(row, i).0])
  {
    hide ExpandTga, WritePixel, WritePixels, Packet;
    var (len, raw) := Packet(row, i);
    assert row[..i] + row[i..i + len] == row[..i + len];
    if raw {
      RawStep(row[i..i + len], comp, row[..i], rest);
      assert TgaPacket(row, i) + rest == [len - 1] + (WritePixels(row[i..i + len]) + rest);
    } else {
      RunOfEquals(row, i);
      RunStep(row[i], len, row[..i], rest);
      assert TgaPacket(row, i) + rest == [127 + len] + (WritePixel(row[i]) + rest);
    }
  }

  lemma {:induction false} RunOfEquals(row: seq<bytes>, i: nat)
    requires i < |row| && !Packet(row, i).1
    ensures row[i..i + Packet(row, i).0] == Repeat(row[i], Packet(row, i).0)
  {
  }

  /** Expanding the packets gives back the scanline. */
  lemma {:induction false} TgaExpands(row: seq<bytes>, comp: nat, i: nat)
    requires Row(row, comp) && i <= |row|
    ensures ExpandTga(TgaBytes(row, i), comp, row[..i]) == Some(row)
    decreases |row| - i
  {
    hide ExpandTga, TgaPacket, Packet;
    if i == |row| {
      NoMorePackets(comp, row);
      assert row[..i] == row;
    } else {
      PacketExpands(row, comp, i, TgaBytes(row, i + Packet(row, i).0));
      TgaExpands(row, comp, i + Packet(row, i).0);
    }
  }

  method PutPixels(out0: bytes, row: seq<bytes>, i: nat, len: nat) returns (out: bytes)
    requires i + len <= |row| && forall k | 0 <= k < |row| :: 1 <= |row[k]| <= 4
    ensures out == out0 + WritePixels(row[i..i + len])
  {
    hide WritePixel;
    out := out0;
    for k := 0 to len
      invariant out == out0 + WritePixels(row[i..i + k])
    {
      WritePixelsAppend(row[i..i + k], row[i + k]);
      assert row[i..i + k] + [row[i + k]] == row[i..i + k + 1];
      out := out + WritePixel(row[i + k]);
    }
  }

  /** One packet: its header, then raw pixels or the pixel that is repeated. */
  method PutPacket(out0: bytes, row: seq<bytes>, i: nat) returns (out: bytes, len: nat)
    requires i < |row| && forall k | 0 <= k < |row| :: 1 <= |row[k]| <= 4
    ensures len == Packet(row, i).0 && out == out0 + TgaPacket(row, i)
  {
    hide WritePixel, WritePixels, Packet;
    var diff;
    len, diff := PacketLength(row, i);
    if diff {
      out := out0 + [(len - 1) % 256];
      out := PutPixels(out, row, i, len);
    } else {
      out := out0 + [Uchar(len as int - 129)];
      out := out + WritePixel(row[i]);
    }
  }

  /** The loop over one scanline in stbi_write_tga_core: these packets, which expand to the scanline. */
  method TgaScanline(row: seq<bytes>, comp: nat) returns (out: bytes)
    requires Row(row, comp)
    ensures out == TgaBytes(row, 0) && ExpandTga(out, comp, []) == Some(row)
  {
    hide ExpandTga, TgaPacket, Packet, TgaBytes;
    out := [];
    var i: nat := 0;
    while i < |row|
      invariant i <= |row| && out + TgaBytes(row, i) == TgaBytes(row, 0)
    {
      ghost var out0 := out;
      TgaStep(row, i);
      var len;
      out, len := PutPacket(out, row, i);
      i := i + len;
      assert out + TgaBytes(row, i) == out0 + (TgaPacket(row, i - len) + TgaBytes(row, i));
    }
    assert out + [] == out && row[..0] == [];
    TgaDone(row);
    TgaExpands(row, comp, 0);
  }

  lemma TgaStep(row: seq<bytes>, i: nat)
    requires i < |row| && forall k | 0 <= k < |row| :: 1 <= |row[k]| <= 4
    ensures TgaBytes(row, i) == TgaPacket(row, i) + TgaBytes(row, i + Packet(row, i).0)
  {
  }

  lemma TgaDone(row: seq<bytes>)
    requires forall k | 0 <= k < |row| :: 1 <= |row[k]| <= 4
    ensures TgaBytes(row, |row|) == []
  {
  }

  lemma NoMorePackets(comp: nat, acc: seq<bytes>)
    requires 1 <= comp <= 4
    ensures ExpandTga([], comp, acc) == Some(acc)
  {
  }

  /** STBIW_UCHAR */
  function Uchar(x: int): byte { x % 256 }

  // ---- Radiance HDR ----

  /** The codes of one component plane: above 128 a run of code - 128 bytes, below or at it so many literal bytes. */
  function ExpandHdr(b: bytes, width: nat, acc: bytes): Option<(bytes, bytes)>
    decreases |b|
  {
    if |acc| == width then Some((acc, b))
    else if |acc| > width || b == [] then None
    else if b[0] > 128 then
      if |b| < 2 then None else ExpandHdr(b[2..], width, acc + Repeat(b[1], b[0] - 128))
    else if b[0] == 0 || |b| < 1 + b[0] then None
    else ExpandHdr(b[1 + b[0]..], width, acc + b[1..1 + b[0]])
  }

  /** stbiw__write_dump_data */
  method Dump(out0: bytes, data: bytes) returns (out: bytes)
    requires |data| <= 128
    ensures out == out0 + ([|data|] + data)
  {
    var lengthbyte: byte := |data|;
    out := out0 + [lengthbyte];
    out := out + data;
  }

  lemma DumpStep(data: bytes, width: nat, plane: bytes, rest: bytes)
    requires 1 <= |data| <= 128 && |plane| + |data| <= width
    ensures ExpandHdr([|data|] + (data + rest), width, plane) == ExpandHdr(rest, width, plane + data)
  {
    var packet := [|data|] + (data + rest);
    assert packet[1..1 + |data|] == data && packet[1 + |data|..] == rest;
  }

  /** stbiw__write_run_data */
  method Run(out0: bytes, length: nat, databyte: byte) returns (out: bytes)
    requires length <= 127
    ensures out == out0 + [length + 128, databyte]
  {
    var lengthbyte: byte := length + 128;
    out := out0 + [lengthbyte];
    out := out + [databyte];
  }

  lemma HdrRunStep(length: nat, databyte: byte, width: nat, plane: bytes, rest: bytes)
    requires 1 <= length <= 127 && |plane| + length <= width
    ensures ExpandHdr([length + 128, databyte] + rest, width, plane) == ExpandHdr(rest, width, plane + Repeat(databyte, length))
  {
  }

  /** Three equal bytes at `r`. */
  predicate Triple(comp: bytes, r: nat) { r + 2 < |comp| && comp[r] == comp[r + 1] == comp[r + 2] }

  /** The first three equal bytes from `x` on, or the end. */
  function FirstRun(comp: bytes, x: nat): (r: nat)
    requires x <= |comp|
    ensures x <= r <= |comp| && (r < |comp| ==> Triple(comp, r))
    ensures forall k | x <= k < r :: !Triple(comp, k)
    decreases |comp| - x
  {
    if x == |comp| || Triple(comp, x) then x else FirstRun(comp, x + 1)
  }

  /** The code at `x`, whether it is a run, and whether the run goes on behind it. */
  datatype Code = Code(len: nat, run: bool, more: bool)

  /** Literals up to the first three equal bytes, at most 128 in a code; or the equal bytes, at most 127 in a code.
      `inside` means that the code before has not finished its run. */
  function CodeAt(comp: bytes, x: nat, inside: bool): (c: Code)
    requires x < |comp|
    ensures 1 <= c.len <= (if c.run then 127 else 128) && x + c.len <= |comp| && (c.more ==> x + c.len < |comp|)
    ensures c.run ==> forall k | x <= k < x + c.len :: comp[k] == comp[x]
  {
    if inside || FirstRun(comp, x) == x then
      var e := SameEnd(comp, x, x + 1);
      if e - x > 127 then Code(127, true, true) else Code(e - x, true, false)
    else
      var r := FirstRun(comp, x);
      Code(if r - x > 128 then 128 else r - x, false, false)
  }

  /** A run code stands where three bytes are equal or a run goes on, and takes all that are equal, up to 127; three equal
      bytes never begin within literals, which end before them, at the end of the plane, or after 128. */
  lemma {:induction false} CodeLaw(comp: bytes, x: nat, inside: bool)
    requires x < |comp|
    ensures var c := CodeAt(comp, x, inside);
      && (c.run <==> inside || Triple(comp, x))
      && if c.run then
           && (c.len == 127 || x + c.len == |comp| || comp[x + c.len] != comp[x])
           && (c.more <==> x + c.len < |comp| && comp[x + c.len] == comp[x])
         else
           && (forall k | x <= k < x + c.len :: !Triple(comp, k))
           && (c.len == 128 || x + c.len == |comp| || Triple(comp, x + c.len))
  {
    hide SameEnd;
    if FirstRun(comp, x) != x {
      RunFurther(comp, x, x);
    }
  }

  function CodeBytes(comp: bytes, x: nat, c: Code): bytes
    requires x + c.len <= |comp| && x < |comp| && c.len <= (if c.run then 127 else 128)
  {
    if c.run then [c.len + 128, comp[x]] else [c.len] + comp[x..x + c.len]
  }

  /** The codes of a plane from `x` on. */
  function HdrCodes(comp: bytes, x: nat, inside: bool): bytes
    requires x <= |comp|
    decreases |comp| - x
  {
    if x == |comp| then []
    else
      var c := CodeAt(comp, x, inside);
      CodeBytes(comp, x, c) + HdrCodes(comp, x + c.len, c.more)
  }

  lemma HdrStep(comp: bytes, x: nat, inside: bool)
    requires x < |comp|
    ensures var c := CodeAt(comp, x, inside);
      HdrCodes(comp, x, inside) == CodeBytes(comp, x, c) + HdrCodes(comp, x + c.len, c.more)
  {
  }

  lemma HdrDone(comp: bytes, inside: bool)
    ensures HdrCodes(comp, |comp|, inside) == []
  {
  }

  lemma {:induction false} CodeExpands(comp: bytes, x: nat, inside: bool, rest: bytes)
    requires x < |comp|
    ensures var c := CodeAt(comp, x, inside);
      ExpandHdr(CodeBytes(comp, x, c) + rest, |comp|, comp[..x]) == ExpandHdr(rest, |comp|, comp[..x + c.len])
  {
    hide ExpandHdr, CodeAt;
    var c := CodeAt(comp, x, inside);
    if c.run {
      assert comp[..x] + Repeat(comp[x], c.len) == comp[..x + c.len];
      HdrRunStep(c.len, comp[x], |comp|, comp[..x], rest);
    } else {
      assert comp[..x] + comp[x..x + c.len] == comp[..x + c.len];
      assert CodeBytes(comp, x, c) + rest == [c.len] + (comp[x..x + c.len] + rest);
      DumpStep(comp[x..x + c.len], |comp|, comp[..x], rest);
    }
  }

  /** Expanding the codes gives back the plane, whatever follows. */
  lemma {:induction false} HdrExpands(comp: bytes, x: nat, inside: bool, rest: bytes)
    requires x <= |comp|
    ensures ExpandHdr(HdrCodes(comp, x, inside) + rest, |comp|, comp[..x]) == Some((comp, rest))
    decreases |comp| - x
  {
    hide ExpandHdr, CodeAt, CodeBytes, HdrCodes;
    if x == |comp| {
      HdrDone(comp, inside);
      assert comp[..x] == comp && [] + rest == rest;
      PlaneDone(comp, rest);
    } else {
      var c := CodeAt(comp, x, inside);
      var a, b := CodeBytes(comp, x, c), HdrCodes(comp, x + c.len, c.more);
      HdrStep(comp, x, inside);
      assert (a + b) + rest == a + (b + rest);
      CodeExpands(comp, x, inside, b + rest);
      HdrExpands(comp, x + c.len, c.more, rest);
    }
  }

  /** `while (x < r)` around stbiw__write_dump_data */
  method DumpUpTo(comp: bytes, out0: bytes, x0: nat, r: nat) returns (out: bytes)
    requires x0 <= r <= |comp| && FirstRun(comp, x0) == r
    ensures out + HdrCodes(comp, r, false) == out0 + HdrCodes(comp, x0, false)
  {
    hide HdrCodes, FirstRun;
    out := out0;
    var x := x0;
    while x < r
      invariant x <= r && FirstRun(comp, x) == r && out + HdrCodes(comp, x, false) == out0 + HdrCodes(comp, x0, false)
    {
      var len := r - x;
      if len > 128 {
        len := 128;
      }
      ghost var out1, more := out, HdrCodes(comp, x + len, false);
      HdrStep(comp, x, false);
      RunFurther(comp, x, x + len);
      out := Dump(out, comp[x..x + len]);
      assert out + more == out1 + (([len] + comp[x..x + len]) + more);
      x := x + len;
    }
  }

  /** `while (x < r)` around stbiw__write_run_data */
  method RunUpTo(comp: bytes, out0: bytes, x0: nat, r: nat) returns (out: bytes)
    requires x0 < r <= |comp| && FirstRun(comp, x0) == x0 && SameEnd(comp, x0, x0 + 1) == r
    ensures out + HdrCodes(comp, r, false) == out0 + HdrCodes(comp, x0, false)
  {
    hide HdrCodes, FirstRun, SameEnd;
    out := out0;
    var x := x0;
    while x < r
      invariant x0 <= x <= r && (x < r ==> SameEnd(comp, x, x + 1) == r)
      invariant out + HdrCodes(comp, x, x0 < x < r) == out0 + HdrCodes(comp, x0, false)
    {
      var len := r - x;
      if len > 127 {
        len := 127;
      }
      ghost var out1, more := out, HdrCodes(comp, x + len, x + len < r);
      HdrStep(comp, x, x0 < x);
      out := Run(out, len, comp[x]);
      assert out + more == out1 + ([len + 128, comp[x]] + more);
      if x + len < r {
        SameFurther(comp, x, x + len);
      }
      x := x + len;
    }
  }

  /** The loop over one component in stbiw__write_hdr_scanline: these codes, which expand to the plane. */
  method HdrPlane(comp: bytes) returns (out: bytes)
    ensures out == HdrCodes(comp, 0, false)
    ensures forall rest: bytes :: ExpandHdr(out + rest, |comp|, []) == Some((comp, rest))
  {
    hide ExpandHdr, HdrCodes;
    var width := |comp|;
    out := [];
    var x: nat := 0;
    while x < width
      invariant x <= width && out + HdrCodes(comp, x, false) == HdrCodes(comp, 0, false)
    {
      var r := x;
      while r + 2 < width
        invariant x <= r <= width && FirstRun(comp, x) == FirstRun(comp, r)
      {
        if comp[r] == comp[r + 1] && comp[r] == comp[r + 2] {
          break;
        }
        r := r + 1;
      }
      if r + 2 >= width {
        NoRun(comp, r);
        r := width;
      }
      out := DumpUpTo(comp, out, x, r);
      RunFurther(comp, x, r);
      x := r;
      if r + 2 < width {
        while r < width && comp[r] == comp[x]
          invariant x <= r <= width && (r == x || SameEnd(comp, x, x + 1) == SameEnd(comp, x, r))
        {
          r := r + 1;
        }
        out := RunUpTo(comp, out, x, r);
        x := r;
      }
    }
    HdrDone(comp, false);
    assert out + [] == out && comp[..0] == [];
    forall rest: bytes
      ensures ExpandHdr(out + rest, |comp|, []) == Some((comp, rest))
    {
      HdrExpands(comp, 0, false, rest);
    }
  }

  lemma {:induction false} NoRun(comp: bytes, r: nat)
    requires r <= |comp| <= r + 2
    ensures FirstRun(comp, r) == |comp|
    decreases |comp| - r
  {
    if r < |comp| {
      NoRun(comp, r + 1);
    }
  }

  lemma {:induction false} RunFurther(comp: bytes, x: nat, k: nat)
    requires x <= k <= |comp| && k <= FirstRun(comp, x)
    ensures FirstRun(comp, k) == FirstRun(comp, x)
    decreases k - x
  {
    if x < k {
      RunFurther(comp, x + 1, k);
    }
  }

  lemma {:induction false} SameFurther(comp: bytes, x: nat, k: nat)
    requires x < k < |comp| && k < SameEnd(comp, x, x + 1)
    ensures SameEnd(comp, k, k + 1) == SameEnd(comp, x, x + 1)
  {
    hide SameEnd;
    var a, b := SameEnd(comp, k, k + 1), SameEnd(comp, x, x + 1);
    assert comp[k] == comp[x];
  }

  lemma PlaneDone(comp: bytes, rest: bytes)
    ensures ExpandHdr(rest, |comp|, comp) == Some((comp, rest))
  {
  }

  datatype Rgbe = Rgbe(r: byte, g: byte, b: byte, e: byte)

  function Component(p: Rgbe, c: nat): byte {
    if c == 0 then p.r else if c == 1 then p.g else if c == 2 then p.b else p.e
  }

  function Plane(line: seq<Rgbe>, c: nat): (plane: bytes)
    ensures |plane| == |line|
  {
    seq(|line|, x requires 0 <= x < |line| => Component(line[x], c))
  }

  function Flat(line: seq<Rgbe>): bytes {
    if line == [] then [] else [line[0].r, line[0].g, line[0].b, line[0].e] + Flat(line[1..])
  }

  function ReadFlat(b: bytes, width: nat): Option<(seq<Rgbe>, bytes)> {
    if width == 0 then Some(([], b))
    else if |b| < 4 then None
    else
      match ReadFlat(b[4..], width - 1)
      case None => None
      case Some((line, rest)) => Some(([Rgbe(b[0], b[1], b[2], b[3])] + line, rest))
  }

  function ReadPlanes(b: bytes, width: nat, k: nat): (r: Option<(seq<bytes>, bytes)>)
    ensures r.Some? ==> |r.value.0| == k
  {
    if k == 0 then Some(([], b))
    else
      match ReadPlanes(b, width, k - 1)
      case None => None
      case Some((planes, rest)) =>
        match ExpandHdr(rest, width, [])
        case None => None
        case Some((plane, rest1)) => Some((planes + [plane], rest1))
  }

  function Be16(hi: nat, lo: nat): nat { hi * 256 + lo }

  /** A scanline of the format: four bytes a pixel, or a header with the width and four coded planes. */
  function ReadScanline(b: bytes, width: nat): Option<(seq<Rgbe>, bytes)> {
    if width < 8 || width >= 32768 then ReadFlat(b, width)
    else if |b| < 4 || b[0] != 2 || b[1] != 2 || Be16(b[2], b[3]) != width then None
    else
      match ReadPlanes(b[4..], width, 4)
      case None => None
      case Some((ps, rest)) =>
        if exists c | 0 <= c < 4 :: |ps[c]| != width then None
        else Some((seq(width, x requires 0 <= x < width && forall c | 0 <= c < 4 :: |ps[c]| == width =>
                         Rgbe(ps[0][x], ps[1][x], ps[2][x], ps[3][x])), rest))
  }

  lemma {:induction false} FlatRead(line: seq<Rgbe>, rest: bytes)
    ensures ReadFlat(Flat(line) + rest, |line|) == Some((line, rest))
  {
    if line == [] {
      assert [] + rest == rest;
    } else {
      var b := Flat(line) + rest;
      assert b[4..] == Flat(line[1..]) + rest;
      FlatRead(line[1..], rest);
      assert line == [line[0]] + line[1..];
    }
  }

  lemma {:induction false} FlatAppend(line: seq<Rgbe>, p: Rgbe)
    ensures Flat(line + [p]) == Flat(line) + [p.r, p.g, p.b, p.e]
  {
    if line == [] {
      assert [] + [p] == [p] && [p][1..] == [];
    } else {
      FlatAppend(line[1..], p);
      assert (line + [p])[0] == line[0] && (line + [p])[1..] == line[1..] + [p];
    }
  }

  lemma {:induction false} PlanesRead(line: seq<Rgbe>, b: bytes, planes: seq<bytes>, rest: bytes)
    requires 8 <= |line| < 32768 && |b| >= 4 && b[0] == 2 && b[1] == 2 && Be16(b[2], b[3]) == |line|
    requires |planes| == 4 && forall c | 0 <= c < 4 :: planes[c] == Plane(line, c)
    requires ReadPlanes(b[4..], |line|, 4) == Some((planes, rest))
    ensures ReadScanline(b, |line|) == Some((line, rest))
  {
    hide ReadPlanes;
    forall x | 0 <= x < |line|
      ensures Rgbe(planes[0][x], planes[1][x], planes[2][x], planes[3][x]) == line[x]
    {
      assert planes[0][x] == line[x].r && planes[1][x] == line[x].g && planes[2][x] == line[x].b && planes[3][x] == line[x].e;
    }
    var read := ReadScanline(b, |line|).value.0;
    assert |read| == |line|;
    assert forall x | 0 <= x < |line| :: read[x] == line[x];
    assert read == line;
  }

  /** stbiw__write_hdr_scanline, from the pixels in RGBE. */
  method HdrScanline(line: seq<Rgbe>) returns (out: bytes)
    ensures forall rest: bytes :: ReadScanline(out + rest, |line|) == Some((line, rest))
  {
    hide ExpandHdr;
    var width := |line|;
    out := [];
    if width < 8 || width >= 32768 {
      for x := 0 to width
        invariant out == Flat(line[..x])
      {
        assert line[..x] + [line[x]] == line[..x + 1];
        FlatAppend(line[..x], line[x]);
        out := out + [line[x].r, line[x].g, line[x].b, line[x].e];
      }
      assert line[..width] == line;
      forall rest: bytes
        ensures ReadScanline(out + rest, |line|) == Some((line, rest))
      {
        FlatRead(line, rest);
      }
    } else {
      var header: bytes := [2, 2, width / 256 % 256, width % 256];
      ghost var planes: seq<bytes> := [];
      assert forall rest: bytes :: [] + rest == rest;
      for c := 0 to 4
        invariant planes == seq(c, k requires 0 <= k < c => Plane(line, k))
        invariant forall rest: bytes :: ReadPlanes(out + rest, width, c) == Some((planes, rest))
      {
        var scratch := Plane(line, c);
        var codes := HdrPlane(scratch);
        ghost var out0, planes0 := out, planes;
        out := out + codes;
        planes := planes + [scratch];
        forall rest: bytes
          ensures ReadPlanes(out + rest, width, c + 1) == Some((planes, rest))
        {
          assert out + rest == out0 + (codes + rest);
        }
      }
      ghost var codes := out;
      out := header + out;
      forall rest: bytes
        ensures ReadScanline(out + rest, |line|) == Some((line, rest))
      {
        assert out + rest == header + (codes + rest);
        assert (out + rest)[4..] == codes + rest;
        PlanesRead(line, out + rest, planes, rest);
      }
    }
  }
}
