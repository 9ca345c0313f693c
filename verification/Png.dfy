/** The line filters of stbi_write_png_to_mem (cuda/chapter3/stb_image_write.h), and its compressed pixel data. */
module Png {
  import opened Bytes
  import opened Filters
  import Deflate
  import Inflate
  import Parses
  import Zlib
  import opened Options

  lemma Between(s: int, r: nat, m: nat)
    requires r <= m
    ensures 0 <= s * r <= s * m || s * m <= s * r <= 0
  {
    assert s * m - s * r == s * (m - r);
  }

  /** An image in memory: rows of `width` pixels of `n` bytes, the first at `base`, each `stride` bytes after the one
      before. Rows may overlap, have gaps between them or go backwards. */
  datatype Image = Image(pixels: bytes, base: int, stride: int, width: nat, height: nat, n: nat) {
    /** Where a row starts, in the order of memory. */
    function At(r: int): int { base + stride * r }

    /** The size of a row. */
    function Line(): nat { width * n }

    /** There are pixels, and every row is inside the memory. */
    predicate Valid() {
      width > 0 && n > 0 && forall r | 0 <= r < height :: 0 <= At(r) && At(r) + Line() <= |pixels|
    }

    /** It is enough that the first and the last row are inside. */
    lemma {:induction false} EndsInside()
      requires width > 0 && n > 0 && height > 0
      ensures Valid() <==> 0 <= At(0) && At(0) + Line() <= |pixels| && 0 <= At(height - 1) && At(height - 1) + Line() <= |pixels|
    {
      forall r | 0 <= r < height
        ensures At(0) <= At(r) <= At(height - 1) || At(height - 1) <= At(r) <= At(0)
      {
        Between(stride, r, height - 1);
      }
    }

    /** Where row `y` of the output starts. */
    function RowStart(y: nat, flip: bool): int { At(if flip then height - 1 - y else y) }

    function SignedStride(flip: bool): int { if flip then -stride else stride }

    lemma RowInside(y: nat, flip: bool)
      requires Valid() && y < height
      ensures 0 <= RowStart(y, flip) && RowStart(y, flip) + Line() <= |pixels|
      ensures y > 0 ==> RowStart(y, flip) - SignedStride(flip) == RowStart(y - 1, flip)
    {
      var r := if flip then height - 1 - y else y;
      assert stride * (r + 1) == stride * r + stride && stride * (r - 1) == stride * r - stride;
    }

    /** Row `y` in the order of output. */
    function RowOf(y: nat, flip: bool): (row: bytes)
      requires Valid() && y < height
      ensures |row| == Line()
    {
      RowInside(y, flip);
      var z := RowStart(y, flip);
      pixels[z..z + Line()]
    }

    /** The row before it, zeros before the first. */
    function PriorOf(y: nat, flip: bool): (row: bytes)
      requires Valid() && y < height
      ensures |row| == Line()
    {
      if y == 0 then Zeros(Line()) else RowOf(y - 1, flip)
    }

    /** The first k rows in the order of output. */
    function Rows(flip: bool, k: nat): (rows: seq<bytes>)
      requires Valid() && k <= height
      ensures |rows| == k && forall i | 0 <= i < k :: rows[i] == RowOf(i, flip)
    {
      seq(k, i requires 0 <= i < k => RowOf(i, flip))
    }

    lemma AtLeastOnePixel()
      requires Valid()
      ensures Line() >= n > 0
    {
    }

    /** Where the bytes of a row and of the row before it are. */
    lemma Pixel(y: nat, flip: bool, i: nat)
      requires Valid() && y < height && i < Line()
      ensures var z := RowStart(y, flip);
        && 0 <= z + i < |pixels| && RowOf(y, flip)[i] == pixels[z + i]
        && var p := PriorOf(y, flip)[i];
           if y == 0 then p == 0 else
             var k := z + i - SignedStride(flip);
             0 <= k < |pixels| && p == pixels[k]
    {
      RowInside(y, flip);
      if y > 0 {
        RowInside(y - 1, flip);
      }
    }
  }

  /** stbiw__paeth */
  function Paeth(a: byte, b: byte, c: byte): (r: byte)
    ensures r == PaethPredictor(a, b, c)
  {
    var p: int := a as int + b - c;
    var pa, pb, pc := Abs(p - a), Abs(p - b), Abs(p - c);
    if pa <= pb && pa <= pc then a
    else if pb <= pc then b
    else c
  }

  const MAPPING: seq<nat> := [0, 1, 2, 3, 4]
  const FIRSTMAP: seq<nat> := [0, 1, 0, 5, 6]

  /** Which loop of the code serves a filter: the first row has its own. */
  function KindOf(y: nat, filterType: nat): nat
    requires filterType < 5
  {
    (if y != 0 then MAPPING else FIRSTMAP)[filterType]
  }

  /** The switch for a byte of the first pixel. */
  method FirstPixelByte(img: Image, y: nat, filterType: nat, flip: bool, i: nat) returns (d: int)
    requires img.Valid() && y < img.height && filterType < 5 && i < img.n && i < img.Line()
    requires KindOf(y, filterType) != 0
    ensures d == img.RowOf(y, flip)[i] - Predict(filterType, 0, img.PriorOf(y, flip)[i], 0)
  {
    hide Image.RowStart, Image.Valid, Image.RowOf, Image.PriorOf, Image.SignedStride;
    var z := img.RowStart(y, flip);
    var signedStride := img.SignedStride(flip);
    img.Pixel(y, flip, i);
    var x: int := img.pixels[z + i];
    match KindOf(y, filterType) {
      case 1 => d := x;
      case 2 => d := x - img.pixels[z + i - signedStride];
      case 3 => d := x - img.pixels[z + i - signedStride] / 2;
      case 4 => d := x - Paeth(0, img.pixels[z + i - signedStride], 0);
      case 5 => d := x;
      case 6 => d := x;
    }
  }

  /** The switch for the other bytes. */
  method LaterByte(img: Image, y: nat, filterType: nat, flip: bool, i: nat) returns (d: int)
    requires img.Valid() && y < img.height && filterType < 5 && img.n <= i < img.Line()
    requires KindOf(y, filterType) != 0
    ensures var row, prior := img.RowOf(y, flip), img.PriorOf(y, flip);
      d == row[i] - Predict(filterType, row[i - img.n], prior[i], prior[i - img.n])
  {
    hide Image.RowStart, Image.Valid, Image.RowOf, Image.PriorOf, Image.SignedStride;
    var z := img.RowStart(y, flip);
    var signedStride := img.SignedStride(flip);
    img.Pixel(y, flip, i);
    img.Pixel(y, flip, i - img.n);
    var x: int := img.pixels[z + i];
    var left := img.pixels[z + i - img.n];
    match KindOf(y, filterType) {
      case 1 => d := x - left;
      case 2 => d := x - img.pixels[z + i - signedStride];
      case 3 => d := x - (left as int + img.pixels[z + i - signedStride]) / 2;
      case 4 => d := x - Paeth(left, img.pixels[z + i - signedStride], img.pixels[z + i - signedStride - img.n]);
      case 5 => d := x - left / 2;
      case 6 => d := x - Paeth(left, 0, 0);
    }
  }

  /** stbiw__encode_png_line: the filter of RFC 2083, with its own cases for the first row and the first pixel. */
  method EncodeLine(img: Image, y: nat, filterType: nat, flip: bool, lineBuffer: array<byte>)
    requires img.Valid() && y < img.height && filterType < 5
    requires lineBuffer.Length == img.Line()
    modifies lineBuffer
    ensures lineBuffer[..] == Filtered(filterType, img.RowOf(y, flip), img.PriorOf(y, flip), img.n)
  {
    hide Image.RowStart, Image.Valid, Image.RowOf, Image.PriorOf, Predict, Filtered;
    img.AtLeastOnePixel();
    img.RowInside(y, flip);
    ghost var row, prior := img.RowOf(y, flip), img.PriorOf(y, flip);
    ghost var goal := Filtered(filterType, row, prior, img.n);
    var z := img.RowStart(y, flip);
    if KindOf(y, filterType) == 0 {
      forall i | 0 <= i < img.Line()
        ensures 0 <= z + i < |img.pixels| && goal[i] == img.pixels[z + i]
      {
        img.Pixel(y, flip, i);
        FilteredAt(filterType, row, prior, img.n, i);
        NothingPredicted(y, filterType, Left(row, i, img.n), prior[i], Left(prior, i, img.n));
      }
      forall i | 0 <= i < img.Line() {
        lineBuffer[i] := img.pixels[z + i];
      }
      return;
    }
    for i := 0 to img.n
      invariant forall k | 0 <= k < i :: lineBuffer[k] == goal[k]
    {
      FilteredAt(filterType, row, prior, img.n, i);
      var d := FirstPixelByte(img, y, filterType, flip, i);
      lineBuffer[i] := d % 256;
    }
    for i := img.n to img.Line()
      invariant forall k | 0 <= k < i :: lineBuffer[k] == goal[k]
    {
      FilteredAt(filterType, row, prior, img.n, i);
      var d := LaterByte(img, y, filterType, flip, i);
      lineBuffer[i] := d % 256;
    }
  }

  lemma NothingPredicted(y: nat, filterType: nat, a: byte, b: byte, c: byte)
    requires filterType < 5 && KindOf(y, filterType) == 0 && (y == 0 ==> b == 0)
    ensures Predict(filterType, a, b, c) == 0
  {
  }

  // ---- The rows of an image ----

  /** The sum of the absolute values of the first k bytes, read as signed. */
  function Estimate(line: bytes, k: nat): nat
    requires k <= |line|
  {
    if k == 0 then 0 else Estimate(line, k - 1) + if line[k - 1] < 128 then line[k - 1] else 256 - line[k - 1]
  }

  const INT_MAX := 0x7fffffff

  /** The estimate for a filter, as far as the comparison with the initial best value can tell. */
  function Cost(filter: nat, row: bytes, prior: bytes, n: nat): nat
    requires filter < 5 && |prior| == |row| && n > 0
  {
    var e := Estimate(Filtered(filter, row, prior, n), |row|);
    if e < INT_MAX then e else INT_MAX
  }

  /** The first filter with the least estimate. */
  ghost predicate Best(filter: nat, row: bytes, prior: bytes, n: nat)
    requires |prior| == |row| && n > 0
  {
    && filter < 5
    && (forall t | 0 <= t < 5 :: Cost(filter, row, prior, n) <= Cost(t, row, prior, n))
    && (forall t | 0 <= t < filter :: Cost(filter, row, prior, n) < Cost(t, row, prior, n))
  }

  /** Try the five filters and keep the first with the smallest estimate. */
  method BestFilter(img: Image, j: nat, flip: bool, lineBuffer: array<byte>) returns (filterType: nat)
    requires img.Valid() && j < img.height && lineBuffer.Length == img.Line()
    modifies lineBuffer
    ensures Best(filterType, img.RowOf(j, flip), img.PriorOf(j, flip), img.n)
    ensures lineBuffer[..] == Filtered(filterType, img.RowOf(j, flip), img.PriorOf(j, flip), img.n)
  {
    hide Image.Valid, Image.RowOf, Image.PriorOf, Filtered;
    ghost var row, prior := img.RowOf(j, flip), img.PriorOf(j, flip);
    img.AtLeastOnePixel();
    var bestFilter, bestVal: nat := 0, INT_MAX;
    filterType := 0;
    while filterType < 5
      invariant filterType <= 5 && bestFilter < 5 && bestFilter <= filterType
      invariant bestVal == if bestFilter < filterType then Cost(bestFilter, row, prior, img.n) else INT_MAX
      invariant forall t | 0 <= t < filterType :: bestVal <= Cost(t, row, prior, img.n)
      invariant forall t | 0 <= t < bestFilter :: bestVal < Cost(t, row, prior, img.n)
    {
      EncodeLine(img, j, filterType, flip, lineBuffer);
      var est: nat := 0;
      for i := 0 to img.Line()
        invariant est == Estimate(lineBuffer[..], i)
      {
        est := est + if lineBuffer[i] < 128 then lineBuffer[i] else 256 - lineBuffer[i];
      }
      if est < bestVal {
        bestVal := est;
        bestFilter := filterType;
      }
      filterType := filterType + 1;
    }
    if filterType != bestFilter {
      EncodeLine(img, j, bestFilter, flip, lineBuffer);
      filterType := bestFilter;
    }
  }

  lemma RowFits(w: nat, j: nat, rows: nat)
    requires j < rows
    ensures w * j + w == w * (j + 1) <= w * rows
  {
  }

  /** The filter of a row: the forced one, or the best. */
  ghost predicate Picked(img: Image, flip: bool, forceFilter: int, j: nat, filter: nat)
    requires img.Valid() && j < img.height
  {
    filter < 5 && if forceFilter > -1 then filter == forceFilter else Best(filter, img.RowOf(j, flip), img.PriorOf(j, flip), img.n)
  }

  ghost predicate AllPicked(img: Image, flip: bool, forceFilter: int, filters: seq<nat>)
    requires img.Valid()
  {
    |filters| <= img.height && forall j | 0 <= j < |filters| :: Picked(img, flip, forceFilter, j, filters[j])
  }

  /** The first rows, each behind its filter byte and filtered. */
  ghost function Lines(img: Image, flip: bool, filters: seq<nat>): bytes
    requires img.Valid() && |filters| <= img.height && forall j | 0 <= j < |filters| :: filters[j] < 5
  {
    if filters == [] then []
    else
      var j := |filters| - 1;
      Lines(img, flip, filters[..j]) + [filters[j]] + Filtered(filters[j], img.RowOf(j, flip), img.PriorOf(j, flip), img.n)
  }

  /** Whichever filters are chosen, unfiltering gives back every row. */
  lemma {:induction false} LinesRebuilt(img: Image, flip: bool, filters: seq<nat>)
    requires img.Valid() && |filters| <= img.height && forall j | 0 <= j < |filters| :: filters[j] < 5
    ensures Reconstruct(Lines(img, flip, filters), img.Line(), img.n, Zeros(img.Line())) == Some(img.Rows(flip, |filters|))
  {
    hide Image.RowOf, Image.PriorOf, Filtered, Unfiltered, Reconstruct, Image.Rows;
    if filters == [] {
      NoRows(img, flip);
    } else {
      var j := |filters| - 1;
      LinesRebuilt(img, flip, filters[..j]);
      RowRebuilt(Lines(img, flip, filters[..j]), img, flip, j, filters[j]);
    }
  }

  /** The loop over the rows. */
  method FilterImage(img: Image, flip: bool, forceFilter: int) returns (filt: array<byte>, ghost filters: seq<nat>)
    requires img.Valid() && forceFilter < 5
    ensures fresh(filt) && filt.Length == img.height * (img.Line() + 1)
    ensures |filters| == img.height && AllPicked(img, flip, forceFilter, filters) && filt[..] == Lines(img, flip, filters)
  {
    hide Image.Valid, Lines, Picked;
    var w := img.Line() + 1;
    filt := new byte[img.height * w];
    var lineBuffer := new byte[img.Line()];
    filters := [];
    NoLines(img, flip);
    assert filt[..0] == [];
    for j := 0 to img.height
      invariant j * w <= filt.Length && |filters| == j
      invariant AllPicked(img, flip, forceFilter, filters) && (forall i | 0 <= i < j :: filters[i] < 5)
      invariant filt[..j * w] == Lines(img, flip, filters)
    {
      RowFits(w, j, img.height);
      ghost var filter := OneRow(img, flip, forceFilter, j, filt, j * w, lineBuffer, filters);
      filters := filters + [filter];
    }
    assert filt[..img.height * w] == filt[..];
  }

  lemma NoLines(img: Image, flip: bool)
    requires img.Valid()
    ensures Lines(img, flip, []) == []
  {
  }

  lemma LinesMore(img: Image, flip: bool, filters: seq<nat>, filter: nat)
    requires img.Valid() && |filters| < img.height && filter < 5 && forall j | 0 <= j < |filters| :: filters[j] < 5
    ensures var j := |filters|;
      Lines(img, flip, filters + [filter])
      == Lines(img, flip, filters) + [filter] + Filtered(filter, img.RowOf(j, flip), img.PriorOf(j, flip), img.n)
  {
    assert (filters + [filter])[..|filters|] == filters;
  }

  method OneRow(img: Image, flip: bool, forceFilter: int, j: nat, filt: array<byte>, at: nat, lineBuffer: array<byte>,
                ghost filters: seq<nat>) returns (ghost filter: nat)
    requires img.Valid() && forceFilter < 5 && j < img.height && |filters| == j && forall i | 0 <= i < j :: filters[i] < 5
    requires lineBuffer != filt && lineBuffer.Length == img.Line() && at + img.Line() + 1 <= filt.Length
    requires filt[..at] == Lines(img, flip, filters)
    modifies filt, lineBuffer
    ensures Picked(img, flip, forceFilter, j, filter)
    ensures filter < 5 && filt[..at + img.Line() + 1] == Lines(img, flip, filters + [filter])
  {
    hide Image.Valid, Image.RowOf, Image.PriorOf, Filtered, Best, Lines;
    var filterType: nat;
    if forceFilter > -1 {
      filterType := forceFilter;
      EncodeLine(img, j, forceFilter, flip, lineBuffer);
    } else {
      filterType := BestFilter(img, j, flip, lineBuffer);
    }
    BestIsFilter(img, j, flip, filterType);
    LinesMore(img, flip, filters, filterType);
    PutLine(filt, at, filterType, lineBuffer);
    filter := filterType;
  }

  lemma BestIsFilter(img: Image, j: nat, flip: bool, filter: nat)
    requires img.Valid() && j < img.height
    ensures Best(filter, img.RowOf(j, flip), img.PriorOf(j, flip), img.n) ==> filter < 5
  {
  }

  method PutLine(filt: array<byte>, at: nat, filterType: byte, line: array<byte>)
    requires at + 1 + line.Length <= filt.Length && filt != line
    modifies filt
    ensures filt[..at + 1 + line.Length] == old(filt[..at]) + [filterType] + line[..]
  {
    filt[at] := filterType;
    forall i | 0 <= i < line.Length {
      filt[at + 1 + i] := line[i];
    }
  }

  lemma NoRows(img: Image, flip: bool)
    requires img.Valid()
    ensures img.n > 0 && Reconstruct([], img.Line(), img.n, Zeros(img.Line())) == Some(img.Rows(flip, 0))
  {
  }

  lemma {:induction false} RowRebuilt(done: bytes, img: Image, flip: bool, j: nat, filter: nat)
    requires img.Valid() && j < img.height && filter < 5
    requires Reconstruct(done, img.Line(), img.n, Zeros(img.Line())) == Some(img.Rows(flip, j))
    ensures var line := Filtered(filter, img.RowOf(j, flip), img.PriorOf(j, flip), img.n);
      Reconstruct(done + [filter] + line, img.Line(), img.n, Zeros(img.Line())) == Some(img.Rows(flip, j + 1))
  {
    hide Image.RowOf, Image.Line, Reconstruct, Unfiltered;
    var row, prior, w := img.RowOf(j, flip), img.PriorOf(j, flip), img.Line();
    var line := Filtered(filter, row, prior, img.n);
    hide Filtered;
    var rows := img.Rows(flip, j);
    ReconstructAppend(done, w, img.n, Zeros(w), rows, filter, line);
    UnfilterInverts(filter, row, prior, img.n, w);
    assert row[..w] == row;
    assert img.Rows(flip, j + 1) == rows + [row];
  }

  /** Inflate, then unfilter. */
  function DecodePixels(z: bytes, width: nat, n: nat): Option<seq<bytes>>
    requires n > 0
  {
    match Inflate.Decode(z)
    case None => None
    case Some(filt) => Reconstruct(filt, width, n, Zeros(width))
  }

  function PngImage(pixels: bytes, base: int, strideBytes: int, x: nat, y: nat, n: nat): Image {
    Image(pixels, base, if strideBytes == 0 then x * n else strideBytes, x, y, n)
  }

  lemma NotEmpty(y: nat, w: nat)
    requires y > 0
    ensures y * (w + 1) > 0
  {
  }

  /** The pixel data of stbi_write_png_to_mem, where a stride of 0 means rows without gaps and a filter of 5 and more
      means the best of each row: it inflates to the filtered rows, compressed for
      the level, and unfiltering gives back the rows. */
  method PixelData(pixels: bytes, base: int, strideBytes: int, x: nat, y: nat, n: nat, flip: bool, force: int, level: int)
    returns (z: bytes, ghost filters: seq<nat>, ghost p: Parses.Parse)
    requires y > 0 && PngImage(pixels, base, strideBytes, x, y, n).Valid()
    ensures var img := PngImage(pixels, base, strideBytes, x, y, n);
      && |filters| == y && AllPicked(img, flip, if force >= 5 then -1 else force, filters)
      && Inflate.Decode(z) == Some(Lines(img, flip, filters))
      && Parses.IsParse(Lines(img, flip, filters), Deflate.Clamped(level), p, |Lines(img, flip, filters)|)
      && |z| >= 6 && Zlib.Holds(Lines(img, flip, filters), p, z[2..|z| - 4])
      && DecodePixels(z, x * n, n) == Some(img.Rows(flip, y))
  {
    var img := PngImage(pixels, base, strideBytes, x, y, n);
    hide Image.Valid, Reconstruct, Image.Rows, Inflate.Decode, Lines, Picked, Parses.IsParse, Zlib.Holds;
    var forceFilter := if force >= 5 then -1 else force;
    var filt;
    filt, filters := FilterImage(img, flip, forceFilter);
    assert filt.Length > 0 by { NotEmpty(y, x * n); }
    z, p := Zlib.Compress(filt[..], level);
    FiltersSmall(img, flip, forceFilter, filters);
    LinesRebuilt(img, flip, filters);
  }

  lemma FiltersSmall(img: Image, flip: bool, forceFilter: int, filters: seq<nat>)
    requires img.Valid() && AllPicked(img, flip, forceFilter, filters)
    ensures forall j | 0 <= j < |filters| :: filters[j] < 5
  {
  }
}
