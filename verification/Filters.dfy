/** Section 6 of RFC 2083: the line filters of PNG, and their inverses. */
module Filters {
  import opened Bytes
  import opened Options

  function Abs(x: int): nat { if x < 0 then -x else x }

  /** Section 6.6 */
  function PaethPredictor(a: int, b: int, c: int): int {
    var p := a + b - c;
    if Abs(p - a) <= Abs(p - b) && Abs(p - a) <= Abs(p - c) then a
    else if Abs(p - b) <= Abs(p - c) then b
    else c
  }

  /** The prediction from the left, upper and upper left byte. */
  function Predict(filter: nat, a: byte, b: byte, c: byte): int {
    match filter
    case 1 => a
    case 2 => b
    case 3 => (a as int + b) / 2
    case 4 => PaethPredictor(a, b, c)
    case _ => 0
  }

  /** The byte `n` to the left, zero before the line. */
  function Left(line: bytes, i: nat, n: nat): byte
    requires i <= |line| && n > 0
  {
    if i < n then 0 else line[i - n]
  }

  function Filtered(filter: nat, row: bytes, prior: bytes, n: nat): (f: bytes)
    requires |prior| == |row| && n > 0
    ensures |f| == |row|
  {
    seq(|row|, i requires 0 <= i < |row| =>
      (row[i] - Predict(filter, Left(row, i, n), prior[i], Left(prior, i, n))) % 256)
  }

  lemma FilteredAt(filter: nat, row: bytes, prior: bytes, n: nat, i: nat)
    requires |prior| == |row| && n > 0 && i < |row|
    ensures Filtered(filter, row, prior, n)[i] == (row[i] - Predict(filter, Left(row, i, n), prior[i], Left(prior, i, n))) % 256
  {
  }

  /** Rebuild the first k bytes of a line. */
  function Unfiltered(filter: nat, f: bytes, prior: bytes, n: nat, k: nat): (row: bytes)
    requires |prior| == |f| && n > 0 && k <= |f|
    ensures |row| == k
  {
    if k == 0 then []
    else
      var row := Unfiltered(filter, f, prior, n, k - 1);
      row + [(f[k - 1] + Predict(filter, Left(row, k - 1, n), prior[k - 1], Left(prior, k - 1, n))) % 256]
  }

  lemma SubThenAdd(x: byte, p: int)
    ensures ((x - p) % 256 + p) % 256 == x
  {
  }

  lemma {:induction false} UnfilterInverts(filter: nat, row: bytes, prior: bytes, n: nat, k: nat)
    requires |prior| == |row| && n > 0 && k <= |row|
    ensures Unfiltered(filter, Filtered(filter, row, prior, n), prior, n, k) == row[..k]
  {
    if k > 0 {
      UnfilterInverts(filter, row, prior, n, k - 1);
      SubThenAdd(row[k - 1], Predict(filter, Left(row, k - 1, n), prior[k - 1], Left(prior, k - 1, n)));
      assert row[..k] == row[..k - 1] + [row[k - 1]];
    }
  }

  function Zeros(n: nat): (z: bytes)
    ensures |z| == n
  {
    seq(n, _ => 0)
  }

  /** The rows of an image from its filtered lines, each behind its filter byte. */
  function Reconstruct(filt: bytes, width: nat, n: nat, prior: bytes): (rows: Option<seq<bytes>>)
    requires |prior| == width && n > 0
    decreases |filt|
  {
    if filt == [] then Some([])
    else if |filt| < width + 1 || filt[0] > 4 then None
    else
      var row := Unfiltered(filt[0], filt[1..width + 1], prior, n, width);
      match Reconstruct(filt[width + 1..], width, n, row)
      case None => None
      case Some(rows) => Some([row] + rows)
  }

  lemma LineBehindByte(filter: byte, line: bytes, rest: bytes)
    ensures var b := [filter] + line + rest;
      b[0] == filter && b[1..|line| + 1] == line && b[|line| + 1..] == rest
  {
  }

  /** One more line at the end of an image. */
  lemma {:induction false} ReconstructAppend(filt: bytes, width: nat, n: nat, prior: bytes, rows: seq<bytes>, filter: nat, line: bytes)
    requires |prior| == width && n > 0 && filter <= 4 && |line| == width
    requires Reconstruct(filt, width, n, prior) == Some(rows)
    requires forall i | 0 <= i < |rows| :: |rows[i]| == width
    ensures var last := if rows == [] then prior else rows[|rows| - 1];
      Reconstruct(filt + [filter] + line, width, n, prior) == Some(rows + [Unfiltered(filter, line, last, n, width)])
    decreases |filt|
  {
    var all := filt + [filter] + line;
    if filt == [] {
      assert all == [filter] + line;
      LineBehindByte(filter, line, []);
      assert all == [filter] + line + [];
      var u := Unfiltered(filter, line, prior, n, width);
      assert Reconstruct([], width, n, u) == Some([]);
      assert rows == [] && [u] + [] == [u];
      assert [] + [u] == [u];
      assert filt + [filter] + line == all;
    } else {
      var row := Unfiltered(filt[0], filt[1..width + 1], prior, n, width);
      var rest := filt[width + 1..];
      assert filt == [filt[0]] + filt[1..width + 1] + rest;
      assert all == [filt[0]] + filt[1..width + 1] + (rest + [filter] + line);
      LineBehindByte(filt[0], filt[1..width + 1], rest + [filter] + line);
      var more := rows[1..];
      assert rows == [row] + more;
      ReconstructAppend(rest, width, n, row, more, filter, line);
      var last := if more == [] then row else more[|more| - 1];
      assert last == rows[|rows| - 1];
      var u := Unfiltered(filter, line, last, n, width);
      assert [row] + (more + [u]) == rows + [u];
    }
  }
}
