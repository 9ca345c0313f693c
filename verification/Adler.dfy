/** The Adler-32 loop of stbi_zlib_compress (cuda/chapter3/stb_image_write.h) against section 2.2 of RFC 1950. */
module Adler {
  import opened Bytes

  const BASE := 65521
  const NMAX := 5552

  /** The two sums, modulo BASE after every byte. */
  datatype Sums = Sums(s1: nat, s2: nat)

  function AdlerOf(data: bytes): (s: Sums)
    ensures s.s1 < BASE && s.s2 < BASE
  {
    if data == [] then Sums(1, 0)
    else
      var s := AdlerOf(data[..|data| - 1]);
      var s1 := (s.s1 + data[|data| - 1]) % BASE;
      Sums(s1, (s.s2 + s1) % BASE)
  }

  /** The four bytes of the checksum, most significant first. */
  function Trailer(s: Sums): bytes
    requires s.s1 < BASE && s.s2 < BASE
  {
    [s.s2 / 256, s.s2 % 256, s.s1 / 256, s.s1 % 256]
  }

  /** Bounds of the unreduced sums after k bytes of a block. */
  ghost predicate WithinBlock(s1: nat, s2: nat, k: nat) {
    && s1 <= BASE - 1 + 255 * k
    && s2 <= (BASE - 1) * (k + 1) + 255 * Triangle(k)
  }

  ghost function Triangle(k: nat): nat { if k == 0 then 0 else k + Triangle(k - 1) }

  lemma {:induction false} TriangleMonotone(k: nat, n: nat)
    requires k <= n
    ensures Triangle(k) <= Triangle(n)
    decreases n
  {
    if k < n {
      TriangleMonotone(k, n - 1);
    }
  }

  lemma {:induction false} TriangleFormula(k: nat)
    ensures 2 * Triangle(k) == k * (k + 1)
  {
    if k > 0 {
      TriangleFormula(k - 1);
      assert k * (k + 1) == (k - 1) * k + 2 * k;
    }
  }

  /** Up to NMAX bytes, the sums do not leave 32 bits. */
  lemma {:induction false} NoOverflow(s1: nat, s2: nat, k: nat)
    requires WithinBlock(s1, s2, k) && k <= NMAX
    ensures s1 < U32_MOD && s2 < U32_MOD
  {
    TriangleMonotone(k, NMAX);
    TriangleFormula(NMAX);
  }

  lemma {:induction false} OneByte(s1: nat, s2: nat, b: byte, k: nat)
    requires WithinBlock(s1, s2, k)
    ensures WithinBlock(s1 + b, s2 + s1 + b, k + 1)
  {
  }

  /** Reducing late or at every byte gives the same sums modulo BASE. */
  lemma {:induction false} LateModulo(s1: nat, s2: nat, b: nat)
    ensures ((s1 % BASE) + b) % BASE == (s1 + b) % BASE
    ensures ((s2 % BASE) + (s1 + b) % BASE) % BASE == (s2 + s1 + b) % BASE
  {
  }

  lemma AdlerStep(data: bytes, b: byte)
    ensures AdlerOf(data + [b]) == (var s := AdlerOf(data); Sums((s.s1 + b) % BASE, (s.s2 + (s.s1 + b) % BASE) % BASE))
  {
    assert (data + [b])[..|data|] == data;
  }

  /** One block: at most NMAX bytes, and the two reductions after it. */
  method Block(data: bytes, j: nat, blocklen: nat, a1: nat, a2: nat) returns (s1: nat, s2: nat)
    requires j + blocklen <= |data| && blocklen <= NMAX
    requires Sums(a1, a2) == AdlerOf(data[..j])
    ensures Sums(s1, s2) == AdlerOf(data[..j + blocklen])
  {
    s1, s2 := a1, a2;
    for i := 0 to blocklen
      invariant WithinBlock(s1, s2, i)
      invariant Sums(s1 % BASE, s2 % BASE) == AdlerOf(data[..j + i])
    {
      hide WithinBlock, AdlerOf;
      var b := data[j + i];
      AdlerStep(data[..j + i], b);
      assert data[..j + i] + [b] == data[..j + i + 1];
      OneByte(s1, s2, b, i);
      NoOverflow(s1 + b, s2 + s1 + b, i + 1);
      LateModulo(s1, s2, b);
      s1 := U32(s1 + b);
      s2 := U32(s2 + s1);
    }
    s1, s2 := s1 % BASE, s2 % BASE;
  }

  /** The blocks of the source: a short one of |data| % NMAX bytes first, then NMAX bytes each. */
  method Checksum(data: bytes) returns (s1: nat, s2: nat)
    ensures Sums(s1, s2) == AdlerOf(data)
  {
    s1, s2 := 1, 0;
    var blocklen := |data| % NMAX;
    ghost var blocks := |data| / NMAX;
    var j: nat := 0;
    while j < |data|
      invariant j <= |data| && Sums(s1, s2) == AdlerOf(data[..j])
      invariant if blocklen == NMAX then |data| - j == blocks * NMAX else j == 0 && |data| == blocks * NMAX + blocklen && blocklen < NMAX
      decreases blocks, NMAX - blocklen
    {
      assert j + blocklen <= |data|;
      s1, s2 := Block(data, j, blocklen, s1, s2);
      j := j + blocklen;
      blocks := if blocklen == NMAX then blocks - 1 else blocks;
      blocklen := NMAX;
    }
    assert data[..j] == data;
  }
}
