/** Bytes, fixed-width integers and their little-endian layout in memory (what memcpy moves). */
module Bytes {

  type byte = x: nat | x < 256 witness 0
  type bytes = seq<byte>

  const U32_MOD: nat := 0x1_0000_0000
  const U64_MOD: nat := 0x1_0000_0000_0000_0000

  /** Conversion to uint32_t. */
  function U32(x: nat): (r: nat)
    ensures r < U32_MOD && (x < U32_MOD ==> r == x)
  {
    x % U32_MOD
  }

  /** The n low-order bytes of `v`, least significant first. */
  function Le(v: nat, n: nat): (b: bytes)
    ensures |b| == n
  {
    if n == 0 then [] else [v % 256] + Le(v / 256, n - 1)
  }

  function De(b: bytes): nat {
    if b == [] then 0 else b[0] + 256 * De(b[1..])
  }

  function Pow256(n: nat): (p: nat)
    ensures p > 0
  {
    if n == 0 then 1 else 256 * Pow256(n - 1)
  }

  lemma {:induction false} DeLe(v: nat, n: nat)
    requires v < Pow256(n)
    ensures De(Le(v, n)) == v
  {
    if n > 0 {
      DeLe(v / 256, n - 1);
      assert Le(v, n)[1..] == Le(v / 256, n - 1);
    }
  }

  lemma {:induction false} LeDe(b: bytes)
    ensures De(b) < Pow256(|b|) && Le(De(b), |b|) == b
  {
    if b != [] {
      LeDe(b[1..]);
      assert (b[0] + 256 * De(b[1..])) / 256 == De(b[1..]);
      assert b == [b[0]] + b[1..];
    }
  }

  lemma Pow256Values()
    ensures Pow256(4) == U32_MOD && Pow256(8) == U64_MOD
  {
  }

  function Le32(v: nat): bytes
    requires v < U32_MOD
  {
    Le(v, 4)
  }

  /** The uint32_t stored at `pos`. */
  function De32(b: bytes, pos: nat): (v: nat)
    requires pos + 4 <= |b|
    ensures v < U32_MOD
  {
    LeDe(b[pos..pos + 4]);
    Pow256Values();
    De(b[pos..pos + 4])
  }

  lemma {:induction false} De32Of(v: nat, a: bytes, c: bytes)
    requires v < U32_MOD
    ensures De32(a + Le32(v) + c, |a|) == v
  {
    var b := a + Le32(v) + c;
    assert b[|a|..|a| + 4] == Le32(v);
    Pow256Values();
    DeLe(v, 4);
  }

  lemma {:induction false} Le32Of(b: bytes, pos: nat)
    requires pos + 4 <= |b|
    ensures Le32(De32(b, pos)) == b[pos..pos + 4]
  {
    LeDe(b[pos..pos + 4]);
  }
}
