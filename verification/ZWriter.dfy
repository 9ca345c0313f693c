/** The bit writer of stbi_zlib_compress: the macros stbiw__zlib_add and stbiw__zlib_huff. */
module ZWriter {
  import opened Bytes
  import opened Bits
  import opened Inflate
  import opened DeflateBits

  /** The output buffer, and the bits that do not fill a byte yet. */
  datatype Writer = Writer(out: bytes, bitbuf: nat, bitcount: nat)

  /** Bits waiting in `bitbuf` fit below `bitcount`; the two header bytes are out. */
  predicate Pending(w: Writer) {
    w.bitbuf < Pow2(w.bitcount) && |w.out| >= 2
  }

  predicate Valid(w: Writer) {
    Pending(w) && w.bitcount < 8
  }

  /** Everything written behind the header, as a bit stream. */
  function Written(w: Writer): bits
    requires |w.out| >= 2
  {
    Stream(w.out[2..]) + Lsb(w.bitbuf, w.bitcount)
  }

  lemma {:induction false} Pow2Monotone(a: nat, b: nat)
    requires a <= b
    ensures Pow2(a) <= Pow2(b)
    decreases b
  {
    if a < b {
      Pow2Monotone(a, b - 1);
    }
  }

  lemma {:induction false} FlushByte(w: Writer)
    requires Pending(w) && w.bitcount >= 8
    ensures Pending(Writer(w.out + [w.bitbuf % 256], Shr(w.bitbuf, 8), w.bitcount - 8))
    ensures Written(Writer(w.out + [w.bitbuf % 256], Shr(w.bitbuf, 8), w.bitcount - 8)) == Written(w)
  {
    hide Lsb, Stream;
    PowersUpTo9();
    var low, high := w.bitbuf % 256, w.bitbuf / 256;
    LsbSplit(w.bitbuf, 8, w.bitcount - 8);
    LsbLow(w.bitbuf, 8);
    Pow2Add(8, w.bitcount - 8);
    assert (w.out + [low])[2..] == w.out[2..] + [low];
    StreamAppend(w.out[2..], [low]);
    StreamOne(low);
    assert (Stream(w.out[2..]) + Lsb(low, 8)) + Lsb(high, w.bitcount - 8)
        == Stream(w.out[2..]) + (Lsb(low, 8) + Lsb(high, w.bitcount - 8));
  }

  method Flush(w0: Writer) returns (w: Writer)
    requires Pending(w0)
    ensures Valid(w) && Written(w) == Written(w0)
    ensures w0.out <= w.out && |w.out| == |w0.out| + w0.bitcount / 8 && w.bitcount == w0.bitcount % 8
  {
    hide Written;
    w := w0;
    while w.bitcount >= 8
      invariant Pending(w) && Written(w) == Written(w0)
      invariant w0.out <= w.out && 8 * |w.out| + w.bitcount == 8 * |w0.out| + w0.bitcount
    {
      FlushByte(w);
      w := Writer(w.out + [w.bitbuf % 256], Shr(w.bitbuf, 8), w.bitcount - 8);
    }
  }

  lemma {:induction false} AddBits(w: Writer, code: nat, n: nat)
    requires Valid(w) && code < Pow2(n) && n <= 13
    ensures Or(w.bitbuf, Shl(code, w.bitcount)) == w.bitbuf + Shl(code, w.bitcount) < U32_MOD
    ensures Pending(Writer(w.out, w.bitbuf + Shl(code, w.bitcount), w.bitcount + n))
    ensures Written(Writer(w.out, w.bitbuf + Shl(code, w.bitcount), w.bitcount + n)) == Written(w) + Lsb(code, n)
  {
    hide Stream, Lsb, Or, Shl, Pow2;
    OrAppends(w.bitbuf, code, w.bitcount);
    LsbOfSum(w.bitbuf, code, w.bitcount, n);
    SumFits(w.bitbuf, code, w.bitcount, n);
    Pow2Monotone(w.bitcount + n, 20);
    PowersUpTo9();
    Pow2Add(9, 9);
    Pow2Add(18, 2);
    assert (Stream(w.out[2..]) + Lsb(w.bitbuf, w.bitcount)) + Lsb(code, n)
        == Stream(w.out[2..]) + (Lsb(w.bitbuf, w.bitcount) + Lsb(code, n));
  }

  lemma {:induction false} SumFits(a: nat, c: nat, k: nat, n: nat)
    requires a < Pow2(k) && c < Pow2(n)
    ensures a + Shl(c, k) < Pow2(k + n)
  {
    Pow2Add(k, n);
    BlockBound(a, c, Pow2(k), Pow2(n));
  }

  lemma {:induction false} BlockBound(a: nat, c: nat, p: nat, q: nat)
    requires a < p && c < q
    ensures a + c * p < p * q
  {
    var d := q - 1 - c;
    assert d * p >= 0;
    assert p * q == c * p + d * p + p;
  }

  /** stbiw__zlib_add: append the low `n` bits of a code, and flush whole bytes. */
  method Add(w0: Writer, code: nat, n: nat) returns (w: Writer)
    requires Valid(w0) && code < Pow2(n) && n <= 13
    ensures Valid(w) && Written(w) == Written(w0) + Lsb(code, n)
    ensures w0.out <= w.out && w.bitcount == (w0.bitcount + n) % 8
  {
    hide Written, Lsb;
    AddBits(w0, code, n);
    w := Writer(w0.out, U32(Or(w0.bitbuf, Shl(code, w0.bitcount))), w0.bitcount + n);
    w := Flush(w);
  }

  lemma {:induction false} MsbFront(c: nat, k: nat)
    ensures Msb(c, k + 1) == [(c / Pow2(k)) % 2] + Msb(c, k)
  {
    if k > 0 {
      MsbFront(c / 2, k - 1);
      HalfThen(c, k - 1);
    }
  }

  /** stbiw__zlib_bitrev: the code so that writing it least significant bit first emits its most significant first. */
  method BitRev(code: nat, codebits: nat) returns (res: nat)
    ensures res < Pow2(codebits) && Lsb(res, codebits) == Msb(code, codebits)
  {
    res := 0;
    var c := code;
    for k := 0 to codebits
      invariant c == Shr(code, k) && res < Pow2(k) && Lsb(res, k) == Msb(code, k)
    {
      MsbFront(code, k);
      MaskIsMod(c, 1);
      OrAppends(And(c, 1), res, 1);
      ShrMore(code, k);
      assert Pow2(1) == 2 && Shl(res, 1) == 2 * res && Pow2(k + 1) == 2 * Pow2(k);
      ghost var oldRes := res;
      res := Or(And(c, 1), Shl(res, 1));
      assert res % 2 == c % 2 && res / 2 == oldRes;
      c := Shr(c, 1);
    }
  }

  lemma {:induction false} ShrMore(c: nat, k: nat)
    ensures Shr(Shr(c, k), 1) == Shr(c, k + 1)
  {
    var p := Pow2(k);
    var q := c / p;
    assert c == p * q + c % p;
    assert p * q == (2 * p) * (q / 2) + p * (q % 2) by {
      assert q == 2 * (q / 2) + q % 2;
      assert p * (2 * (q / 2) + q % 2) == (2 * p) * (q / 2) + p * (q % 2);
    }
    assert p * (q % 2) <= p;
    DivUnique(c, 2 * p, q / 2, p * (q % 2) + c % p);
  }

  /** stbiw__zlib_huffa */
  method HuffA(w0: Writer, code: nat, n: nat) returns (w: Writer)
    requires Valid(w0) && n <= 9
    ensures Valid(w) && Written(w) == Written(w0) + Msb(code, n) && w0.out <= w.out
  {
    hide Written, Lsb, Msb;
    var r := BitRev(code, n);
    w := Add(w0, r, n);
  }

  /** stbiw__zlib_huff */
  method Huff(w0: Writer, n: nat) returns (w: Writer)
    requires Valid(w0) && n < 288
    ensures Valid(w) && Written(w) == Written(w0) + SymbolBits(n) && w0.out <= w.out
  {
    hide Written, Msb, Valid;
    if n <= 143 {
      w := HuffA(w0, 0x30 + n, 8);
    } else if n <= 255 {
      w := HuffA(w0, 0x190 + n - 144, 9);
    } else if n <= 279 {
      w := HuffA(w0, 0 + n - 256, 7);
    } else {
      w := HuffA(w0, 0xc0 + n - 280, 8);
    }
  }

  /** stbiw__zlib_huffb: the same, for a byte. */
  method HuffB(w0: Writer, n: byte) returns (w: Writer)
    requires Valid(w0)
    ensures Valid(w) && Written(w) == Written(w0) + SymbolBits(n) && w0.out <= w.out
  {
    hide Written, Msb, Valid;
    if n <= 143 {
      w := HuffA(w0, 0x30 + n, 8);
    } else {
      w := HuffA(w0, 0x190 + n - 144, 9);
    }
  }

  /** Zero bits up to a byte boundary. */
  method Pad(w0: Writer) returns (w: Writer)
    requires Valid(w0)
    ensures Valid(w) && w.bitcount == 0 && w0.out <= w.out
    ensures exists k: nat :: k < 8 && Written(w) == Written(w0) + Lsb(0, k)
  {
    hide Written, Lsb;
    w := w0;
    ghost var k: nat := 0;
    assert Written(w) == Written(w0) + Lsb(0, 0) by { ZeroBits(0); }
    while w.bitcount != 0
      invariant Valid(w) && w0.out <= w.out && Written(w) == Written(w0) + Lsb(0, k)
      invariant if w.bitcount == 0 then k == (8 - w0.bitcount) % 8 else w.bitcount == w0.bitcount + k
      decreases (8 - w.bitcount) % 8
    {
      w := Add(w, 0, 1);
      ZeroBits(k);
      assert (Written(w0) + Lsb(0, k)) + Lsb(0, 1) == Written(w0) + (Lsb(0, k) + Lsb(0, 1));
      k := k + 1;
    }
  }

  lemma {:induction false} ZeroBits(k: nat)
    ensures Lsb(0, 0) == [] && Lsb(0, k) + Lsb(0, 1) == Lsb(0, k + 1)
  {
    LsbSplit(0, k, 1);
  }
}
