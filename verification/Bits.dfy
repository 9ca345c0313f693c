/** Bitwise operators of C on non-negative integers, and what they compute on the operands the code uses. */
module Bits {

  function Pow2(k: nat): (p: nat)
    ensures p >= 1
  {
    if k == 0 then 1 else 2 * Pow2(k - 1)
  }

  function And(a: nat, b: nat): (r: nat)
    ensures r <= a && r <= b
    decreases a + b
  {
    if a == 0 || b == 0 then 0 else (a % 2) * (b % 2) + 2 * And(a / 2, b / 2)
  }

  function Or(a: nat, b: nat): nat
    decreases a + b
  {
    if a == 0 then b
    else if b == 0 then a
    else (if a % 2 == 1 || b % 2 == 1 then 1 else 0) + 2 * Or(a / 2, b / 2)
  }

  /** `a << k` */
  function Shl(a: nat, k: nat): nat { a * Pow2(k) }

  /** `a >> k` */
  function Shr(a: nat, k: nat): nat {
    var p := Pow2(k);
    hide Pow2;
    a / p
  }

  lemma {:induction false} Pow2Add(a: nat, b: nat)
    ensures Pow2(a + b) == Pow2(a) * Pow2(b)
  {
    if a == 0 {
    } else {
      Pow2Add(a - 1, b);
      assert 2 * (Pow2(a - 1) * Pow2(b)) == (2 * Pow2(a - 1)) * Pow2(b);
    }
  }

  /** Masking with one less than a power of two is the remainder. */
  lemma {:induction false} MaskIsMod(a: nat, k: nat)
    ensures And(a, Pow2(k) - 1) == a % Pow2(k)
    decreases k
  {
    var p := Pow2(k);
    if k == 0 {
      assert p == 1;
    } else {
      var h := Pow2(k - 1);
      assert (p - 1) % 2 == 1 && (p - 1) / 2 == h - 1;
      MaskIsMod(a / 2, k - 1);
      ModHalf(a, h);
    }
  }

  lemma {:induction false} ModHalf(a: nat, h: nat)
    requires h > 0
    ensures a % (2 * h) == a % 2 + 2 * ((a / 2) % h)
  {
    var q, r := (a / 2) / h, (a / 2) % h;
    assert a == 2 * (q * h + r) + a % 2;
    assert a == (2 * h) * q + (2 * r + a % 2) by {
      assert 2 * (q * h) == (2 * h) * q;
    }
    DivUnique(a, 2 * h, q, 2 * r + a % 2);
  }

  lemma MulAtLeast(d: int, e: int)
    requires d > 0 && e >= 1
    ensures d * e >= d
  {
  }

  lemma {:induction false} DivUnique(a: int, d: int, q: int, r: int)
    requires d > 0 && 0 <= r < d && a == d * q + r
    ensures a / d == q && a % d == r
  {
    var q', r' := a / d, a % d;
    var e := q' - q;
    assert d * q' == d * q + d * e && d * (-e) == -(d * e);
    if e >= 1 {
      MulAtLeast(d, e);
    } else if e <= -1 {
      MulAtLeast(d, -e);
    }
  }

  /** `a |= c << k` appends the bits of `c` above the k bits of `a`. */
  lemma {:induction false} OrAppends(a: nat, c: nat, k: nat)
    requires a < Pow2(k)
    ensures Or(a, Shl(c, k)) == a + Shl(c, k)
    decreases k
  {
    if k > 0 && a > 0 && c > 0 {
      var s, h := Shl(c, k), Shl(c, k - 1);
      assert s == 2 * h by { assert c * (2 * Pow2(k - 1)) == 2 * (c * Pow2(k - 1)); }
      assert h > 0 by { assert c * Pow2(k - 1) >= 1 * 1; }
      assert s % 2 == 0 && s / 2 == h;
      OrAppends(a / 2, c, k - 1);
      if a / 2 == 0 {
        assert Or(a / 2, h) == h;
      }
    } else if c == 0 {
      assert Shl(c, k) == 0;
    }
  }

  /** h_init's test for a power of two: n & (n - 1) == 0. */
  lemma {:induction false} PowerOfTwoTest(n: nat)
    requires n > 0
    ensures And(n - 1, n) == 0 <==> exists k: nat :: n == Pow2(k)
  {
    if n == 1 {
      assert n == Pow2(0);
    } else if n % 2 == 1 {
      assert And(n - 1, n) == 2 * And((n - 1) / 2, n / 2);
      assert (n - 1) / 2 == n / 2 > 0;
      AndSelf(n / 2);
      forall k: nat
        ensures n != Pow2(k)
      {
      }
    } else {
      var h := n / 2;
      PowerOfTwoTest(h);
      assert n == 2 * h && (n - 1) % 2 == 1 && (n - 1) / 2 == h - 1;
      assert And(n - 1, n) == 2 * And(h - 1, h);
      HalfPower(h);
    }
  }

  lemma {:induction false} HalfPower(h: nat)
    requires h > 0
    ensures (exists k: nat :: 2 * h == Pow2(k)) <==> (exists k: nat :: h == Pow2(k))
  {
    if exists k: nat :: 2 * h == Pow2(k) {
      var k: nat :| 2 * h == Pow2(k);
      assert k > 0 && Pow2(k) == 2 * Pow2(k - 1);
      assert h == Pow2(k - 1);
    }
    if exists k: nat :: h == Pow2(k) {
      var k: nat :| h == Pow2(k);
      assert Pow2(k + 1) == 2 * Pow2(k);
      assert 2 * h == Pow2(k + 1);
    }
  }

  lemma {:induction false} AndSelf(a: nat)
    ensures And(a, a) == a
  {
    if a > 0 {
      AndSelf(a / 2);
    }
  }
}
