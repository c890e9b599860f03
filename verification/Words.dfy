/** Unsigned machine words as numbers: exclusive or, and products that wrap. */
module Words {

  const W32: nat := 0x1_0000_0000
  const W64: nat := 0x1_0000_0000_0000_0000

  function Pow2(w: nat): (p: nat)
    ensures p > 0
  {
    if w == 0 then 1 else 2 * Pow2(w - 1)
  }

  /** Bitwise exclusive or of the low `w` bits. */
  function Xor(w: nat, a: nat, b: nat): (r: nat)
    ensures r < Pow2(w)
  {
    if w == 0 then 0 else (if a % 2 == b % 2 then 0 else 1) + 2 * Xor(w - 1, a / 2, b / 2)
  }

  lemma Pow32()
    ensures Pow2(32) == W32
  {
    assert Pow2(8) == 256;
    assert Pow2(16) == 256 * Pow2(8);
    assert Pow2(24) == 256 * Pow2(16);
  }

  lemma Pow64()
    ensures Pow2(64) == W64
  {
    Pow32();
    assert Pow2(40) == 256 * Pow2(32);
    assert Pow2(48) == 256 * Pow2(40);
    assert Pow2(56) == 256 * Pow2(48);
  }

  function Xor32(a: nat, b: nat): (r: nat)
    ensures r < W32
  {
    Pow32();
    Xor(32, a, b)
  }

  function Xor64(a: nat, b: nat): (r: nat)
    ensures r < W64
  {
    Pow64();
    Xor(64, a, b)
  }

  /** Exclusive or with a fixed word loses nothing. */
  lemma {:induction false} XorInjective(w: nat, a: nat, b: nat, c: nat)
    requires b < Pow2(w) && c < Pow2(w) && Xor(w, a, b) == Xor(w, a, c)
    ensures b == c
  {
    if w > 0 { XorInjective(w - 1, a / 2, b / 2, c / 2); }
  }

  lemma {:induction false} XorCommutes(w: nat, a: nat, b: nat)
    ensures Xor(w, a, b) == Xor(w, b, a)
  {
    if w > 0 { XorCommutes(w - 1, a / 2, b / 2); }
  }

  lemma XorSample()
    ensures Xor(8, 0x5A, 0x3C) == 0x66
  {
    assert Xor(2, 1, 0) == 1;
    assert Xor(4, 5, 3) == 6;
    assert Xor(6, 22, 15) == 25;
  }

  lemma {:induction false} XorNothing(w: nat, a: nat)
    requires a < Pow2(w)
    ensures Xor(w, a, 0) == a
  {
    if w > 0 { XorNothing(w - 1, a / 2); }
  }

  /** Exclusive or moves across an equation. */
  lemma {:induction false} XorSwap(w: nat, a: nat, s: nat, b: nat, t: nat)
    requires Xor(w, a, s) == Xor(w, b, t)
    ensures Xor(w, a, b) == Xor(w, s, t)
  {
    if w > 0 { XorSwap(w - 1, a / 2, s / 2, b / 2, t / 2); }
  }

  lemma {:induction false} XorWider(w: nat, a: nat, b: nat)
    requires a < Pow2(w) && b < Pow2(w)
    ensures Xor(w + 1, a, b) == Xor(w, a, b)
  {
    if w > 0 { XorWider(w - 1, a / 2, b / 2); }
  }

  /** `a` shifted right by `k` bits. */
  function Shr(a: nat, k: nat): (r: nat)
    ensures r <= a
  {
    if k == 0 then a else Shr(a / 2, k - 1)
  }

  lemma HalfProduct(r: nat, q: nat, p: nat)
    requires q == 2 * p
    ensures r * q == 2 * (r * p)
  {
  }

  lemma {:induction false} ShrIs(a: nat, k: nat, r: nat)
    requires r * Pow2(k) <= a < (r + 1) * Pow2(k)
    ensures Shr(a, k) == r
  {
    if k > 0 {
      HalfProduct(r, Pow2(k), Pow2(k - 1));
      HalfProduct(r + 1, Pow2(k), Pow2(k - 1));
      ShrIs(a / 2, k - 1, r);
    }
  }

  lemma {:induction false} XorShr(w: nat, a: nat, b: nat, k: nat)
    requires a < Pow2(w) && b < Pow2(w)
    ensures Xor(w, Shr(a, k), Shr(b, k)) == Shr(Xor(w, a, b), k)
    decreases k
  {
    if k > 0 {
      if w > 0 { XorWider(w - 1, a / 2, b / 2); }
      assert Xor(w, a / 2, b / 2) == Xor(w, a, b) / 2;
      XorShr(w, a / 2, b / 2, k - 1);
    }
  }

  /** Folding the high bits of a word onto its low ones loses nothing. */
  lemma FoldInjective(w: nat, a: nat, b: nat, k: nat)
    requires a < Pow2(w) && b < Pow2(w) && k > 0 && Xor(w, a, Shr(a, k)) == Xor(w, b, Shr(b, k))
    ensures a == b
  {
    hide Xor;
    XorSwap(w, a, Shr(a, k), b, Shr(b, k));
    XorShr(w, a, b, k);
    var d := Xor(w, a, b);
    assert d == Shr(d / 2, k - 1) <= d / 2;
    XorZero(w, a, b);
  }

  /** Multiplying by a number with an inverse modulo 2^32 loses nothing. */
  lemma ProductInjective(m: nat, inverse: nat, excess: nat, a: nat, b: nat)
    requires m * inverse == 1 + excess * W32
    requires a < W32 && b < W32 && a * m % W32 == b * m % W32
    ensures a == b
  {
    ProductUndone(m, inverse, excess, a);
    ProductUndone(m, inverse, excess, b);
  }

  lemma ProductUndone(m: nat, inverse: nat, excess: nat, x: nat)
    requires m * inverse == 1 + excess * W32 && x < W32
    ensures (x * m % W32) * inverse % W32 == x
  {
    var k := x * m / W32;
    var r := x * m % W32;
    assert r == x * m - k * W32;
    calc {
      r * inverse;
      (x * m - k * W32) * inverse;
      x * (m * inverse) - k * inverse * W32;
      x * (1 + excess * W32) - k * inverse * W32;
      x + (x * excess - k * inverse) * W32;
    }
    RemainderIs(r * inverse, x, x * excess - k * inverse);
  }

  lemma RemainderIs(a: int, x: nat, m: int)
    requires a == x + m * W32 && x < W32
    ensures a % W32 == x
  {
  }

  lemma Pow57()
    ensures Pow2(57) == W64 / 128
  {
    Pow64();
    assert Pow2(64) == 128 * Pow2(57);
  }

  lemma Pow8()
    ensures Pow2(8) == 256
  {
  }

  lemma {:induction false} XorUndoes(w: nat, a: nat, b: nat)
    requires a < Pow2(w)
    ensures Xor(w, Xor(w, a, b), b) == a
  {
    if w > 0 {
      XorUndoes(w - 1, a / 2, b / 2);
      var x := Xor(w, a, b);
      assert x / 2 == Xor(w - 1, a / 2, b / 2) && x % 2 == if a % 2 == b % 2 then 0 else 1;
    }
  }

  lemma {:induction false} XorZero(w: nat, a: nat, b: nat)
    requires a < Pow2(w) && b < Pow2(w)
    ensures Xor(w, a, b) == 0 <==> a == b
  {
    if w > 0 { XorZero(w - 1, a / 2, b / 2); }
  }
}
