/** Division with the quotient in hand, and powers of two.  The verifier is slow to find a
    quotient itself, so proofs about flag bits, alignment and shifts go through these facts. */
module DivMod {

  lemma {:induction false} DivMod8(n: int, q: int, r: int)
    requires n == 8 * q + r && 0 <= r < 8
    ensures n % 8 == r && n / 8 == q
  {
  }

  lemma {:induction false} DivMod4(n: int, q: int, r: int)
    requires n == 4 * q + r && 0 <= r < 4
    ensures n % 4 == r && n / 4 == q
  {
  }

  lemma {:induction false} DivMod2(n: int, q: int, r: int)
    requires n == 2 * q + r && 0 <= r < 2
    ensures n % 2 == r && n / 2 == q
  {
  }

  lemma {:induction false} AlignedBy4(n: int)
    requires n % 8 == 0 || n % 8 == 4
    ensures n % 4 == 0 && (n + 4) % 4 == 0 && (n - 4) % 4 == 0
  {
    var q := n / 8;
    if n % 8 == 0 {
      DivMod4(n, 2 * q, 0); DivMod4(n + 4, 2 * q + 1, 0); DivMod4(n - 4, 2 * q - 1, 0);
    } else {
      DivMod4(n, 2 * q + 1, 0); DivMod4(n + 4, 2 * q + 2, 0); DivMod4(n - 4, 2 * q, 0);
    }
  }

  lemma {:induction false} Gap8(x: int, y: int)
    requires x % 8 == 4 && y % 8 == 4
    ensures (y - x) % 8 == 0
    ensures x < y ==> 8 <= y - x
  {
    DivMod8(y - x, y / 8 - x / 8, 0);
  }

  lemma {:induction false} Multiple8(a: int)
    requires a % 8 == 4
    ensures (a + 4) % 4 == 0 && (a - 4) % 4 == 0 && (a - 8) % 4 == 0
  {
    var q := a / 8;
    DivMod4(a + 4, 2 * q + 2, 0);
    DivMod4(a - 4, 2 * q, 0);
    DivMod4(a - 8, 2 * q - 1, 0);
  }

  // ---------- Any divisor ----------

  lemma {:induction false} MulGap(d: int, p: int, q: int)
    requires d > 0
    ensures p > q ==> d * p >= d * q + d
    ensures p == q ==> d * p == d * q
    ensures p < q ==> d * p + d <= d * q
  {
    var e := p - q;
    assert d * e == d * p - d * q;
    if e > 0 {
      MulPositive(d, e);
    } else if e < 0 {
      MulPositive(d, -e);
      assert d * -e == -(d * e);
    }
  }

  lemma {:induction false} MulPositive(d: int, e: int)
    requires d > 0 && e > 0
    ensures d * e >= d
  {
    assert d * e == d * (e - 1) + d;
  }

  lemma {:induction false} DivModBy(n: int, d: int, q: int, r: int)
    requires d > 0 && n == d * q + r && 0 <= r < d
    ensures n / d == q && n % d == r
  {
    assert n == d * (n / d) + n % d;
    MulGap(d, n / d, q);
  }

  /** Dividing twice is dividing by the product. */
  lemma {:induction false} DivDiv(a: nat, x: nat, y: nat)
    requires x > 0 && y > 0
    ensures x * y > 0 && a / (x * y) == a / x / y
  {
    var q, r := a / x, a % x;
    var u, v := q / y, q % y;
    MulPositive(x, y);
    assert a == x * q + r && q == y * u + v;
    MulSplit(x, y, u, v);
    MulGap(x, y, v);
    assert v >= 0 && x * v >= 0;
    DivModBy(a, x * y, u, x * v + r);
  }

  lemma {:induction false} MulSplit(x: int, y: int, u: int, v: int)
    ensures x * (y * u + v) == (x * y) * u + x * v
  {
    assert x * (y * u + v) == x * (y * u) + x * v;
    assert x * (y * u) == (x * y) * u;
  }

  function Pow2(n: nat): nat { if n == 0 then 1 else 2 * Pow2(n - 1) }

  lemma {:induction false} Pow2Positive(n: nat)
    ensures Pow2(n) > 0
  {
    if n > 0 { Pow2Positive(n - 1); }
  }

  lemma {:induction false} Pow2Add(m: nat, n: nat)
    ensures Pow2(m + n) == Pow2(m) * Pow2(n)
    decreases m
  {
    if m > 0 {
      Pow2Add(m - 1, n);
      assert Pow2(m + n) == 2 * Pow2(m - 1 + n) && Pow2(m) == 2 * Pow2(m - 1);
      hide Pow2;
      DoubleProduct(Pow2(m - 1), Pow2(n));
    }
  }

  lemma DoubleProduct(a: int, b: int)
    ensures (2 * a) * b == 2 * (a * b)
  {
  }
}
