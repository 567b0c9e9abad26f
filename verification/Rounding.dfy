/** Rounding to the nearest multiple, ties to even, and bit lengths: the integer core of float_i2f
    (bits.c), for all natural numbers. */
module Rounding {
  import opened DivMod

  function Abs(x: int): nat { if x < 0 then -x else x }

  // ---------- Bit lengths ----------

  /** The number of bits of `m`: how often the loop of float_i2f halves it before it is 0. */
  function BitLength(m: nat): nat {
    if m == 0 then 0 else 1 + BitLength(m / 2)
  }

  lemma {:induction false} BitLengthBounds(m: nat)
    requires m > 0
    ensures BitLength(m) > 0 && Pow2(BitLength(m) - 1) <= m < Pow2(BitLength(m))
  {
    if m > 1 {
      BitLengthBounds(m / 2);
      var b := BitLength(m / 2);
      assert BitLength(m) == b + 1 && Pow2(b + 1) == 2 * Pow2(b) && Pow2(b) == 2 * Pow2(b - 1);
    } else {
      assert BitLength(1) == 1 + BitLength(0);
      assert Pow2(1) == 2 * Pow2(0);
    }
  }

  lemma {:induction false} Pow2Monotone(a: nat, b: nat)
    requires a <= b
    ensures Pow2(a) <= Pow2(b)
  {
    Pow2Positive(a);
    if a < b { Pow2Monotone(a, b - 1); }
  }

  /** The bit length is the only exponent that brackets the number. */
  lemma {:induction false} BitLengthUnique(m: nat, b: nat)
    requires b > 0 && Pow2(b - 1) <= m < Pow2(b)
    ensures BitLength(m) == b
  {
    Pow2Positive(b - 1);
    BitLengthBounds(m);
    var c := BitLength(m);
    if c < b { Pow2Monotone(c, b - 1); }
    if b < c { Pow2Monotone(b, c - 1); }
  }

  // ---------- Round to nearest, ties to even ----------

  /** The multiple of `q` nearest to `m`, as a count of `q`s; a tie goes to the even count. */
  function RoundEven(m: nat, q: nat): nat
    requires q > 0
  {
    var k, rem := m / q, m % q;
    if 2 * rem > q || (2 * rem == q && k % 2 == 1) then k + 1 else k
  }

  /** No multiple of `q` is nearer, and another one is as near only if ours is even. */
  lemma {:induction false} RoundEvenNearest(m: nat, q: nat, n: int)
    requires q > 0
    ensures var f := RoundEven(m, q);
            && Abs(m - q * f) <= Abs(m - q * n)
            && (Abs(m - q * f) == Abs(m - q * n) && n != f ==> f % 2 == 0)
  {
    var k, rem := m / q, m % q;
    assert m == q * k + rem && 0 <= rem < q;
    assert q * (k + 1) == q * k + q;
    MulGap(q, n, k);
    MulGap(q, n, k + 1);
  }

  /** The guard, round and sticky bits of float_i2f (lines 402-405) decide exactly as RoundEven
      does: with `h` the weight of the round bit, round up when the round bit is set and either
      something lies below it or the kept part is odd. */
  lemma {:induction false} GuardRoundSticky(m: nat, h: nat)
    requires h > 0
    ensures var q := 2 * h;
            var guard, round, sticky := m / q % 2, m / h % 2, m % h != 0;
            RoundEven(m, q) == m / q + (if round == 1 && (sticky || guard == 1) then 1 else 0)
  {
    var q := 2 * h;
    var k, rem := m / q, m % q;
    var b, low := if rem >= h then 1 else 0, if rem >= h then rem - h else rem;
    assert m == q * k + rem;
    assert q * k == h * (2 * k);
    assert h * (2 * k + b) == h * (2 * k) + h * b;
    DivModBy(m, h, 2 * k + b, low);
    DivMod2(2 * k + b, k, b);
  }

  lemma {:induction false} RoundEvenBounds(m: nat, e: nat)
    requires e > 24 && Pow2(e - 1) <= m < Pow2(e)
    ensures Pow2(e - 24) > 0 && 0x80_0000 <= m / Pow2(e - 24) < 0x100_0000
    ensures 0x80_0000 <= RoundEven(m, Pow2(e - 24)) <= 0x100_0000
  {
    hide Pow2;
    var q := Pow2(e - 24);
    Pow2Positive(e - 24);
    Pow2Add(23, e - 24);
    Pow2Add(24, e - 24);
    Pow2Values();
    var k, rem := m / q, m % q;
    assert m == q * k + rem;
    assert 23 + (e - 24) == e - 1 && 24 + (e - 24) == e;
    MulGap(q, k, 0x80_0000);
    MulGap(q, k, 0x100_0000);
  }

  lemma {:induction false} Pow2Values()
    ensures Pow2(0) == 1 && Pow2(1) == 2 && Pow2(8) == 0x100
    ensures Pow2(23) == 0x80_0000 && Pow2(24) == 0x100_0000 && Pow2(31) == 0x8000_0000 && Pow2(32) == 0x1_0000_0000
  {
    assert Pow2(8) == 0x100;
    assert Pow2(16) == 0x1_0000;
    assert Pow2(23) == 0x80_0000;
    assert Pow2(24) == 0x100_0000;
    assert Pow2(31) == 0x8000_0000;
  }
}
