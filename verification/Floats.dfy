/** Single-precision encodings (section 3.4 of IEEE 754-2008) and the conversions of bits.c.

    An encoding is a 32-bit word.  Values are kept exact by scaling with 2^149, the inverse of the
    smallest positive value, so that every finite value becomes an integer. */
module Floats {
  import opened DivMod
  import opened Rounding

  type Word = w: int | 0 <= w < 0x1_0000_0000

  function SignBit(w: Word): nat { w / 0x8000_0000 }
  function Exponent(w: Word): nat { w / 0x80_0000 % 0x100 }
  function Fraction(w: Word): nat { w % 0x80_0000 }

  predicate Finite(w: Word) { Exponent(w) != 255 }

  /** |value| * 2^149. */
  function Magnitude(w: Word): nat {
    if Exponent(w) == 0 then Fraction(w)
    else
      Pow2Positive(Exponent(w) - 1);
      (0x80_0000 + Fraction(w)) * Pow2(Exponent(w) - 1)
  }

  /** value * 2^149. */
  function Value(w: Word): int {
    var m: int := Magnitude(w);
    if SignBit(w) == 1 then -m else m
  }

  const SCALE: nat := 149

  function Assembled(sign: nat, exponent: nat, fraction: nat): int {
    sign * 0x8000_0000 + exponent * 0x80_0000 + fraction
  }

  lemma {:induction false} AssembledFields(sign: nat, exponent: nat, fraction: nat)
    requires sign <= 1 && exponent <= 255 && fraction < 0x80_0000
    ensures 0 <= Assembled(sign, exponent, fraction) < 0x1_0000_0000
    ensures var w: Word := Assembled(sign, exponent, fraction);
            SignBit(w) == sign && Exponent(w) == exponent && Fraction(w) == fraction
  {
    var w := Assembled(sign, exponent, fraction);
    DivModBy(w, 0x8000_0000, sign, exponent * 0x80_0000 + fraction);
    DivModBy(w, 0x80_0000, sign * 0x100 + exponent, fraction);
    DivModBy(sign * 0x100 + exponent, 0x100, sign, exponent);
  }

  /** A word is its three fields. */
  lemma {:induction false} FieldsAssemble(w: Word)
    ensures SignBit(w) <= 1 && Exponent(w) <= 255 && Fraction(w) < 0x80_0000
    ensures w == Assembled(SignBit(w), Exponent(w), Fraction(w))
  {
    var h := w / 0x80_0000;
    assert w == 0x80_0000 * h + w % 0x80_0000;
    assert h == 0x100 * (h / 0x100) + h % 0x100;
    DivModBy(w, 0x8000_0000, h / 0x100, (h % 0x100) * 0x80_0000 + w % 0x80_0000);
  }

  // ---------- The reference: rounding to the nearest encoding ----------

  /** `w` encodes a finite value nearest to the integer `x`; where another value is just as near,
      the last bit of `w` is 0 (roundTiesToEven, section 4.3.1 of IEEE 754-2008). */
  ghost predicate Nearest(x: int, w: Word) {
    && Finite(w)
    && forall v: Word :: Finite(v) ==> AtLeastAsNear(x, w, v)
  }

  ghost predicate AtLeastAsNear(x: int, w: Word, v: Word) {
    var target := x * Pow2(SCALE);
    && Abs(target - Value(w)) <= Abs(target - Value(v))
    && (Abs(target - Value(w)) == Abs(target - Value(v)) && Value(v) != Value(w) ==> Fraction(w) % 2 == 0)
  }

  // ---------- Significands ----------

  /** The encoding with 24-bit significand `f` (2^23 <= f <= 2^24) and unit 2^(e-24): what lines
      406-413 put together, including the carry into the exponent when f reaches 2^24. */
  function Pack(negative: bool, f: nat, e: nat): int {
    Assembled(if negative then 1 else 0, (if f == 0x100_0000 then e + 1 else e) + 126, f % 0x80_0000)
  }

  lemma {:induction false} PackValue(negative: bool, f: nat, e: nat)
    requires 0x80_0000 <= f <= 0x100_0000 && 1 <= e <= 32
    ensures 0 <= Pack(negative, f, e) < 0x1_0000_0000
    ensures var w: Word := Pack(negative, f, e);
            && Finite(w) && Fraction(w) % 2 == f % 2
            && SignBit(w) == (if negative then 1 else 0) && Magnitude(w) == f * Pow2(e + 125)
            && Value(w) == if negative then -(f * Pow2(e + 125)) else f * Pow2(e + 125)
  {
    hide Pow2;
    var sign, exponent := if negative then 1 else 0, (if f == 0x100_0000 then e + 1 else e) + 126;
    DivMod2(f, f / 2, f % 2);
    if f == 0x100_0000 {
      DivModBy(f, 0x80_0000, 2, 0);
      Pow2Add(1, e + 125);
      Pow2Values();
      assert 1 + (e + 125) == exponent - 1;
      assert 0x80_0000 * (2 * Pow2(e + 125)) == f * Pow2(e + 125);
    } else {
      DivModBy(f, 0x80_0000, 1, f - 0x80_0000);
      DivMod2(f - 0x80_0000, f / 2 - 0x40_0000, f % 2);
    }
    AssembledFields(sign, exponent, f % 0x80_0000);
  }

  lemma {:induction false} SmallExponent(w: Word, e: nat)
    requires 1 <= e && Exponent(w) < e + 126
    ensures Magnitude(w) <= Pow2(e + 148)
  {
    hide Pow2;
    FieldsAssemble(w);
    Pow2Values();
    var E, g := Exponent(w), 0x80_0000 + Fraction(w);
    Pow2Monotone(23, e + 148);
    if E > 0 {
      var p, q := Pow2(E - 1), Pow2(e + 124);
      Pow2Positive(E - 1);
      Pow2Monotone(E - 1, e + 124);
      Pow2Add(24, e + 124);
      MulGap(p, 0x100_0000, g);
      assert g * p <= 0x100_0000 * p <= 0x100_0000 * q;
      assert 24 + (e + 124) == e + 148;
    }
  }

  /** Finite values above 2^(e-1) are multiples of the unit 2^(e-24). */
  lemma {:induction false} BigIsMultiple(w: Word, e: nat) returns (n: nat)
    requires Magnitude(w) > Pow2(e + 148) && 1 <= e
    ensures Magnitude(w) == Pow2(e + 125) * n
  {
    hide Pow2;
    var E, g := Exponent(w), 0x80_0000 + Fraction(w);
    if E < e + 126 { SmallExponent(w, e); }
    Pow2Add(e + 125, E - 1 - (e + 125));
    Pow2Positive(E - 1 - (e + 125));
    n := g * Pow2(E - 1 - (e + 125));
    assert g * (Pow2(e + 125) * Pow2(E - 1 - (e + 125))) == Pow2(e + 125) * n;
  }

  // ---------- The rounded integer is nearest among all finite values ----------

  /** The 24-bit significand that `m` rounds to, in units of 2^(e-24) where e is its bit length. */
  function Significand(m: nat): nat
    requires m > 0
  {
    var e := BitLength(m);
    if e <= 24 then m * Pow2(24 - e)
    else
      Pow2Positive(e - 24);
      RoundEven(m, Pow2(e - 24))
  }

  lemma {:induction false} ScaleBounds(m: nat, p: nat, a: nat, b: nat)
    requires p > 0 && a <= m < b
    ensures a * p <= m * p < b * p
  {
    MulGap(p, m, a);
    MulGap(p, b, m);
  }

  lemma {:induction false} SignificandBounds(m: nat)
    requires m > 0
    ensures BitLength(m) >= 1 && 0x80_0000 <= Significand(m) <= 0x100_0000
  {
    hide Pow2;
    BitLengthBounds(m);
    var e := BitLength(m);
    Pow2Values();
    if e <= 24 {
      var p := Pow2(24 - e);
      Pow2Positive(24 - e);
      Pow2Add(e - 1, 24 - e);
      Pow2Add(e, 24 - e);
      assert e - 1 + (24 - e) == 23 && e + (24 - e) == 24;
      ScaleBounds(m, p, Pow2(e - 1), Pow2(e));
    } else {
      RoundEvenBounds(m, e);
    }
  }

  /** Up to 24 bits nothing is lost. */
  lemma {:induction false} ShortIsExact(m: nat)
    requires m > 0 && BitLength(m) <= 24
    ensures Significand(m) * Pow2(BitLength(m) + 125) == m * Pow2(SCALE)
  {
    hide Pow2;
    var e := BitLength(m);
    Pow2Add(24 - e, e + 125);
    assert 24 - e + (e + 125) == SCALE;
    MulAssoc(m, Pow2(24 - e), Pow2(e + 125));
  }

  lemma MulNat(a: nat, b: nat)
    ensures a * b >= 0
  {
  }

  lemma {:induction false} MulAssoc(a: int, b: int, c: int)
    ensures (a * b) * c == a * (b * c)
  {
  }

  lemma {:induction false} ScaledGap(m: nat, q: nat, S: nat, n: int)
    requires S > 0
    ensures m * S - n * (q * S) == (m - q * n) * S
    ensures Abs(m * S - n * (q * S)) == Abs(m - q * n) * S
  {
    assert n * (q * S) == (q * n) * S;
    var d := m - q * n;
    assert d * S == m * S - (q * n) * S;
    if d >= 0 {
      assert d * S >= 0;
    } else {
      assert -d * S == -(d * S);
      assert -d * S >= 0;
    }
  }

  lemma {:induction false} CompareScaled(a: nat, b: nat, S: nat)
    requires S > 0 && a <= b
    ensures a * S <= b * S && (a * S == b * S ==> a == b)
  {
    MulGap(S, b, a);
  }

  /** In a grid of unit q*S, the rounding of m*S beats every other grid point. */
  lemma {:induction false} BeatsMultiples(m: nat, q: nat, S: nat, n: int)
    requires q > 0 && S > 0
    ensures var f := RoundEven(m, q);
            && Abs(m * S - f * (q * S)) <= Abs(m * S - n * (q * S))
            && (Abs(m * S - f * (q * S)) == Abs(m * S - n * (q * S)) && n != f ==> f % 2 == 0)
  {
    hide RoundEven;
    var f := RoundEven(m, q);
    RoundEvenNearest(m, q, n);
    ScaledGap(m, q, S, f);
    ScaledGap(m, q, S, n);
    CompareScaled(Abs(m - q * f), Abs(m - q * n), S);
  }

  /** ... and everything below the grid point under it. */
  lemma {:induction false} BeatsSmaller(m: nat, q: nat, S: nat, v: int)
    requires q > 0 && S > 0 && v <= (m / q) * (q * S)
    ensures var f := RoundEven(m, q);
            && Abs(m * S - f * (q * S)) <= Abs(m * S - v)
            && (Abs(m * S - f * (q * S)) == Abs(m * S - v) && v != f * (q * S) ==> f % 2 == 0)
  {
    hide RoundEven;
    var f, k := RoundEven(m, q), m / q;
    BeatsMultiples(m, q, S, k);
    GridBelow(m, q, S);
    BelowIsFarther(m * S, k * (q * S), f * (q * S), v, f % 2 == 0);
  }

  lemma GridBelow(m: nat, q: nat, S: nat)
    requires q > 0
    ensures (m / q) * (q * S) <= m * S
  {
    var k, r := m / q, m % q;
    assert m == q * k + r;
    MulSplit(S, q, k, r);
    MulNat(S, r);
    MulTurned(k, q, S);
    assert m * S == S * (q * k + r);
  }

  lemma MulTurned(a: int, b: int, c: int)
    ensures a * (b * c) == (c * b) * a
  {
  }

  /** What lies under a point below `a` is farther from `a` than that point. */
  lemma BelowIsFarther(a: int, b: int, c: int, v: int, even: bool)
    requires a >= b >= v && Abs(a - c) <= Abs(a - b) && (Abs(a - c) == Abs(a - b) && b != c ==> even)
    ensures Abs(a - c) <= Abs(a - v) && (Abs(a - c) == Abs(a - v) && v != c ==> even)
  {
  }

  /** Both together, in terms of the unit. */
  lemma BeatsBoth(m: nat, q: nat, S: nat, u: nat, v: int, n: int)
    requires q > 0 && S > 0 && u == q * S && (v == n * u || v <= (m / q) * u)
    ensures var f := RoundEven(m, q);
            && Abs(m * S - f * u) <= Abs(m * S - v)
            && (Abs(m * S - f * u) == Abs(m * S - v) && v != f * u ==> f % 2 == 0)
  {
    hide RoundEven;
    if v == n * u {
      BeatsMultiples(m, q, S, n);
    } else {
      BeatsSmaller(m, q, S, v);
    }
  }

  /** Over 24 bits: no value `v` that is small or a multiple of the unit beats the rounding. */
  lemma {:induction false} LongIsNearest(m: nat, v: int, n: int)
    requires m > 0 && BitLength(m) > 24
    requires v <= Pow2(BitLength(m) + 148) || v == Pow2(BitLength(m) + 125) * n
    ensures var e, f := BitLength(m), Significand(m);
            var w := f * Pow2(e + 125);
            && Abs(m * Pow2(SCALE) - w) <= Abs(m * Pow2(SCALE) - v)
            && (Abs(m * Pow2(SCALE) - w) == Abs(m * Pow2(SCALE) - v) && v != w ==> f % 2 == 0)
  {
    hide Pow2, RoundEven, BitLength, Abs;
    var e := BitLength(m);
    Pow2Positive(SCALE);
    Pow2Positive(e - 24);
    Pow2Add(e - 24, SCALE);
    assert e - 24 + SCALE == e + 125;
    if v != Pow2(e + 125) * n { SmallIsBelow(m, v); }
    BeatsBoth(m, Pow2(e - 24), Pow2(SCALE), Pow2(e + 125), v, n);
  }

  lemma SmallIsBelow(m: nat, v: int)
    requires m > 0 && BitLength(m) > 24 && v <= Pow2(BitLength(m) + 148)
    ensures Pow2(BitLength(m) - 24) > 0 && v <= m / Pow2(BitLength(m) - 24) * Pow2(BitLength(m) + 125)
  {
    hide Pow2, BitLength;
    var e := BitLength(m);
    BitLengthBounds(m);
    RoundEvenBounds(m, e);
    Pow2Add(23, e + 125);
    Pow2Values();
    assert 23 + (e + 125) == e + 148;
    Pow2Positive(e + 125);
    MulGap(Pow2(e + 125), m / Pow2(e - 24), 0x80_0000);
  }

  lemma {:induction false} NegateProduct(x: int, S: int)
    ensures x * S == if x < 0 then -(Abs(x) * S) else Abs(x) * S
  {
    assert (-x) * S == -(x * S);
  }

  lemma {:induction false} PackNearestTo(x: int, v: Word)
    requires x != 0 && Abs(x) <= 0x8000_0000 && 1 <= BitLength(Abs(x)) <= 32 && Finite(v)
    ensures 0x80_0000 <= Significand(Abs(x)) <= 0x100_0000
    ensures 0 <= Pack(x < 0, Significand(Abs(x)), BitLength(Abs(x))) < 0x1_0000_0000
    ensures AtLeastAsNear(x, Pack(x < 0, Significand(Abs(x)), BitLength(Abs(x))), v)
  {
    hide Pow2, Pack, Significand, Magnitude, BitLength, Finite;
    var m := Abs(x);
    var e, f := BitLength(m), Significand(m);
    SignificandBounds(m);
    PackValue(x < 0, f, e);
    var u := if x < 0 then -Value(v) else Value(v);
    NegateProduct(x, Pow2(SCALE));
    if e <= 24 {
      ShortIsExact(m);
    } else if u <= Pow2(e + 148) {
      LongIsNearest(m, u, 0);
    } else {
      var n := BigIsMultiple(v, e);
      LongIsNearest(m, u, n);
    }
  }

  /** Packing the rounded significand gives a nearest encoding, ties to even, for every x. */
  lemma {:induction false} PackNearest(x: int)
    requires x != 0 && Abs(x) <= 0x8000_0000
    ensures 1 <= BitLength(Abs(x)) <= 32 && 0x80_0000 <= Significand(Abs(x)) <= 0x100_0000
    ensures 0 <= Pack(x < 0, Significand(Abs(x)), BitLength(Abs(x))) < 0x1_0000_0000
    ensures Nearest(x, Pack(x < 0, Significand(Abs(x)), BitLength(Abs(x))))
  {
    hide AtLeastAsNear;
    var m := Abs(x);
    LengthOf32(m);
    SignificandBounds(m);
    PackValue(x < 0, Significand(m), BitLength(m));
    forall v: Word | Finite(v) ensures AtLeastAsNear(x, Pack(x < 0, Significand(m), BitLength(m)), v) {
      PackNearestTo(x, v);
    }
  }

  lemma {:induction false} LengthOf32(m: nat)
    requires 0 < m <= 0x8000_0000
    ensures 1 <= BitLength(m) <= 32
  {
    hide Pow2;
    BitLengthBounds(m);
    Pow2Values();
    if BitLength(m) > 32 { Pow2Monotone(32, BitLength(m) - 1); }
  }

  lemma {:induction false} ZeroNearest()
    ensures Nearest(0, 0)
  {
    hide Pow2;
    assert 0 * Pow2(SCALE) == 0;
    DivModBy(0, 0x80_0000, 0, 0);
    DivModBy(0, 0x8000_0000, 0, 0);
    assert Exponent(0) == 0 && Value(0) == 0;
  }

  // ---------- float_i2f (lines 386-413) ----------

  /** The inputs on which line 404 depends on a shift by 32: 25 significant bits, and an exact tie
      whose even neighbour is the smaller one. */
  predicate TieAt25Bits(x: int) {
    BitLength(Abs(x)) == 25 && Abs(x) % 4 == 1
  }

  lemma {:induction false} TieSignificand(m: nat)
    requires BitLength(m) == 25 && m % 4 == 1
    ensures m == 2 * (m / 2) + 1 && m / 2 % 2 == 0
    ensures Significand(m) == m / 2 && 0x80_0000 <= m / 2 < 0x100_0000
  {
    hide Pow2;
    Pow2Values();
    assert m == 4 * (m / 4) + 1;
    DivMod2(m, 2 * (m / 4), 1);
    DivMod2(2 * (m / 4), m / 4, 0);
    BitLengthBounds(m);
    RoundEvenBounds(m, 25);
  }

  /** There, rounding up is wrong: the even neighbour is just as near. */
  lemma {:induction false} RoundingUpTie(x: int)
    requires TieAt25Bits(x) && Abs(x) <= 0x8000_0000
    ensures Significand(Abs(x)) == Abs(x) / 2 && 0x80_0000 <= Abs(x) / 2 < 0x100_0000
    ensures 0 <= Pack(x < 0, Abs(x) / 2 + 1, 25) < 0x1_0000_0000
    ensures !Nearest(x, Pack(x < 0, Abs(x) / 2 + 1, 25))
  {
    hide Pow2, Pack, Significand, BitLength, Magnitude;
    var m, S, k := Abs(x), Pow2(SCALE), Abs(x) / 2;
    TieSignificand(m);
    Pow2Positive(SCALE);
    PackValue(x < 0, k, 25);
    PackValue(x < 0, k + 1, 25);
    Pow2Add(1, SCALE);
    Pow2Values();
    assert Pow2(150) == 2 * S;
    TieDistances(k, S);
    NegateProduct(x, S);
    DivMod2(k + 1, k / 2, 1);
    var w: Word, v: Word := Pack(x < 0, k + 1, 25), Pack(x < 0, k, 25);
    assert !AtLeastAsNear(x, w, v);
  }

  lemma {:induction false} TieDistances(k: int, S: int)
    ensures (k + 1) * (2 * S) == (2 * k + 1) * S + S && k * (2 * S) == (2 * k + 1) * S - S
  {
    assert (k + 1) * (2 * S) == 2 * (k * S) + 2 * S;
    assert (2 * k + 1) * S == 2 * (k * S) + S;
    assert k * (2 * S) == 2 * (k * S);
  }

  /** What the C expressions on a 32-bit int compute. */
  function Negate32(x: int): int { if x == -0x8000_0000 then x else -x }
  function ToUnsigned(x: int): int { x % 0x1_0000_0000 }

  /** Line 403: the arithmetic shift of a magnitude that has wrapped to INT_MIN shows the same
      round bit as the magnitude would. */
  lemma {:induction false} RoundBit(m: nat, y: int, e: nat)
    requires 25 <= e <= 32 && 0 < m <= 0x8000_0000 && e == BitLength(m)
    requires y == if m == 0x8000_0000 then -0x8000_0000 else m
    ensures Pow2(e - 25) > 0 && y / Pow2(e - 25) % 2 == m / Pow2(e - 25) % 2
  {
    hide Pow2;
    Pow2Positive(e - 25);
    if m == 0x8000_0000 {
      Pow2Values();
      BitLengthUnique(m, 32);
      assert Pow2(7) == 0x80 by { Pow2Add(1, 7); }
      DivModBy(m, 0x80, 0x100_0000, 0);
      DivModBy(y, 0x80, -0x100_0000, 0);
    }
  }

  /** Line 404: what is left of the magnitude after the shift to the left are the bits below the
      round bit. */
  lemma {:induction false} StickyBits(m: nat, y: int, e: nat)
    requires 26 <= e <= 32 && 0 < m <= 0x8000_0000 && m < Pow2(e)
    requires y == if m == 0x8000_0000 then -0x8000_0000 else m
    ensures Pow2(e - 25) > 0 && (ToUnsigned(y * Pow2(57 - e)) != 0 <==> m % Pow2(e - 25) != 0)
  {
    hide Pow2;
    var p, h, W := Pow2(57 - e), Pow2(e - 25), 0x1_0000_0000;
    Pow2Positive(57 - e);
    Pow2Positive(e - 25);
    Pow2Add(e - 25, 57 - e);
    Pow2Values();
    assert e - 25 + (57 - e) == 32 && h * p == W;
    assert h * p == p * h;
    StickyProduct(m, y, h, p);
  }

  /** The same for any split of the 32 bits into `h` below and `p` above. */
  lemma StickyProduct(m: nat, y: int, h: nat, p: nat)
    requires h > 0 && p > 0 && p * h == 0x1_0000_0000 && (y == m || y == m - 0x1_0000_0000)
    ensures ToUnsigned(y * p) != 0 <==> m % h != 0
  {
    var a, b, W := m / h, m % h, 0x1_0000_0000;
    MulSplit(p, h, a, b);
    assert p * m == W * a + p * b;
    MulGap(p, h, b);
    MulNat(p, b);
    if b != 0 { MulPositive(p, b); }
    if y == m {
      DivModBy(p * y, W, a, p * b);
    } else {
      MulMinus(p, m, W);
      MulMinus(W, a, p);
      DivModBy(p * y, W, a - p, p * b);
    }
    assert p * y == y * p;
  }

  lemma MulMinus(a: int, b: int, c: int)
    ensures a * (b - c) == a * b - a * c
  {
  }

  /** Lines 394-397: counts the bits of `u`. */
  method CountBits(u: nat) returns (exp: nat)
    ensures exp == BitLength(u)
  {
    exp := 0;
    var ux := u;
    while ux != 0
      invariant 0 <= ux && exp + BitLength(ux) == BitLength(u)
    {
      exp := exp + 1;
      ux := ux / 2;
    }
  }

  lemma {:induction false} UnsignedOf(m: nat, y: int)
    requires 0 < m <= 0x8000_0000 && y == if m == 0x8000_0000 then -0x8000_0000 else m
    ensures ToUnsigned(y) == m
  {
    DivModBy(y, 0x1_0000_0000, if m == 0x8000_0000 then -1 else 0, m);
  }

  lemma {:induction false} ShortFraction(m: nat)
    requires 0 < m && BitLength(m) <= 24
    ensures ToUnsigned(m * Pow2(24 - BitLength(m))) == Significand(m)
  {
    SignificandBounds(m);
  }

  /** Lines 400-410, before the fraction bits are masked out: the rounded 24-bit significand. */
  method RoundInt(y: int, exp: nat, shl32: int, ghost m: nat) returns (frac: int)
    requires 0 < m <= 0x8000_0000 && exp == BitLength(m)
    requires y == if m == 0x8000_0000 then -0x8000_0000 else m
    ensures frac == Significand(m) + (if exp == 25 && m % 4 == 1 && shl32 != 0 then 1 else 0)
  {
    hide Pow2, ToUnsigned, Significand, BitLength;
    LengthOf32(m);
    UnsignedOf(m, y);
    if exp > 24 {
      Pow2Positive(exp - 24);
      Pow2Positive(exp - 25);
      RoundBit(m, y, exp);
      RoundedFraction(m, y, exp, shl32);
      frac := ToUnsigned(y) / Pow2(exp - 24);
      var guard := frac % 2;
      var round := y / Pow2(exp - 25) % 2;
      var sticky := if exp == 25 then shl32 else ToUnsigned(y * Pow2(57 - exp));
      frac := frac + (if round == 1 && (sticky != 0 || guard == 1) then 1 else 0);
    } else {
      ShortFraction(m);
      frac := ToUnsigned(ToUnsigned(y) * Pow2(24 - exp));
    }
  }

  /** Converts the int `x`.  `shl32` is what shifting an int left by 32 yields, which section 6.5.7
      of ISO/IEC 9899:2011 leaves undefined; the result is correct exactly when that value does not
      matter or is 0. */
  method FloatI2f(x: int, shl32: int) returns (r: Word)
    requires -0x8000_0000 <= x < 0x8000_0000
    ensures Nearest(x, r) <==> !(TieAt25Bits(x) && shl32 != 0)
    ensures x == 0 ==> r == 0
    ensures x != 0 ==> r == Pack(x < 0, Significand(Abs(x)) + (if TieAt25Bits(x) && shl32 != 0 then 1 else 0), BitLength(Abs(x)))
  {
    hide Pow2, Nearest, RoundEven, Significand, BitLength, ToUnsigned, Negate32;
    Magnitude32(x);
    var sign := if x < 0 then 0x8000_0000 else 0;
    var y := x;
    if sign != 0 {
      y := Negate32(x);
    }
    ghost var m := Abs(x);
    var exp := CountBits(ToUnsigned(y));
    if exp == 0 {
      ZeroNearest();
      return 0;
    }
    var frac := RoundInt(y, exp, shl32, m);
    PackNearest(x);
    if TieAt25Bits(x) { RoundingUpTie(x); }
    PackBits(frac, exp);
    if frac / 0x100_0000 % 2 == 1 {
      exp := exp + 1;
    }
    frac := frac % 0x80_0000;
    exp := (exp + 126) * 0x80_0000;
    r := sign + exp + frac;
  }

  /** The smallest such input: 2^24 + 1, half way between two floats, the even one below. */
  lemma TieExample()
    ensures TieAt25Bits(0x100_0001)
    ensures forall r: Word :: r == Pack(false, Significand(0x100_0001) + 1, 25) ==> !Nearest(0x100_0001, r)
  {
    Pow2Values();
    assert Pow2(25) == 2 * Pow2(24) && Pow2(24) == 0x100_0000;
    BitLengthUnique(0x100_0001, 25);
    RoundingUpTie(0x100_0001);
  }

  /** Lines 391-393: the magnitude as an unsigned word, and as the int it may have wrapped to. */
  lemma {:induction false} Magnitude32(x: int)
    requires -0x8000_0000 <= x < 0x8000_0000
    ensures var y := if x < 0 then Negate32(x) else x;
            && ToUnsigned(y) == Abs(x) <= 0x8000_0000
            && y == if Abs(x) == 0x8000_0000 then -0x8000_0000 else Abs(x)
    ensures BitLength(Abs(x)) == 0 <==> x == 0
  {
    if x == -0x8000_0000 { DivModBy(x, 0x1_0000_0000, -1, 0x8000_0000); }
  }

  /** Line 406: bit 24 of the significand is set exactly when rounding has carried into it. */
  lemma {:induction false} PackBits(f: nat, e: nat)
    requires 0x80_0000 <= f <= 0x100_0000
    ensures f / 0x100_0000 % 2 == 1 <==> f == 0x100_0000
  {
    DivModBy(f, 0x100_0000, if f == 0x100_0000 then 1 else 0, if f == 0x100_0000 then 0 else f);
  }

  /** Lines 401-405 compute the rounded significand, except that a 25-bit tie may go the wrong way. */
  lemma {:induction false} RoundedFraction(m: nat, y: int, e: nat, shl32: int)
    requires 0 < m <= 0x8000_0000 && e == BitLength(m) && 25 <= e <= 32
    requires y == if m == 0x8000_0000 then -0x8000_0000 else m
    requires Pow2(e - 24) > 0 && Pow2(e - 25) > 0
    ensures var guard, round := m / Pow2(e - 24) % 2, m / Pow2(e - 25) % 2;
            var sticky := if e == 25 then shl32 else ToUnsigned(y * Pow2(57 - e));
            m / Pow2(e - 24) + (if round == 1 && (sticky != 0 || guard == 1) then 1 else 0)
            == Significand(m) + (if e == 25 && m % 4 == 1 && shl32 != 0 then 1 else 0)
  {
    hide Pow2, RoundEven;
    var h := Pow2(e - 25);
    Pow2Add(1, e - 25);
    Pow2Values();
    assert 1 + (e - 25) == e - 24 && Pow2(e - 24) == 2 * h;
    BitLengthBounds(m);
    GuardRoundSticky(m, h);
    if e == 25 {
      assert h == 1 && m % 1 == 0 && m / 1 == m;
      assert m == 4 * (m / 4) + m % 4;
      DivModBy(m, 2, 2 * (m / 4) + m % 4 / 2, m % 4 % 2);
      DivMod2(2 * (m / 4) + m % 4 / 2, m / 4, m % 4 / 2);
    } else {
      StickyBits(m, y, e);
    }
  }

  // ---------- float_f2i (lines 426-447) ----------

  /** The reference: the value truncated toward zero, or 0x80000000 (as an int, -2^31) when that
      does not fit or there is no value. */
  function Truncated(w: Word): int {
    Pow2Positive(SCALE);
    var t: int := Magnitude(w) / Pow2(SCALE);
    if !Finite(w) || t >= 0x8000_0000 then -0x8000_0000
    else if SignBit(w) == 1 then -t
    else t
  }

  /** How the magnitude divides for a normal number with biased exponent E. */
  lemma {:induction false} TruncatedNormal(w: Word)
    requires Exponent(w) > 0
    ensures Pow2(SCALE) > 0
    ensures var E, g, t := Exponent(w), 0x80_0000 + Fraction(w), Magnitude(w) / Pow2(SCALE);
            && (E >= 150 ==> t == g * Pow2(E - 150))
            && (127 <= E < 150 ==> Pow2(150 - E) > 0 && t == g / Pow2(150 - E))
            && (E < 127 ==> t == 0)
  {
    hide Pow2;
    var E, g, S := Exponent(w), 0x80_0000 + Fraction(w), Pow2(SCALE);
    Pow2Positive(SCALE);
    Pow2Positive(E - 1);
    if E >= 150 {
      Pow2Add(E - 150, SCALE);
      assert E - 150 + SCALE == E - 1;
      MulAssoc(g, Pow2(E - 150), S);
      var q := g * Pow2(E - 150);
      assert Magnitude(w) == q * S;
      assert q * S == S * q;
      DivModBy(Magnitude(w), S, q, 0);
    } else if E >= 127 {
      var p, d := Pow2(E - 1), Pow2(150 - E);
      Pow2Positive(150 - E);
      Pow2Add(E - 1, 150 - E);
      assert E - 1 + (150 - E) == SCALE && S == p * d;
      ScaledQuotient(g, p, d);
    } else {
      Pow2Monotone(E - 1, 125);
      Pow2Add(24, 125);
      Pow2Values();
      MulGap(Pow2(E - 1), 0x100_0000, g);
      assert g * Pow2(E - 1) < 0x100_0000 * Pow2(E - 1) <= 0x100_0000 * Pow2(125);
      DivModBy(Magnitude(w), S, 0, Magnitude(w));
    }
  }

  lemma {:induction false} ScaledQuotient(g: nat, p: nat, d: nat)
    requires p > 0 && d > 0
    ensures p * d > 0 && g * p / (p * d) == g / d
  {
    MulPositive(p, d);
    var q, r := g / d, g % d;
    assert g == d * q + r;
    assert g * p == (p * d) * q + r * p;
    assert 0 <= r * p < p * d by { MulGap(p, d, r); assert r * p == p * r; }
    DivModBy(g * p, p * d, q, r * p);
  }

  /** The range test of line 436. */
  lemma {:induction false} InIntRange(w: Word)
    requires Exponent(w) > 0
    ensures Pow2(SCALE) > 0
    ensures Exponent(w) <= 157 <==> Magnitude(w) / Pow2(SCALE) < 0x8000_0000
  {
    hide Pow2, Magnitude;
    TruncatedNormal(w);
    FieldsAssemble(w);
    var E, g := Exponent(w), 0x80_0000 + Fraction(w);
    Pow2Values();
    if E >= 158 {
      Pow2Monotone(8, E - 150);
      ProductBounds(g, Pow2(E - 150), 0x100);
    } else if E >= 150 {
      Pow2Monotone(E - 150, 7);
      Pow2Add(1, 7);
      ProductBounds(g, Pow2(E - 150), 0x80);
    } else if E >= 127 {
      Pow2Positive(150 - E);
      DivShrinks(g, Pow2(150 - E));
    }
  }

  lemma {:induction false} ProductBounds(g: nat, p: nat, c: nat)
    ensures p >= c ==> g * p >= g * c
    ensures p <= c ==> g * p <= g * c
  {
    if g > 0 { MulGap(g, p, c); }
  }

  lemma {:induction false} DivShrinks(g: nat, d: nat)
    requires d > 0
    ensures g / d <= g
  {
    var q := g / d;
    assert g == d * q + g % d;
    if q > 0 { MulPositive(q, d); }
  }

  lemma {:induction false} TruncatedSubnormal(w: Word)
    requires Exponent(w) == 0
    ensures Truncated(w) == 0
  {
    hide Pow2;
    Pow2Positive(SCALE);
    FieldsAssemble(w);
    Pow2Values();
    Pow2Monotone(23, SCALE);
    DivModBy(Magnitude(w), Pow2(SCALE), 0, Magnitude(w));
  }

  /** The shifted significand of lines 438-443. */
  function Shifted(g: nat, E: nat): int {
    if E >= 150 then g * Pow2(E - 150)
    else if E >= 127 then
      Pow2Positive(150 - E);
      g / Pow2(150 - E)
    else 0
  }

  lemma ShiftedBy(g: nat, E: nat)
    ensures Shifted(g, E) >= 0
    ensures E >= 150 ==> Shifted(g, E) == g * Pow2(E - 150)
    ensures 127 <= E <= 150 ==> Pow2(150 - E) > 0 && Shifted(g, E) == g / Pow2(150 - E)
    ensures E < 127 ==> Shifted(g, E) == 0
  {
    hide Pow2;
    Pow2Values();
    if E >= 150 {
      MulNat(g, Pow2(E - 150));
    } else if E >= 127 {
      Pow2Positive(150 - E);
      QuotientNat(g, Pow2(150 - E));
    }
    if E == 150 {
      assert g * Pow2(0) == g;
      DivModBy(g, 1, g, 0);
    }
  }

  lemma QuotientNat(g: nat, d: nat)
    requires d > 0
    ensures g / d >= 0
  {
  }

  lemma SmallUnsigned(t: int)
    requires 0 <= t < 0x1_0000_0000
    ensures ToUnsigned(t) == t
  {
  }

  lemma {:induction false} TruncatedShifted(w: Word)
    requires Exponent(w) > 0
    ensures var t: int := Shifted(0x80_0000 + Fraction(w), Exponent(w));
            if Exponent(w) > 157 then Truncated(w) == -0x8000_0000
            else t < 0x8000_0000 && Truncated(w) == if SignBit(w) == 1 then -t else t
  {
    hide Pow2, Magnitude, SignBit;
    TruncatedNormal(w);
    InIntRange(w);
  }

  /** The int that the encoding truncates to. */
  method FloatF2i(uf: Word) returns (r: int)
    ensures r == Truncated(uf)
    ensures -0x8000_0000 <= r < 0x8000_0000
  {
    hide Pow2, Truncated, Exponent, Fraction, SignBit, Shifted, ToUnsigned;
    var sign, exp := SignBit(uf), Exponent(uf);
    var frac: int := Fraction(uf);
    FieldsAssemble(uf);
    if exp == 0 {
      TruncatedSubnormal(uf);
      return 0;
    }
    TruncatedShifted(uf);
    frac := frac + 0x80_0000;
    ShiftedBy(frac, exp);
    var E := exp as int - 127;
    if E > 30 {
      return -0x8000_0000;
    }
    if E > 23 {
      SmallUnsigned(frac * Pow2(E - 23));
      frac := ToUnsigned(frac * Pow2(E - 23));
    } else if E >= 0 {
      frac := frac / Pow2(23 - E);
    } else {
      frac := 0;
    }
    r := if sign == 1 then -frac else frac;
  }

  // ---------- There and back ----------

  /** `m` needs no more than 24 significant bits. */
  predicate Representable(m: nat) {
    BitLength(m) > 24 ==> (Pow2Positive(BitLength(m) - 24); m % Pow2(BitLength(m) - 24) == 0)
  }

  /** Truncating what was rounded gives the rounded integer back. */
  lemma {:induction false} TruncatedPack(negative: bool, f: nat, e: nat)
    requires 0x80_0000 <= f <= 0x100_0000 && 25 <= e <= 32
    ensures 0 <= Pack(negative, f, e) < 0x1_0000_0000
    ensures var t := f * Pow2(e - 24);
            Truncated(Pack(negative, f, e)) == if t >= 0x8000_0000 then -0x8000_0000 else if negative then -t else t
  {
    hide Pow2, Pack;
    PackValue(negative, f, e);
    var w: Word, S, t := Pack(negative, f, e), Pow2(SCALE), f * Pow2(e - 24);
    Pow2Positive(SCALE);
    Pow2Positive(e - 24);
    Pow2Positive(e + 125);
    Pow2Add(e - 24, SCALE);
    assert e - 24 + SCALE == e + 125;
    MulAssoc(f, Pow2(e - 24), S);
    assert Magnitude(w) == t * S == S * t;
    DivModBy(Magnitude(w), S, t, 0);
  }

  /** The significand that line 405 ends up with. */
  function RoundedUp(x: int, shl32: int): nat
    requires x != 0
  {
    Significand(Abs(x)) + (if TieAt25Bits(x) && shl32 != 0 then 1 else 0)
  }

  lemma {:induction false} ShortRoundTrip(x: int, w: Word)
    requires x != 0 && Abs(x) <= 0x8000_0000 && BitLength(Abs(x)) <= 24
    requires w == Pack(x < 0, Significand(Abs(x)), BitLength(Abs(x)))
    ensures Truncated(w) == x
  {
    hide Pow2, Pack, Significand, BitLength, Truncated, Magnitude, Finite, SignBit;
    var m := Abs(x);
    LengthOf32(m);
    SignificandBounds(m);
    PackValue(x < 0, Significand(m), BitLength(m));
    ShortIsExact(m);
    BitLengthBounds(m);
    Pow2Values();
    Pow2Monotone(BitLength(m), 24);
    TruncatedWhole(w, m);
  }

  /** A whole number is its own truncation. */
  lemma TruncatedWhole(w: Word, m: nat)
    requires Finite(w) && Magnitude(w) == m * Pow2(SCALE) && m < 0x8000_0000
    ensures Truncated(w) == if SignBit(w) == 1 then 0 - m else m
  {
    hide Pow2, Magnitude, Finite, SignBit;
    Pow2Positive(SCALE);
    assert m * Pow2(SCALE) == Pow2(SCALE) * m;
    DivModBy(Magnitude(w), Pow2(SCALE), m, 0);
  }

  lemma {:induction false} TieIsOdd(m: nat)
    requires BitLength(m) == 25 && m % 4 == 1
    ensures !Representable(m)
  {
    hide Pow2, BitLength;
    Pow2Values();
    TieSignificand(m);
    DivMod2(m, m / 2, 1);
  }

  lemma {:induction false} MultipleIsExact(m: nat, q: nat, f: nat)
    requires q > 0
    ensures f * q == m ==> m % q == 0
    ensures m % q == 0 ==> RoundEven(m, q) * q == m
  {
    assert m == q * (m / q) + m % q;
    assert q * (m / q) == (m / q) * q;
    if f * q == m {
      assert f * q == q * f;
      DivModBy(m, q, f, 0);
    }
  }

  /** The rounded significand is the integer itself exactly when the integer is representable. */
  lemma {:induction false} RoundedIsExact(x: int, shl32: int)
    requires x != 0 && Abs(x) <= 0x8000_0000 && BitLength(Abs(x)) > 24
    ensures Pow2(BitLength(Abs(x)) - 24) > 0
    ensures RoundedUp(x, shl32) * Pow2(BitLength(Abs(x)) - 24) == Abs(x) <==> Representable(Abs(x))
    ensures 0x80_0000 <= RoundedUp(x, shl32) <= 0x100_0000
  {
    hide Pow2, RoundEven, BitLength;
    var m := Abs(x);
    Pow2Positive(BitLength(m) - 24);
    SignificandBounds(m);
    MultipleIsExact(m, Pow2(BitLength(m) - 24), RoundedUp(x, shl32));
    if TieAt25Bits(x) {
      TieSignificand(m);
      TieIsOdd(m);
    }
  }

  /** float_f2i(float_i2f(x)) is x exactly when x needs no more than 24 significant bits, whatever
      the shift by 32 yields. */
  lemma {:induction false} RoundTrip(x: int, shl32: int, w: Word)
    requires -0x8000_0000 <= x < 0x8000_0000
    requires x == 0 ==> w == 0
    requires x != 0 ==> w == Pack(x < 0, RoundedUp(x, shl32), BitLength(Abs(x)))
    ensures Truncated(w) == x <==> Representable(Abs(x))
  {
    hide Pow2, Pack, Truncated, Significand;
    if x == 0 {
      ZeroWord();
    } else if BitLength(Abs(x)) <= 24 {
      ShortRoundTrip(x, w);
    } else {
      LengthOf32(Abs(x));
      RoundedIsExact(x, shl32);
      TruncatedPack(x < 0, RoundedUp(x, shl32), BitLength(Abs(x)));
      if Abs(x) == 0x8000_0000 { MinIsRepresentable(); }
    }
  }

  lemma {:induction false} ZeroWord()
    ensures Truncated(0) == 0
  {
    DivModBy(0, 0x80_0000, 0, 0);
    TruncatedSubnormal(0);
  }

  lemma {:induction false} MinIsRepresentable()
    ensures Representable(0x8000_0000)
  {
    hide Pow2;
    Pow2Values();
    BitLengthUnique(0x8000_0000, 32);
    DivModBy(0x8000_0000, 0x100, 0x80_0000, 0);
  }

  // ---------- float_twice (lines 363-376) ----------

  /** Doubles the value exactly; an argument too large to double gives infinity of the same sign,
      and NaN and infinity are returned unchanged. */
  method FloatTwice(uf: Word) returns (r: Word)
    ensures !Finite(uf) ==> r == uf
    ensures Exponent(uf) == 254 ==> Exponent(r) == 255 && Fraction(r) == 0
    ensures Exponent(uf) < 254 ==> Finite(r) && Magnitude(r) == 2 * Magnitude(uf)
    ensures SignBit(r) == SignBit(uf)
  {
    hide Pow2, Magnitude, Exponent, Fraction, SignBit, Assembled;
    var exp, frac := Exponent(uf), Fraction(uf);
    FieldsAssemble(uf);
    if exp == 0xFF {
      return uf;
    }
    if exp == 0 {
      TopBit(frac);
      if frac / 0x40_0000 % 2 == 1 {
        exp := 1;
      }
      frac := frac * 2;
    } else {
      exp := exp + 1;
      if exp == 0xFF {
        frac := 0;
      }
    }
    frac := frac % 0x80_0000;
    AssembledFields(SignBit(uf), exp, frac);
    r := Assembled(SignBit(uf), exp, frac);
    Doubling(uf, r);
  }

  /** Lines 370-372: the bit that leaves a subnormal's fraction enters the exponent. */
  lemma {:induction false} TopBit(frac: nat)
    requires frac < 0x80_0000
    ensures frac / 0x40_0000 % 2 <= 1 && frac / 0x40_0000 % 2 * 0x80_0000 + frac * 2 % 0x80_0000 == 2 * frac
    ensures frac % 0x80_0000 == frac
  {
    var b := if frac >= 0x40_0000 then 1 else 0;
    DivModBy(frac, 0x40_0000, b, frac - b * 0x40_0000);
    DivModBy(frac * 2, 0x80_0000, b, frac * 2 - b * 0x80_0000);
    DivModBy(frac, 0x80_0000, 0, frac);
  }

  lemma {:induction false} Doubling(w: Word, v: Word)
    ensures Exponent(v) == Exponent(w) + 1 && Exponent(w) > 0 && Fraction(v) == Fraction(w) ==> Magnitude(v) == 2 * Magnitude(w)
    ensures Exponent(w) == 0 && Exponent(v) <= 1 && Exponent(v) * 0x80_0000 + Fraction(v) == 2 * Fraction(w) ==> Magnitude(v) == 2 * Magnitude(w)
  {
    if Exponent(w) > 0 && Exponent(v) == Exponent(w) + 1 {
      MulAssoc(0x80_0000 + Fraction(w), 2, Pow2(Exponent(w) - 1));
      MulAssoc(2, 0x80_0000 + Fraction(w), Pow2(Exponent(w) - 1));
    }
  }

  // ---------- howManyBits (lines 314-350) ----------

  /** `n` bits of two's complement hold `x`. */
  predicate FitsIn(x: int, n: nat) {
    n > 0 && 0 - (Pow2(n - 1) as int) <= x < Pow2(n - 1)
  }

  /** The bits of `m` above position `k`, if any, are the ones to go on with. */
  lemma {:induction false} LengthAbove(m: nat, k: nat, q: nat, r: nat)
    requires m == Pow2(k) * q + r && r < Pow2(k) && q > 0
    ensures BitLength(m) == k + BitLength(q)
    decreases k
  {
    if k > 0 {
      HalveSum(m, Pow2(k - 1), q, r);
      LengthAbove(m / 2, k - 1, q, r / 2);
    }
  }

  lemma {:induction false} HalveSum(m: nat, p: nat, q: nat, r: nat)
    requires m == (2 * p) * q + r && r < 2 * p && q > 0
    ensures m > 0 && m / 2 == p * q + r / 2 && r / 2 < p
  {
    MulAssoc(2, p, q);
    MulPositive(p, q);
    DivMod2(m, p * q + r / 2, r % 2);
  }

  lemma {:induction false} FitsExactly(x: int)
    ensures var y := if x < 0 then -x - 1 else x;
            FitsIn(x, BitLength(y) + 1) && !FitsIn(x, BitLength(y))
  {
    hide Pow2;
    var y := if x < 0 then -x - 1 else x;
    Pow2Values();
    if y > 0 { BitLengthBounds(y); }
  }

  /** One step of the search (lines 336-349): if there are bits above position `k`, counts `k` and
      goes on with those, otherwise with the ones below. */
  method Narrow(y0: nat, n0: nat, k: nat, p: nat) returns (y: nat, n: nat)
    requires p == Pow2(k) && 0 < p && y0 < p * p
    ensures y < p && n + BitLength(y) == n0 + BitLength(y0)
  {
    hide Pow2, BitLength;
    y, n := y0, n0;
    var q := y / p;
    assert y == p * q + y % p;
    MulGap(p, q, p);
    if q != 0 {
      LengthAbove(y, k, q, y % p);
      y := q;
      n := n + k;
    }
  }

  /** The fewest bits of two's complement that hold `x`. */
  method HowManyBits(x: int) returns (n: nat)
    requires -0x8000_0000 <= x < 0x8000_0000
    ensures n > 0 && FitsIn(x, n) && !FitsIn(x, n - 1)
  {
    hide Pow2, BitLength, FitsIn;
    var y: nat := if x < 0 then -x - 1 else x;
    FitsExactly(x);
    Pow2Small();
    y, n := Narrow(y, 0, 16, 0x1_0000);
    y, n := Narrow(y, n, 8, 0x100);
    y, n := Narrow(y, n, 4, 0x10);
    y, n := Narrow(y, n, 2, 4);
    y, n := Narrow(y, n, 1, 2);
    LengthOfBit(y);
    n := n + y + 1;
  }

  lemma {:induction false} Pow2Small()
    ensures Pow2(1) == 2 && Pow2(2) == 4 && Pow2(4) == 0x10 && Pow2(8) == 0x100 && Pow2(16) == 0x1_0000
  {
    assert Pow2(8) == 0x100;
    assert Pow2(16) == 0x1_0000;
  }

  lemma {:induction false} LengthOfBit(y: nat)
    requires y < 2
    ensures BitLength(y) == y
  {
    assert y == 1 ==> BitLength(1) == 1 + BitLength(0);
  }
}
