/** dav2_xf.h: real numbers as a mantissa and a shift, with the error of every operation. */
module Xf {
  import opened Bits

  // ---------------------------------------------------------------- the numbers

  /** value = m * 2^-sh */
  datatype Xf = Xf(m: int, sh: int)

  const ZERO := Xf(0, 0)
  const HALF_RANGE: int := 0x4000_0000

  predicate Normal(a: Xf) { a.m == 0 || HALF_RANGE <= Abs(a.m) < 2 * HALF_RANGE }

  ghost function Val(a: Xf): real { Shift(a.m as real, -a.sh) }

  predicate Int64(v: int) { -0x8000_0000_0000_0000 <= v < 0x8000_0000_0000_0000 }

  function Signed(v: int, a: int): int { if v < 0 then -a else a }

  /** The mantissa of a magnitude and how far it was shifted down. */
  function NormAbs(a: nat): (int, int)
    requires 0 < a < 0x1_0000_0000_0000_0000
  {
    Shifted(a, 33 - (Clz64(a) as int))                    // bits(a) - 31
  }

  function Shifted(a: nat, s: int): (int, int) {
    if s > 0 then
      var b := Right(a + Pow2(s - 1), s);
      if b / 0x8000_0000 != 0 then (b / 2, s + 1)         // rounding carried to 2^31
      else (b, s)
    else (Left(a, -s), s)
  }

  /** xf_norm: v * 2^-sh with a mantissa of 31 bits. */
  function Norm(v: int, sh: int): Xf
    requires Int64(v)
  {
    if v == 0 then ZERO
    else var (b, s) := NormAbs(Abs(v)); Xf(Signed(v, b), sh - s)
  }

  /** r is v * 2^-sh, exactly, or rounded to a whole unit of r with ties away from zero. */
  predicate RoundsTo(v: int, sh: int, r: Xf) {
    (v < 0 ==> r.m <= 0) && (v >= 0 ==> r.m >= 0) &&
    if sh <= r.sh then r.m == Left(v, r.sh - sh) else Nearest(Abs(v), sh - r.sh, Abs(r.m))
  }

  /** The shift brings a into the range of a mantissa. */
  lemma ShiftDown(a: nat, s: nat)
    requires 0 < s && Pow2(s + 30) <= a < Pow2(s + 31)
    ensures var b := Right(a + Pow2(s - 1), s); Nearest(a, s, b) && HALF_RANGE <= b <= 2 * HALF_RANGE
  {
    var b := Right(a + Pow2(s - 1), s);
    RightNearest(a, s);
    Pow2Table();
    LeftPow(30, s);
    LeftPow(31, s);
    LeftStep(b, s);
    LeftStep(2 * HALF_RANGE, s);
    LeftMono(b + 1, HALF_RANGE, s);
    LeftMono(2 * HALF_RANGE + 1, b, s);
  }

  lemma ShiftUp(a: nat, s: nat)
    requires s <= 30 && Pow2(30 - s) <= a < Pow2(31 - s)
    ensures HALF_RANGE <= Left(a, s) < 2 * HALF_RANGE
  {
    Pow2Table();
    LeftPow(30 - s, s);
    LeftPow(31 - s, s);
    LeftMono(Pow2(30 - s), a, s);
    LeftMono(a, Pow2(31 - s), s);
  }

  /** b is a mantissa for a, shifted down by s. */
  ghost predicate Mantissa(a: nat, b: int, s: int) {
    (HALF_RANGE <= b < 2 * HALF_RANGE && if s > 0 then Nearest(a, s, b) else b == Left(a, -s)) == true  // kept whole in proofs
  }

  lemma ShiftedIs(a: nat, n: nat)
    requires Leads(a, n, 64)
    ensures var (b, s) := Shifted(a, 33 - (n as int)); Mantissa(a, b, s)
  {
    var s := 33 - (n as int);
    if s > 0 {
      ShiftDown(a, s);
      Carry(a, s, Right(a + Pow2(s - 1), s));
    } else {
      ShiftUp(a, -s);
    }
  }

  lemma Carry(a: int, k: nat, b: int)
    requires Nearest(a, k, b)
    ensures b % 2 == 0 ==> Nearest(a, k + 1, b / 2)
  {
    LeftTwice(b / 2, k);
  }

  lemma NormAbsIs(a: nat)
    requires 0 < a < 0x1_0000_0000_0000_0000
    ensures var (b, s) := NormAbs(a); Mantissa(a, b, s)
  {
    hide Shifted, Mantissa, Leads, Clz64;
    Clz64Is(a);
    ShiftedIs(a, Clz64(a));
  }

  /** xf_norm gives a normalised number and rounds once, to nearest with ties away from zero. */
  lemma NormRounds(v: int, sh: int)
    requires Int64(v)
    ensures var r := Norm(v, sh); Normal(r) && (v != 0 ==> RoundsTo(v, sh, r)) && (r.m == 0 <==> v == 0)
  {
    hide NormAbs, Nearest, Left;
    if v != 0 {
      NormAbsIs(Abs(v));
      var (b, s) := NormAbs(Abs(v));
      if s <= 0 { LeftNegated(Abs(v), -s); }
    }
  }

  // ---------------------------------------------------------------- errors as reals

  /** k units of the last place of r. */
  ghost function Units(k: real, r: Xf): real { Shift(k, -r.sh) }

  /** Rounding to r costs at most half a unit of r. */
  lemma RoundsToWithin(c: Xf, r: Xf)
    requires RoundsTo(c.m, c.sh, r)
    ensures Dist(Val(r), Val(c)) <= Units(0.5, r)
  {
    if c.sh <= r.sh {
      ShiftInt(c.m, r.sh - c.sh, -r.sh);
      ShiftZero(-r.sh);
      ShiftMono(0.0, 0.5, -r.sh);
    } else {
      var j := c.sh - r.sh;
      ShiftInt(r.m, j, -c.sh);
      LeftNegated(Abs(r.m), j);
      HalfUnit(j, -c.sh);
      ShiftDist(Left(r.m, j) as real, c.m as real, Pow2(j) as real / 2.0, -c.sh);
    }
  }

  lemma ZeroWithin(c: Xf, r: Xf)
    requires c.m == 0 && r == ZERO
    ensures Dist(Val(r), Val(c)) <= Units(0.5, r)
  {
    ZeroVal(c);
    assert Val(r) == 0.0 && Units(0.5, r) == 0.5;
  }

  lemma ZeroVal(z: Xf)
    requires z.m == 0
    ensures Val(z) == 0.0
  {
    ShiftZero(-z.sh);
  }

  /** Normalising rounds once: the result is within half a unit. */
  lemma NormWithin(c: Xf, r: Xf)
    requires Int64(c.m) && r == Norm(c.m, c.sh)
    ensures Normal(r) && Dist(Val(r), Val(c)) <= Units(0.5, r)
  {
    NormRounds(c.m, c.sh);
    if c.m != 0 {
      RoundsToWithin(c, r);
    } else {
      ZeroWithin(c, r);
    }
  }

  // ---------------------------------------------------------------- multiplication

  lemma ProductFits(m: int, n: int)
    requires Abs(m) < 2 * HALF_RANGE && Abs(n) < 2 * HALF_RANGE
    ensures Int64(m * n) && (m * n == 0 <==> m == 0 || n == 0)
  {
    AbsTimes(m, n);
    MulLe(Abs(m), 2 * HALF_RANGE - 1, Abs(n));
    if m != 0 && n != 0 { MulLe(1, Abs(m), Abs(n)); }
  }

  lemma MulLe(a: int, b: int, p: int)
    requires a <= b && p >= 0
    ensures a * p <= b * p
  {}

  lemma AbsTimes(m: int, p: int)
    ensures Abs(m * p) == Abs(m) * Abs(p)
  {}

  /** xf_mul */
  function Mul(a: Xf, b: Xf): Xf
    requires Normal(a) && Normal(b)
  {
    if a.m == 0 || b.m == 0 then ZERO
    else ProductFits(a.m, b.m); Norm(a.m * b.m, a.sh + b.sh)
  }

  /** The test for zero is a shortcut. */
  lemma MulIsNorm(a: Xf, b: Xf, v: int)
    requires Normal(a) && Normal(b) && v == a.m * b.m
    ensures Int64(v) && Mul(a, b) == Norm(v, a.sh + b.sh) && (v == 0 <==> a.m == 0 || b.m == 0)
  {
    ProductFits(a.m, b.m);
  }

  lemma MulZero(a: Xf, b: Xf)
    requires Normal(a) && Normal(b)
    ensures Mul(a, b).m == 0 <==> a.m == 0 || b.m == 0
  {
    hide Mul, Norm, Int64, Normal, RoundsTo;
    MulIsNorm(a, b, a.m * b.m);
    NormRounds(a.m * b.m, a.sh + b.sh);
  }

  /** The exact product, not normalised. */
  lemma Product(a: Xf, b: Xf) returns (c: Xf)
    ensures c == Xf(a.m * b.m, a.sh + b.sh) && Val(c) == Times(Val(a), Val(b))
  {
    hide Shift, Times;
    c := Xf(a.m * b.m, a.sh + b.sh);
    RealProduct(a.m, b.m);
    ProductVals(a.m as real, b.m as real, c.m as real, -a.sh, -b.sh);
  }

  lemma ProductVals(x: real, y: real, v: real, s: int, t: int)
    requires v == x * y
    ensures Shift(v, s + t) == Times(Shift(x, s), Shift(y, t))
  {
    hide Shift;
    ShiftProduct(x, y, s, t);
  }

  lemma RealProduct(m: int, n: int)
    ensures (m * n) as real == m as real * n as real
  {}

  lemma MulRounds(a: Xf, b: Xf, c: Xf)
    requires Normal(a) && Normal(b) && c == Xf(a.m * b.m, a.sh + b.sh)
    ensures var r := Mul(a, b); Normal(r) && Dist(Val(r), Val(c)) <= Units(0.5, r)
  {
    MulIsNorm(a, b, c.m);
    NormWithin(c, Mul(a, b));
  }

  /** A product is rounded once. */
  lemma MulWithin(a: Xf, b: Xf, r: Xf)
    requires Normal(a) && Normal(b) && r == Mul(a, b)
    ensures Normal(r) && Dist(Val(r), Times(Val(a), Val(b))) <= Units(0.5, r)
    ensures r.m == 0 <==> a.m == 0 || b.m == 0
  {
    hide Mul, Times, Val, Units, Normal, Dist;
    MulZero(a, b);
    var c := Product(a, b);
    MulRounds(a, b, c);
  }

  // ---------------------------------------------------------------- addition

  /** The smaller addend aligned to 31 bits below the larger one, d places down. */
  function Aligned(m: int, d: nat): int {
    if d <= 31 then Left(m, 31 - d)
    else if d - 31 < 40 then Signed(m, Right(Abs(m) + Pow2(d - 32), d - 31))
    else 0
  }

  function Hi(a: Xf, b: Xf): Xf { if a.sh <= b.sh then a else b }
  function Lo(a: Xf, b: Xf): Xf { if a.sh <= b.sh then b else a }

  /** The sum in units of 2^-31 of the larger one's. */
  function Total(hi: Xf, lo: Xf): (v: int)
    requires Normal(hi) && Normal(lo) && hi.m != 0 && lo.m != 0 && hi.sh <= lo.sh
    ensures Int64(v)
  {
    AlignedFits(lo.m, lo.sh - hi.sh);
    hi.m * 0x8000_0000 + Aligned(lo.m, lo.sh - hi.sh)
  }

  /** xf_add */
  function Add(a: Xf, b: Xf): Xf
    requires Normal(a) && Normal(b)
  {
    if a.m == 0 then b else if b.m == 0 then a
    else
      Norm(Total(Hi(a, b), Lo(a, b)), Hi(a, b).sh + 31)
  }

  /** The sum fits 64 bits. */
  lemma AlignedFits(m: int, d: nat)
    requires HALF_RANGE <= Abs(m) < 2 * HALF_RANGE
    ensures Abs(Aligned(m, d)) < 2 * HALF_RANGE * 0x8000_0000
  {
    if d <= 31 {
      LeftNegated(Abs(m), 31 - d);
      LeftBound(Abs(m), 31 - d);
    } else if d < 71 {
      QuotientBound(Abs(m), d - 31);
    }
  }

  lemma LeftBound(a: nat, k: nat)
    requires a < 2 * HALF_RANGE && k <= 31
    ensures 0 <= Left(a, k) < 2 * HALF_RANGE * 0x8000_0000
  {
    Pow2Table();
    LeftPow(31, k);
    LeftMono(a, Pow2(31), k);
    Pow2Mono(31 + k, 62);
    Pow2Add(31, 31);
  }

  /** A mantissa shifted down with rounding is no larger than before. */
  lemma QuotientBound(a: nat, k: nat)
    requires HALF_RANGE <= a < 2 * HALF_RANGE && 0 < k <= 40
    ensures Right(a + Pow2(k - 1), k) < 2 * HALF_RANGE * 0x8000_0000
  {
    RightLe(a + Pow2(k - 1), k);
    Pow2Mono(k - 1, 40);
    Pow2Table();
    Pow2Add(32, 8);
  }

  /** Aligning rounds the smaller addend to the unit of the sum. */
  lemma AlignedRounds(lo: Xf, d: nat)
    requires HALF_RANGE <= Abs(lo.m) < 2 * HALF_RANGE && d > 31
    ensures RoundsTo(lo.m, lo.sh, Xf(Aligned(lo.m, d), lo.sh - d + 31))
  {
    if d < 71 {
      RightNearest(Abs(lo.m), d - 31);
    } else {
      Pow2Table();
      Pow2Add(31, 2);
      Pow2Mono(33, d - 31);
      LeftZero(d - 31);
    }
  }

  /** Aligning is exact when the addends are at most 31 places apart, and costs half a unit of the sum if not. */
  lemma AlignedWithin(lo: Xf, d: nat, c: Xf)
    requires HALF_RANGE <= Abs(lo.m) < 2 * HALF_RANGE && c == Xf(Aligned(lo.m, d), lo.sh - d + 31)
    ensures if d <= 31 then Val(c) == Val(lo) else Dist(Val(c), Val(lo)) <= Units(0.5, c)
  {
    if d <= 31 {
      ShiftInt(lo.m, 31 - d, -c.sh);
    } else {
      AlignedRounds(lo, d);
      RoundsToWithin(lo, c);
    }
  }

  /** The exact sum of two numbers with shifts 31 apart. */
  lemma Sum(hi: Xf, c: Xf) returns (t: Xf)
    requires c.sh == hi.sh + 31
    ensures t == Xf(hi.m * 0x8000_0000 + c.m, c.sh) && Val(t) == Val(hi) + Val(c)
  {
    var h := hi.m * 0x8000_0000;
    t := Xf(h + c.m, c.sh);
    assert t.m as real == h as real + c.m as real;
    ShiftSum(h as real, c.m as real, -c.sh);
    LeftTimes(hi.m, 31);
    Pow2Table();
    ShiftInt(hi.m, 31, -c.sh);
  }

  /** What xf_add adds up: the addends, with the smaller one rounded when they are far apart. */
  ghost function AddError(hi: Xf, lo: Xf): real {
    if lo.sh - hi.sh <= 31 then 0.0 else Shift(0.5, -(hi.sh + 31))
  }

  /** A sum is rounded once; an addend more than 31 places down is rounded to 2^-31 of the other's unit before that. */
  lemma AddWithin(a: Xf, b: Xf)
    requires Normal(a) && Normal(b)
    ensures var r := Add(a, b);
      Normal(r) && Dist(Val(r), Val(a) + Val(b)) <=
        (if a.m == 0 || b.m == 0 then 0.0 else Units(0.5, r) + AddError(Hi(a, b), Lo(a, b)))
  {
    if a.m == 0 {
      ZeroVal(a);
    } else if b.m == 0 {
      ZeroVal(b);
    } else {
      SumWithin(Hi(a, b), Lo(a, b), Add(a, b));
    }
  }

  lemma SumWithin(hi: Xf, lo: Xf, r: Xf)
    requires Normal(hi) && Normal(lo) && hi.m != 0 && lo.m != 0 && hi.sh <= lo.sh
    requires r == Norm(Total(hi, lo), hi.sh + 31)
    ensures Normal(r) && Dist(Val(r), Val(hi) + Val(lo)) <= Units(0.5, r) + AddError(hi, lo)
  {
    var t := TotalWithin(hi, lo);
    NormWithin(t, r);
  }

  lemma TotalWithin(hi: Xf, lo: Xf) returns (t: Xf)
    requires Normal(hi) && Normal(lo) && hi.m != 0 && lo.m != 0 && hi.sh <= lo.sh
    ensures t == Xf(Total(hi, lo), hi.sh + 31) && Dist(Val(t), Val(hi) + Val(lo)) <= AddError(hi, lo)
  {
    var d := lo.sh - hi.sh;
    var c := Xf(Aligned(lo.m, d), hi.sh + 31);
    AlignedWithin(lo, d, c);
    t := Sum(hi, c);
  }

  // ---------------------------------------------------------------- reciprocal and division

  /** The reciprocal of a mantissa in units of 2^-61. */
  function Quotient(x: nat): nat
    requires x > 0
  {
    (0x2000_0000_0000_0000 + x / 2) / x
  }

  lemma QuotientIs(x: nat)
    requires HALF_RANGE <= x < 2 * HALF_RANGE
    ensures var q := Quotient(x); HALF_RANGE < q <= 2 * HALF_RANGE && Abs(q * x - 0x2000_0000_0000_0000) <= HALF_RANGE
  {
    var q := Quotient(x);
    assert q * x <= 0x2000_0000_0000_0000 + x / 2 < (q + 1) * x;
    if q <= HALF_RANGE { MulLe(q + 1, HALF_RANGE + 1, x); }
    if q > 2 * HALF_RANGE { MulLe(2 * HALF_RANGE + 1, q, x); }
  }

  /** xf_recip, for a != 0 */
  function Recip(a: Xf): Xf
    requires Normal(a) && a.m != 0
  {
    QuotientIs(Abs(a.m));
    var r := Norm(Quotient(Abs(a.m)), 61 - a.sh);
    if a.m < 0 then Xf(-r.m, r.sh) else r
  }

  /** Numbers of 31 bits are mantissas already. */
  lemma NormMantissa(q: nat, sh: int)
    requires HALF_RANGE <= q <= 2 * HALF_RANGE
    ensures Norm(q, sh) == if q == 2 * HALF_RANGE then Xf(HALF_RANGE, sh - 1) else Xf(q, sh)
  {
    Pow2Table();
    Clz64Is(q);
    LeadsUnique(q, Clz64(q), if q == 2 * HALF_RANGE then 32 else 33, 64);
    assert Pow2(0) == 1 && Left(q, 0) == q;
    assert Right(q + 1, 1) == (q + 1) / 2;
  }

  lemma RecipExact(a: Xf, c: Xf)
    requires Normal(a) && a.m != 0 && c == Xf(Signed(a.m, Quotient(Abs(a.m))), 61 - a.sh)
    ensures var r := Recip(a); Normal(r) && r.m != 0 && Val(r) == Val(c)
  {
    var q := Quotient(Abs(a.m));
    QuotientIs(Abs(a.m));
    NormMantissa(q, 61 - a.sh);
    if q == 2 * HALF_RANGE {
      var m := Signed(a.m, HALF_RANGE);
      assert Left(m, 1) == 2 * m;
      ShiftInt(m, 1, a.sh - 61);
    }
  }

  lemma SignedProduct(m: int, q: nat)
    ensures Signed(m, q) * m == q * Abs(m)
  {}

  /** 2^30 and 2^61 as reals, shifted by -61. */
  lemma Units61()
    ensures Shift(HALF_RANGE as real, -61) == Shift(1.0, -31) && Shift(0x2000_0000_0000_0000 as real, -61) == 1.0
  {
    OneLeft();
    ShiftInt(1, 61, -61);
    ShiftInt(1, 30, -61);
    assert Shift(1.0, 0) == 1.0;
  }

  lemma OneLeft()
    ensures Left(1, 30) == HALF_RANGE && Left(1, 61) == 0x2000_0000_0000_0000
  {
    Pow2Table();
    Pow2Add(30, 31);
    LeftPow(0, 61);
    LeftPow(0, 30);
  }

  lemma QuotientNear(p: int)
    requires Abs(p - 0x2000_0000_0000_0000) <= HALF_RANGE
    ensures Dist(Shift(p as real, -61), 1.0) <= Shift(1.0, -31)
  {
    hide Shift;
    Units61();
    ShiftDist(p as real, 0x2000_0000_0000_0000 as real, HALF_RANGE as real, -61);
  }

  lemma RecipProduct(a: Xf, c: Xf, x: nat, q: nat)
    requires x == Abs(a.m) && c == Xf(Signed(a.m, q), 61 - a.sh)
    ensures Times(Val(c), Val(a)) == Shift((q * x) as real, -61)
  {
    hide Shift, Times, Signed;
    var t := Product(c, a);
    SignedProduct(a.m, q);
  }

  lemma RecipNear(a: Xf, c: Xf, q: nat, r: Xf)
    requires c == Xf(Signed(a.m, q), 61 - a.sh) && Val(r) == Val(c)
    requires Abs(q * Abs(a.m) - 0x2000_0000_0000_0000) <= HALF_RANGE
    ensures Dist(Times(Val(r), Val(a)), 1.0) <= Shift(1.0, -31)
  {
    hide Shift, Times, Signed, Val, Dist;
    RecipProduct(a, c, Abs(a.m), q);
    QuotientNear(q * Abs(a.m));
  }

  /** A reciprocal times the number is within 2^-31 of one. */
  lemma RecipWithin(a: Xf, r: Xf)
    requires Normal(a) && a.m != 0 && r == Recip(a)
    ensures Normal(r) && r.m != 0 && Dist(Times(Val(r), Val(a)), 1.0) <= Shift(1.0, -31)
  {
    var q := Quotient(Abs(a.m));
    var c := Xf(Signed(a.m, q), 61 - a.sh);
    RecipExact(a, c);
    QuotientIs(Abs(a.m));
    RecipNear(a, c, q, r);
  }

  /** xf_div, for b != 0 */
  function Div(a: Xf, b: Xf): Xf
    requires Normal(a) && Normal(b) && b.m != 0
  {
    RecipWithin(b, Recip(b));
    Mul(a, Recip(b))
  }

  /** Half a unit is at most 2^-31 of a normalised number. */
  lemma HalfUnitSmall(r: Xf)
    requires Normal(r) && r.m != 0
    ensures Units(0.5, r) <= Shift(Mag(Val(r)), -31)
  {
    ShiftMag(r.m as real, -r.sh);
    ShiftShift(Mag(r.m as real), -r.sh, -31);
    HalfRangeIs(-r.sh);
    ShiftMono(Mag(r.m as real), HALF_RANGE as real, -r.sh - 31);
  }

  lemma HalfRangeIs(k: int)
    ensures Shift(HALF_RANGE as real, k - 31) == Shift(0.5, k)
  {
    Pow2Table();
    LeftPow(0, 30);
    ShiftInt(1, 30, k - 31);
    ShiftStep(0.5, k - 1);
  }

  /** The product p of the quotient r and the divisor b misses the dividend a by two parts. */
  lemma TwoParts(r: real, a: real, i: real, b: real, p: real, d: real, f: real, e: real, g: real)
    requires p == r * b && d == r - a * i && f == i * b - 1.0 && e == d * b && g == f * a
    ensures p - a == e + g
  {
    var v, w := a * i, i * b;
    var t := v * b;
    assert t == w * a;
    assert e == p - t;
    assert g == w * a - a;
  }

  /** An error d in the product and one f in the reciprocal add up. */
  lemma QuotientError(r: real, a: real, b: real, p: real, d: real, f: real, e: real, g: real, k: int)
    requires p == r * b && e == d * b && g == f * a && p - a == e + g
    requires Mag(d) <= Shift(Mag(r), k) && Mag(f) <= Shift(1.0, k)
    ensures Dist(p, a) <= Shift(Mag(a), k) + Shift(Mag(p), k)
  {
    MagScale(d, b, r, e, p, k);
    MagScale(f, a, 1.0, g, a, k);
  }

  lemma QuotientVals(r: Xf, a: real, i: real, b: real, p: real)
    requires Normal(r) && r.m != 0 && p == Times(Val(r), b)
    requires Dist(Val(r), Times(a, i)) <= Units(0.5, r) && Dist(Times(i, b), 1.0) <= Shift(1.0, -31)
    ensures Dist(p, a) <= Shift(Mag(a), -31) + Shift(Mag(p), -31)
  {
    HalfUnitSmall(r);
    var d, f := Val(r) - a * i, i * b - 1.0;
    TwoParts(Val(r), a, i, b, p, d, f, d * b, f * a);
    QuotientError(Val(r), a, b, p, d, f, d * b, f * a, -31);
  }

  lemma ZeroQuotient(r: real, a: real, b: real, p: real)
    requires r == 0.0 && a == 0.0 && p == Times(r, b)
    ensures Dist(p, a) <= Shift(Mag(a), -31) + Shift(Mag(p), -31)
  {
    ShiftZero(-31);
  }

  lemma NearQuotient(r: Xf, a: Xf, i: real, b: real, p: real)
    requires Normal(r) && (r.m == 0 <==> a.m == 0) && p == Times(Val(r), b)
    requires Dist(Val(r), Times(Val(a), i)) <= Units(0.5, r) && Dist(Times(i, b), 1.0) <= Shift(1.0, -31)
    ensures Dist(p, Val(a)) <= Shift(Mag(Val(a)), -31) + Shift(Mag(p), -31)
  {
    if a.m == 0 {
      ZeroVal(a);
      ZeroVal(r);
      ZeroQuotient(Val(r), Val(a), b, p);
    } else {
      QuotientVals(r, Val(a), i, b, p);
    }
  }

  /** Multiplying by a reciprocal divides. */
  lemma MulByReciprocal(a: Xf, i: Xf, b: real, r: Xf)
    requires Normal(a) && Normal(i) && i.m != 0 && r == Mul(a, i) && Dist(Times(Val(i), b), 1.0) <= Shift(1.0, -31)
    ensures Normal(r) && Dist(Times(Val(r), b), Val(a)) <= Shift(Mag(Val(a)), -31) + Shift(Mag(Times(Val(r), b)), -31)
  {
    MulWithin(a, i, r);
    NearQuotient(r, a, Val(i), b, Times(Val(r), b));
  }

  /** The quotient times the divisor is the dividend, up to 2^-31 of the dividend and of the product. */
  lemma DivWithin(a: Xf, b: Xf, r: Xf)
    requires Normal(a) && Normal(b) && b.m != 0 && r == Div(a, b)
    ensures Normal(r) && Dist(Times(Val(r), Val(b)), Val(a)) <= Shift(Mag(Val(a)), -31) + Shift(Mag(Times(Val(r), Val(b))), -31)
  {
    RecipWithin(b, Recip(b));
    MulByReciprocal(a, Recip(b), Val(b), r);
  }

  // ---------------------------------------------------------------- comparison and rounding to an integer

  /** xf_cmp_abs */
  function CmpAbs(a: Xf, b: Xf): int {
    if a.m == 0 then if b.m == 0 then 0 else -1
    else if b.m == 0 then 1
    else if a.sh != b.sh then if a.sh < b.sh then 1 else -1
    else
      var x, y := Abs(a.m), Abs(b.m);
      (if x > y then 1 else 0) - (if x < y then 1 else 0)
  }

  /** A smaller shift is a larger magnitude. */
  lemma LargerShift(a: Xf, b: Xf)
    requires Normal(a) && Normal(b) && a.m != 0 && a.sh < b.sh
    ensures Mag(Val(a)) > Mag(Val(b))
  {
    hide Shift, Left;
    MagVal(a);
    MagVal(b);
    var j := b.sh - a.sh;
    ShiftInt(Abs(a.m), j, -b.sh);
    DoubledAtLeast(Abs(a.m), j);
    ShiftMono(Abs(b.m) as real, Left(Abs(a.m), j) as real, -b.sh);
  }

  lemma MagVal(a: Xf)
    ensures Mag(Val(a)) == Shift(Abs(a.m) as real, -a.sh)
  {
    hide Shift;
    ShiftMag(a.m as real, -a.sh);
  }

  lemma DoubledAtLeast(a: nat, j: nat)
    requires j > 0
    ensures Left(a, j) >= 2 * a
  {
    LeftGrows(a, 1, j);
  }

  lemma {:induction false} LeftGrows(a: nat, i: nat, j: nat)
    requires i <= j
    ensures Left(a, i) <= Left(a, j)
  {
    if i < j { LeftGrows(a, i, j - 1); }
  }

  /** xf_cmp_abs orders by true magnitude. */
  lemma CmpAbsOrders(a: Xf, b: Xf)
    requires Normal(a) && Normal(b)
    ensures CmpAbs(a, b) > 0 <==> Mag(Val(a)) > Mag(Val(b))
    ensures CmpAbs(a, b) == 0 <==> Mag(Val(a)) == Mag(Val(b))
    ensures CmpAbs(a, b) in {-1, 0, 1}
  {
    if a.m == 0 || b.m == 0 {
      ZeroOrder(a);
      ZeroOrder(b);
    } else if a.sh < b.sh {
      LargerShift(a, b);
    } else if b.sh < a.sh {
      LargerShift(b, a);
    } else {
      ShiftMag(a.m as real, -a.sh);
      ShiftMag(b.m as real, -b.sh);
      ShiftMono(Mag(a.m as real), Mag(b.m as real), -a.sh);
      ShiftMono(Mag(b.m as real), Mag(a.m as real), -a.sh);
    }
  }

  lemma ZeroOrder(a: Xf)
    ensures a.m == 0 <==> Val(a) == 0.0
  {
    ShiftZero(-a.sh);
    ShiftMono(a.m as real, 0.0, -a.sh);
  }

  /** xf_round: a * 2^k as an integer. */
  function Round(a: Xf, k: int): int {
    var s := a.sh - k;
    if a.m == 0 || s > 62 then 0
    else if s <= 0 then Left(a.m, if -s > 32 then 32 else -s)
    else Signed(a.m, Right(Abs(a.m) + Pow2(s - 1), s))
  }

  /** n is x rounded to nearest, ties away from zero. */
  ghost predicate Rounded(x: real, n: int) {
    (x < 0.0 ==> n <= 0) && (x >= 0.0 ==> n >= 0) && -0.5 <= Mag(x) - Mag(n as real) < 0.5
  }

  lemma RoundedIs(a: Xf, k: int, n: int, e: real)
    requires (a.m < 0 ==> n <= 0) && (a.m >= 0 ==> n >= 0)
    ensures Rounded(Shift(a.m as real, k - a.sh), n) <==> -0.5 <= Shift(Abs(a.m) as real, k - a.sh) - Abs(n) as real < 0.5
  {
    ShiftMag(a.m as real, k - a.sh);
    ShiftZero(k - a.sh);
    ShiftMono(a.m as real, 0.0, k - a.sh);
  }

  /** Nearest in integers is nearest in reals. */
  lemma NearestRounded(m: nat, s: int, b: nat)
    requires s >= 0
    requires Nearest(m, s, b)
    ensures -0.5 <= Shift(m as real, -s) - b as real < 0.5
  {
    var x := Left(b, s);
    var h := Pow2(s) as real / 2.0;
    ShiftInt(b, s, -s);
    HalfUnit(s, -s);
    ShiftSum(x as real, h, -s);
    ShiftSum(m as real, h, -s);
    ShiftMono(m as real + h, x as real, -s);
    ShiftMono(m as real, x as real + h, -s);
  }

  /** Below half a unit: the result is zero. */
  lemma FarDown(m: nat, s: nat)
    requires m < 2 * HALF_RANGE && s > 62
    ensures Nearest(m, s, 0)
  {
    Pow2Table();
    Pow2Mono(32, s);
    LeftZero(s);
  }

  /** xf_round rounds to nearest with ties away from zero, except that it never shifts up by more than 32. */
  lemma RoundIsRounded(a: Xf, k: int)
    requires Normal(a)
    ensures Rounded(Shift(a.m as real, k - a.sh), Round(a, k)) <==> a.m == 0 || k - a.sh <= 32
  {
    var s, n := a.sh - k, Round(a, k);
    RoundSign(a, k);
    RoundedIs(a, k, n, 0.0);
    if a.m == 0 {
      ShiftZero(-s);
    } else if s > 0 {
      if s > 62 { FarDown(Abs(a.m), s); } else { RightNearest(Abs(a.m), s); }
      NearestRounded(Abs(a.m), s, Abs(n));
    } else {
      ShiftedUp(a.m, -s, n);
    }
  }

  lemma RoundSign(a: Xf, k: int)
    ensures var n := Round(a, k); (a.m < 0 ==> n <= 0) && (a.m >= 0 ==> n >= 0)
  {
    var s := a.sh - k;
    if s <= 0 { LeftNegated(a.m, if -s > 32 then 32 else -s); }
  }

  lemma ShiftedUp(m: int, j: nat, n: int)
    requires HALF_RANGE <= Abs(m) && n == Left(m, if j > 32 then 32 else j)
    ensures -0.5 <= Shift(Abs(m) as real, j) - Abs(n) as real < 0.5 <==> j <= 32
  {
    var x := Abs(m);
    LeftNegated(m, if j > 32 then 32 else j);
    ShiftInt(x, j, 0);
    if j > 32 {
      LeftGrows(x, 33, j);
      LeftGrows(x, 0, 32);
    }
  }

  // ---------------------------------------------------------------- exact cases of xf_norm

  /** Numbers of at most 31 bits are not rounded. */
  lemma NormExact(c: Xf)
    requires 0 < c.m < 2 * HALF_RANGE
    ensures var r := Norm(c.m, c.sh); Normal(r) && r.m > 0 && Val(r) == Val(c)
  {
    hide Shift, NormAbs;
    var r := Norm(c.m, c.sh);
    NormRounds(c.m, c.sh);
    ShortShift(c.m);
    ShiftInt(c.m, r.sh - c.sh, -r.sh);
  }

  lemma ShortShift(a: nat)
    requires 0 < a < 2 * HALF_RANGE
    ensures NormAbs(a).1 <= 0
  {
    Pow2Table();
    Clz64Is(a);
    LeadsAtLeast(a, Clz64(a), 64, 33);
  }
}
