/** xf_rsqrt of dav2_xf.h: five Newton steps on integers, with a proved error. */
module XfRsqrt {
  import opened Bits
  import opened Words
  import opened Xf

  const ONE: int := 0x4000_0000
  const EPS: real := 1.0 / 1073741824.0

  // ---------------------------------------------------------------- one exact step, in reals

  /** How far u is from 1 / sqrt(x). */
  ghost function Gap(x: real, u: real): real { 1.0 - x * u * u }

  /** The exact Newton step. */
  ghost function Newton(x: real, u: real): real { u * (2.0 + Gap(x, u)) / 2.0 }

  /** What an exact step makes of the gap. */
  ghost function Next(d: real): real { d * d * (3.0 + d) / 4.0 }

  lemma NewtonGap(x: real, u: real)
    ensures Gap(x, Newton(x, u)) == Next(Gap(x, u))
  {
    var d := Gap(x, u);
    var n := Newton(x, u);
    assert n * n == u * u * ((2.0 + d) * (2.0 + d)) / 4.0;
    assert x * n * n == x * (n * n) == (x * u * u) * ((2.0 + d) * (2.0 + d)) / 4.0;
    assert (1.0 - d) * ((2.0 + d) * (2.0 + d)) == 4.0 - d * d * (3.0 + d);
  }

  lemma GapShift(x: real, n: real, h: real)
    ensures Gap(x, n + h) == Gap(x, n) - 2.0 * (x * n) * h - x * h * h
  {
    assert x * (n + h) * (n + h) == x * n * n + 2.0 * (x * n) * h + x * h * h;
  }

  // ---------------------------------------------------------------- one truncated step, on integers

  /** The 30-bit fixed-point number y as a real. */
  function Q30(y: int): real { y as real * EPS }

  function Square(y: nat): nat { y * y / ONE }
  function Weight(X: nat, y: nat): nat { X * Square(y) / ONE }

  /** The loop body of xf_rsqrt. */
  function Step(X: nat, y: nat): nat
    requires Weight(X, y) <= 3 * ONE
  {
    y * (3 * ONE - Weight(X, y)) / (2 * ONE)
  }

  /** Integer division by a power of two, as reals. */
  lemma Floor(a: nat, k: nat, unit: real)
    requires k > 0 && unit > 0.0
    ensures var q := a / k; q as real * (k as real * unit) <= a as real * unit < (q as real + 1.0) * (k as real * unit)
  {
    var q := a / k;
    var d := k as real * unit;
    assert q * k <= a < (q + 1) * k;
    assert q as real * k as real == (q * k) as real && (q as real + 1.0) * k as real == ((q + 1) * k) as real;
    assert q as real * d == (q as real * k as real) * unit;
    assert (q as real + 1.0) * d == ((q as real + 1.0) * k as real) * unit;
    MulMono((q * k) as real, a as real, unit);
    MulMono(a as real + 1.0, ((q + 1) * k) as real, unit);
  }

  lemma MulMono(a: real, b: real, c: real)
    requires a <= b && c >= 0.0
    ensures a * c <= b * c
  {}

  lemma Positive(a: real, b: real)
    requires a > 0.0 && b > 0.0
    ensures a * b > 0.0
  {}

  /** Floors compose: a factor x times a floored value, floored, in units of e. */
  lemma FloorTwice(x: real, a: real, s: real, w: real, e: real)
    requires x >= 0.0 && a - e < s <= a && w <= x * s < w + e
    ensures x * a - (x + 1.0) * e < w <= x * a
  {
    var p, q := x * s, x * a;
    MulMono(s, a, x);
    MulMono(a - e, s, x);
    assert p <= q && q - x * e <= p;
  }

  /** (p * q) / ONE of two 30-bit fixed-point numbers. */
  lemma ProductFloor(p: nat, q: nat, r: nat)
    requires r == p * q / ONE
    ensures Q30(r) <= Q30(p) * Q30(q) < Q30(r) + EPS
  {
    Floor(p * q, ONE, EPS * EPS);
    assert ONE as real * (EPS * EPS) == EPS;
    assert (p * q) as real == p as real * q as real;
    assert (p * q) as real * (EPS * EPS) == Q30(p) * Q30(q);
    assert (r as real + 1.0) * EPS == Q30(r) + EPS;
  }

  lemma WeightError(X: nat, y: nat)
    ensures var x, u := Q30(X), Q30(y); x * (u * u) - (x + 1.0) * EPS < Q30(Weight(X, y)) <= x * (u * u)
  {
    ProductFloor(y, y, Square(y));
    ProductFloor(X, Square(y), Weight(X, y));
    FloorTwice(Q30(X), Q30(y) * Q30(y), Q30(Square(y)), Q30(Weight(X, y)), EPS);
  }

  lemma StepFloor(y: nat, w: nat, z: nat)
    requires w <= 3 * ONE && z == y * (3 * ONE - w) / (2 * ONE)
    ensures Q30(z) <= Q30(y) * (3.0 - Q30(w)) / 2.0 < Q30(z) + EPS
  {
    var e := EPS * EPS / 2.0;
    Floor(y * (3 * ONE - w), 2 * ONE, e);
    assert (2 * ONE) as real * e == EPS;
    assert (y * (3 * ONE - w)) as real == y as real * (3 * ONE - w) as real;
    assert (3 * ONE - w) as real * EPS == 3.0 - Q30(w);
    assert (y * (3 * ONE - w)) as real * e == Q30(y) * (3.0 - Q30(w)) / 2.0;
    assert (z as real + 1.0) * EPS == Q30(z) + EPS;
  }

  lemma StepCombine(x: real, u: real, w: real, z: real, e: real)
    requires u >= 0.0 && x * (u * u) - (x + 1.0) * e < w <= x * (u * u) && z <= u * (3.0 - w) / 2.0 < z + e
    ensures Newton(x, u) - e < z <= Newton(x, u) + u * (x + 1.0) / 2.0 * e
  {
    var v, h := x * (u * u), (x + 1.0) * e;
    assert Gap(x, u) == 1.0 - v;
    assert Newton(x, u) == u * (3.0 - v) / 2.0;
    MulMono(3.0 - v, 3.0 - w, u);
    MulMono(3.0 - w, 3.0 - v + h, u);
    assert u * (3.0 - v) <= u * (3.0 - w) <= u * (3.0 - v + h);
    assert u * (3.0 - v + h) == u * (3.0 - v) + u * h;
    assert u * h / 2.0 == u * (x + 1.0) / 2.0 * e;
  }

  /** What one truncated step adds to the exact one. */
  lemma StepError(X: nat, y: nat)
    requires Weight(X, y) <= 3 * ONE
    ensures var x, u := Q30(X), Q30(y);
      Newton(x, u) - EPS < Q30(Step(X, y)) <= Newton(x, u) + u * (x + 1.0) / 2.0 * EPS
  {
    hide Weight;
    WeightError(X, y);
    StepFloor(y, Weight(X, y), Step(X, y));
    StepCombine(Q30(X), Q30(y), Q30(Weight(X, y)), Q30(Step(X, y)), EPS);
  }

  // ---------------------------------------------------------------- one step keeps closing the gap

  /** a * b <= c * b for numbers in the given order. */
  lemma Scale(a: real, b: real, c: real) returns (r: real)
    requires a <= c && b >= 0.0
    ensures r == a * b && r <= c * b
  {
    r := a * b;
    MulMono(a, c, b);
  }

  /** A root is small when its square is. */
  lemma RootBelow(p: real, s: real, b: real)
    requires s == p * p && b > 0.0 && s < b * b
    ensures p < b
  {
    if p >= b {
      MulMono(b, p, b);
      MulMono(b, p, p);
    }
  }

  /** While the gap is moderate, u is positive, and neither u nor x * u grows beyond these bounds. */
  lemma Bounded(x: real, u: real)
    requires 1.0 <= x < 4.0 && u > 0.0 && -0.412 <= Gap(x, u)
    ensures u < 1.2 && x * u < 2.4 && u * (x + 1.0) / 2.0 < 1.8
  {
    var w := u * u;
    var v := x * w;
    assert v == x * u * u && v <= 1.412;
    assert w <= v by { NotNegative(u, u); assert (x - 1.0) * w >= 0.0 by { NotNegative(x - 1.0, w); } }
    RootBelow(u, w, 1.2);
    var s := (x * u) * (x * u);
    assert s == x * v;
    var t := Scale(v, x, 1.412);
    RootBelow(x * u, s, 2.4);
    assert u * (x + 1.0) == x * u + u;
  }

  /** The exact step never passes the root. */
  lemma NewtonBelow(x: real, u: real)
    requires 1.0 <= x < 4.0 && u > 0.0 && -0.412 <= Gap(x, u) <= 0.412
    ensures var n := Newton(x, u); n > 0.0 && Gap(x, n) >= 0.0
  {
    var d, n := Gap(x, u), Newton(x, u);
    NewtonGap(x, u);
    var w := 2.0 + d;
    Positive(u, w);
    assert n == u * w / 2.0;
    var q := d * d;
    assert q >= 0.0;
    NotNegative(q, 3.0 + d);
    assert Next(d) == q * (3.0 + d) / 4.0;
  }

  /** An exact step goes up exactly from below the root, down exactly from above it, and ends at the root or below. */
  lemma NewtonMoves(x: real, u: real)
    requires u > 0.0 && Gap(x, u) >= -3.0
    ensures Newton(x, u) > u <==> Gap(x, u) > 0.0
    ensures Newton(x, u) < u <==> Gap(x, u) < 0.0
    ensures Gap(x, Newton(x, u)) >= 0.0
  {
    var d := Gap(x, u);
    NewtonGap(x, u);
    var q := d * d;
    assert q >= 0.0;
    NotNegative(q, 3.0 + d);
    StepBy(u, d, Newton(x, u));
  }

  lemma StepBy(u: real, d: real, n: real)
    requires u > 0.0 && n == u * (2.0 + d) / 2.0
    ensures (n > u <==> d > 0.0) && (n < u <==> d < 0.0)
  {
    var p := u * d;
    assert n == u + p / 2.0;
    if d > 0.0 { Positive(u, d); } else if d < 0.0 { Positive(u, -d); }
  }

  /** At x = 2 the first truncated step goes down from the chord and lands below the root; the second one goes up. */
  lemma SecondStepRises()
    ensures Start(2 * ONE) == 894784854
    ensures Weight(2 * ONE, 894784854) <= 3 * ONE && Step(2 * ONE, 894784854) == 720798909
    ensures 2 * ONE * (720798909 * 720798909) < ONE * ONE * ONE
    ensures Weight(2 * ONE, 720798909) <= 3 * ONE && Step(2 * ONE, 720798909) == 756378468
  {
    assert Square(894784854) == 745654045 && Weight(2 * ONE, 894784854) == 1491308090;
    assert Square(720798909) == 483869637 && Weight(2 * ONE, 720798909) == 967739274;
  }

  lemma BelowTwo(x: real, n: real)
    requires 1.0 <= x < 4.0 && Gap(x, n) >= 0.0
    ensures x * n < 2.0
  {
    var q := x * n * n;
    var r := Scale(q, x, 1.0);
    var s := (x * n) * (x * n);
    assert s == r;
    RootBelow(x * n, s, 2.0);
  }

  lemma ShiftSmall(p: real, x: real, h: real, e: real)
    requires 1.0 <= x < 4.0 && 0.0 < p < 2.0 && -e <= h <= 2.0 * e && 0.0 < e < 0.01
    ensures -8.5 * e <= -2.0 * p * h - x * h * h <= 8.5 * e
  {
    var a := if h < 0.0 then -h else h;
    var t := Scale(p, a, 2.0);
    NotNegative(p, a);
    assert 0.0 <= t <= 4.0 * e;
    var q := Scale(a, a, 2.0 * e);
    var q2 := Scale(a, e, 0.02);
    NotNegative(a, a);
    assert q <= (2.0 * e) * a == 2.0 * q2 <= 0.04 * e;
    var r := Scale(x, q, 4.0);
    NotNegative(x, q);
    assert 0.0 <= r <= 0.16 * e;
    assert x * h * h == r by { assert h * h == q; }
    assert p * h == t || p * h == -t;
  }

  lemma GapNear(x: real, n: real, z: real, e: real)
    requires 1.0 <= x < 4.0 && 0.0 < x * n < 2.0 && -e <= z - n <= 2.0 * e && 0.0 < e < 0.01
    ensures -8.5 * e <= Gap(x, z) - Gap(x, n) <= 8.5 * e
  {
    GapShift(x, n, z - n);
    ShiftSmall(x * n, x, z - n, e);
  }

  /** A truncated step: the gap is squared, up to eight and a half units of truncation. */
  lemma StepGap(x: real, u: real, z: real, e: real)
    requires 1.0 <= x < 4.0 && u > 0.0 && -0.412 <= Gap(x, u) <= 0.412 && 0.0 < e < 0.01
    requires Newton(x, u) - e < z <= Newton(x, u) + u * (x + 1.0) / 2.0 * e
    ensures -8.5 * e <= Gap(x, z) - Next(Gap(x, u)) <= 8.5 * e
  {
    Bounded(x, u);
    NewtonBelow(x, u);
    NewtonGap(x, u);
    StepNear(x, u * (x + 1.0) / 2.0, Newton(x, u), z, e);
  }

  lemma StepNear(x: real, c: real, n: real, z: real, e: real)
    requires 1.0 <= x < 4.0 && n > 0.0 && Gap(x, n) >= 0.0 && c < 1.8 && 0.0 < e < 0.01 && n - e < z <= n + c * e
    ensures -8.5 * e <= Gap(x, z) - Gap(x, n) <= 8.5 * e
  {
    var r := Scale(c, e, 1.8);
    Positive(x, n);
    BelowTwo(x, n);
    GapNear(x, n, z, e);
  }

  // ---------------------------------------------------------------- five steps

  /** The linear start: 1 at x = 1 and 1/2 at x = 4. */
  function Start(X: nat): int
    requires X >= ONE
  {
    ONE - (X - ONE) / 6
  }

  lemma ChordProduct(x: real, p: real)
    requires 1.0 <= x < 4.0 && 36.0 * p == x * ((7.0 - x) * (7.0 - x))
    ensures 1.0 <= p <= 1.41153
  {
    assert 36.0 * p - 36.0 == (x - 1.0) * ((4.0 - x) * (9.0 - x));
    NotNegative(4.0 - x, 9.0 - x);
    NotNegative(x - 1.0, (4.0 - x) * (9.0 - x));
    var a, b := 3.0 * x - 7.0, 28.0 - 3.0 * x;
    assert 1372.0 - 27.0 * (36.0 * p) == (a * a) * b;
    assert a * a >= 0.0;
    NotNegative(a * a, b);
  }

  lemma ChordGap(x: real, c: real)
    requires 1.0 <= x < 4.0 && 6.0 * c == 7.0 - x
    ensures -0.41153 <= Gap(x, c) <= 0.0
  {
    var p := x * c * c;
    assert 36.0 * p == x * ((6.0 * c) * (6.0 * c));
    ChordProduct(x, p);
  }

  lemma StartGap(X: nat)
    requires ONE <= X < 4 * ONE
    ensures Start(X) > 0 && -0.412 <= Gap(Q30(X), Q30(Start(X))) <= 0.0
  {
    var x, u := Q30(X), Q30(Start(X));
    var q := (X - ONE) / 6;
    assert 6 * q <= X - ONE < 6 * q + 6;
    assert Q30(X - ONE) == x - 1.0 && Q30(6 * q) == 6.0 * Q30(q) && Q30(6 * q + 6) == 6.0 * Q30(q) + 6.0 * EPS;
    assert u == 1.0 - Q30(q);
    var c := (7.0 - x) / 6.0;
    ChordGap(x, c);
    ChordNear(x, c, u);
  }

  lemma ChordNear(x: real, c: real, u: real)
    requires 1.0 <= x < 4.0 && 0.5 <= c <= 1.0 && c <= u <= c + EPS && -0.41153 <= Gap(x, c) <= 0.0
    ensures -0.412 <= Gap(x, u) <= 0.0
  {
    var h := u - c;
    GapShift(x, c, h);
    var p := x * c;
    NotNegative(x, c);
    var t := Scale(x, c, 4.0);
    NotNegative(p, h);
    var q := Scale(p, h, 4.0);
    NotNegative(h, h);
    var r := Scale(h, h, EPS);
    NotNegative(x, h * h);
    var s := Scale(x, h * h, 4.0);
    assert x * h * h == x * (h * h);
  }

  /** Where the gap lies after i steps: below in steps of squaring, above by truncation only. */
  ghost function GapBound(i: nat): real {
    if i == 1 then 0.1274 else if i == 2 then 0.0128 else if i == 3 then 0.000124 else if i == 4 then 0.00000002 else 9.0 * EPS
  }

  ghost predicate Closing(i: nat, d: real) {
    if i == 0 then -0.412 <= d <= 0.0 else -9.0 * EPS <= d <= GapBound(i)
  }

  lemma Shrink(d: real, lo: real, hi: real, b: real)
    requires -lo <= d <= hi && 0.0 <= lo <= b && 0.0 <= hi <= 0.2 && hi <= b <= 0.412
    ensures 0.0 <= Next(d) <= b * b * (3.0 + hi) / 4.0
  {
    var q := d * d;
    assert q <= b * b by {
      var a := if d < 0.0 then -d else d;
      assert q == a * a;
      var r := Scale(a, a, b);
      var s := Scale(a, b, b);
    }
    assert q >= 0.0;
    NotNegative(q, 3.0 + d);
    var t := Scale(q, 3.0 + hi, b * b);
    assert q * (3.0 + d) <= q * (3.0 + hi) by { var v := Scale(3.0 + d, q, 3.0 + hi); }
  }

  /** Each step takes the gap to the next bound. */
  lemma StepCloses(i: nat, d: real, d': real)
    requires Closing(i, d) && -8.5 * EPS <= d' - Next(d) <= 8.5 * EPS
    ensures Closing(i + 1, d')
  {
    if i == 0 {
      Shrink(d, 0.412, 0.0, 0.412);
    } else if i <= 3 {
      Shrink(d, 9.0 * EPS, GapBound(i), GapBound(i));
    } else {
      Shrink(d, 9.0 * EPS, GapBound(i), GapBound(i));
    }
  }

  // ---------------------------------------------------------------- the routine

  /** The low 32 and 64 bits, as kept by the C types. */

  /** While the gap closes, no intermediate of a step leaves its type. */
  lemma StepFits(X: nat, y: nat)
    requires ONE <= X < 4 * ONE && y > 0 && -0.412 <= Gap(Q30(X), Q30(y)) <= 0.412
    ensures y < 2 * ONE && Square(y) < 4 * ONE && Weight(X, y) <= 2 * ONE
    ensures y * y < 4 * ONE * ONE && X * Square(y) < 4 * ONE * ONE && y * (3 * ONE - Weight(X, y)) < 8 * ONE * ONE
  {
    var x, u := Q30(X), Q30(y);
    Bounded(x, u);
    WeightError(X, y);
    assert x * (u * u) == x * u * u;
    MulBound(y, y, 2 * ONE, 2 * ONE);
    MulBound(X, Square(y), 4 * ONE, 4 * ONE);
    MulBound(y, 3 * ONE - Weight(X, y), 2 * ONE, 4 * ONE);
  }

  lemma MulBound(a: nat, b: nat, c: nat, d: nat)
    requires a < c && b < d
    ensures a * b < c * d
  {
    MulLe(b, d, a);
    MulLe(a + 1, c, d);
  }

  /** The products of one pass of the loop, as they come out of the C types. */
  function MachineSquare(y: nat): nat { U32(U64(y * y) / ONE) }
  function MachineWeight(X: nat, y2: nat): nat { U32(U64(X * y2) / ONE) }
  function MachineStep(y: nat, xy2: nat): nat { U32(U64(y * U32(3 * ONE - xy2)) / (2 * ONE)) }

  /** One pass of the loop computes a step: nothing wraps. */
  lemma StepIs(X: nat, y: nat)
    requires ONE <= X < 4 * ONE && y > 0 && -0.412 <= Gap(Q30(X), Q30(y)) <= 0.412
    ensures MachineSquare(y) == Square(y) && MachineWeight(X, Square(y)) == Weight(X, y) <= 3 * ONE
    ensures MachineStep(y, Weight(X, y)) == Step(X, y)
  {
    StepFits(X, y);
    Unwrapped(y * y, ONE);
    Unwrapped(X * Square(y), ONE);
    LastProduct(y, Weight(X, y));
  }

  lemma LastProduct(y: nat, w: nat)
    requires w <= 2 * ONE && y * (3 * ONE - w) < 8 * ONE * ONE
    ensures MachineStep(y, w) == y * (3 * ONE - w) / (2 * ONE)
  {
    var v := 3 * ONE - w;
    assert U32(v) == v;
    Unwrapped(y * v, 2 * ONE);
  }

  lemma Unwrapped(p: nat, d: nat)
    requires p < 0x1_0000_0000_0000_0000 && p < d * 0x1_0000_0000 && d > 0
    ensures U32(U64(p) / d) == p / d
  {
    assert p / d * d <= p;
  }

  lemma ClosingRange(i: nat, d: real)
    requires Closing(i, d)
    ensures -0.412 <= d <= 0.412
  {}

  lemma WeightFits(X: nat, y: nat)
    requires ONE <= X < 4 * ONE && y > 0 && -0.412 <= Gap(Q30(X), Q30(y)) <= 0.412
    ensures Weight(X, y) <= 3 * ONE
  {
    StepFits(X, y);
  }

  /** What a step of the routine makes of the gap. */
  lemma StepNext(X: nat, y: nat)
    requires ONE <= X < 4 * ONE && y > 0 && -0.412 <= Gap(Q30(X), Q30(y)) <= 0.412
    ensures Weight(X, y) <= 3 * ONE
    ensures -8.5 * EPS <= Gap(Q30(X), Q30(Step(X, y))) - Next(Gap(Q30(X), Q30(y))) <= 8.5 * EPS
  {
    WeightFits(X, y);
    StepError(X, y);
    StepGap(Q30(X), Q30(y), Q30(Step(X, y)), EPS);
  }

  /** Every pass keeps y positive and closes the gap further. */
  lemma StepKeeps(i: nat, X: nat, y: nat)
    requires ONE <= X < 4 * ONE && y > 0 && Closing(i, Gap(Q30(X), Q30(y)))
    ensures Weight(X, y) <= 3 * ONE && Step(X, y) > 0 && Closing(i + 1, Gap(Q30(X), Q30(Step(X, y))))
  {
    var d := Gap(Q30(X), Q30(y));
    ClosingRange(i, d);
    StepNext(X, y);
    var d' := Gap(Q30(X), Q30(Step(X, y)));
    StepCloses(i, d, d');
    ClosingRange(i + 1, d');
    NotZero(X, Step(X, y), d');
  }

  lemma NotZero(X: nat, z: nat, d: real)
    requires d == Gap(Q30(X), Q30(z)) && d <= 0.412
    ensures z > 0
  {
    assert z == 0 ==> Q30(z) == 0.0;
  }

  // ---------------------------------------------------------------- the last step

  /** y is within two units of 2^30 / sqrt(X / 2^30). */
  predicate NearRoot(X: int, y: int) {
    y > 2 && X * ((y - 2) * (y - 2)) < ONE * ONE * ONE < X * ((y + 2) * (y + 2))
  }

  /** The root lies above z - 2e when the exact step does not pass it. */
  lemma BelowRoot(x: real, n: real, t: real)
    requires 1.0 <= x && -n < t < n && Gap(x, n) >= 0.0
    ensures Gap(x, t) > 0.0
  {
    var p, q := n - t, n + t;
    Positive(p, q);
    var s := p * q;
    assert s == n * n - t * t;
    Positive(x, s);
    assert x * s == x * n * n - x * t * t;
  }

  lemma SlopeBound(x: real, n: real)
    requires 1.0 <= x && n > 0.0 && 0.99 <= x * n * n <= 1.0
    ensures x * n >= 0.99
  {
    var w, p, q := n * n, x * n, x * n * n;
    NotNegative(x - 1.0, w);
    assert (x - 1.0) * w == q - w;
    assert n <= 1.0 by { if n > 1.0 { var s := Scale(1.0, n, n); } }
    Positive(x, n);
    var r := Scale(n, p, 1.0);
    assert r == q;
  }

  /** The root lies below anything a unit above the exact step. */
  lemma AboveRoot(x: real, n: real, t: real, e: real)
    requires 1.0 <= x && n > 0.0 && t > n + e && 0.0 < e < 0.01 && 0.0 <= Gap(x, n) <= e
    ensures Gap(x, t) < 0.0
  {
    var h := t - n;
    GapShift(x, n, h);
    SlopeBound(x, n);
    AboveBy(x, x * n, h, e);
  }

  lemma AboveBy(x: real, p: real, h: real, e: real)
    requires 1.0 <= x && p >= 0.99 && h > e > 0.0
    ensures 2.0 * p * h + x * h * h > e
  {
    var r := Scale(0.99, h, p);
    NotNegative(h, h);
    NotNegative(x, h * h);
    assert x * h * h == x * (h * h);
  }

  lemma RootPositive(x: real, n: real)
    requires 1.0 <= x < 4.0 && n > 0.0 && Gap(x, n) <= 0.01
    ensures n > 0.4
  {
    assert x * n * n == x * (n * n);
    if n <= 0.4 {
      var w := Scale(n, n, 0.4);
      Positive(n, n);
      var q := Scale(x, w, 4.0);
    }
  }

  lemma GapInt(X: nat, y: int)
    ensures var p := X * (y * y); Gap(Q30(X), Q30(y)) > 0.0 <==> p < ONE * ONE * ONE
    ensures var p := X * (y * y); Gap(Q30(X), Q30(y)) < 0.0 <==> p > ONE * ONE * ONE
  {
    var p := X * (y * y);
    var s := y * y;
    assert p as real == X as real * s as real && s as real == y as real * y as real;
    var g := EPS * EPS * EPS;
    assert Q30(X) * Q30(y) * Q30(y) == p as real * g;
    assert (ONE * ONE * ONE) as real * g == 1.0;
  }

  /** The exact fifth step is at the root, but for a term far below a unit. */
  lemma LastExact(X: nat, y: nat)
    requires ONE <= X < 4 * ONE && y > 0 && Closing(4, Gap(Q30(X), Q30(y)))
    ensures var x, n := Q30(X), Newton(Q30(X), Q30(y)); n > 0.0 && 0.0 <= Gap(x, n) <= EPS
  {
    var x, u, d := Q30(X), Q30(y), Gap(Q30(X), Q30(y));
    ClosingRange(4, d);
    NewtonBelow(x, u);
    NewtonGap(x, u);
    Shrink(d, 9.0 * EPS, 0.00000002, 0.00000002);
  }

  lemma LastTruncated(X: nat, y: nat) returns (c: real)
    requires ONE <= X < 4 * ONE && y > 0 && Closing(4, Gap(Q30(X), Q30(y)))
    ensures Weight(X, y) <= 3 * ONE
    ensures c < 1.8 && Newton(Q30(X), Q30(y)) - EPS < Q30(Step(X, y)) <= Newton(Q30(X), Q30(y)) + c * EPS
  {
    ClosingRange(4, Gap(Q30(X), Q30(y)));
    WeightFits(X, y);
    StepError(X, y);
    Bounded(Q30(X), Q30(y));
    c := Q30(y) * (Q30(X) + 1.0) / 2.0;
  }

  /** The fifth step ends within two units of the root. */
  lemma LastStep(X: nat, y: nat)
    requires ONE <= X < 4 * ONE && y > 0 && Closing(4, Gap(Q30(X), Q30(y)))
    ensures Weight(X, y) <= 3 * ONE && NearRoot(X, Step(X, y))
  {
    LastExact(X, y);
    var c := LastTruncated(X, y);
    LastNear(X, Newton(Q30(X), Q30(y)), c, Step(X, y));
  }

  lemma LastNear(X: nat, n: real, c: real, y: nat)
    requires ONE <= X < 4 * ONE && n > 0.0 && c < 1.8 && n - EPS < Q30(y) <= n + c * EPS
    requires 0.0 <= Gap(Q30(X), n) <= EPS
    ensures NearRoot(X, y)
  {
    var x := Q30(X);
    assert 1.0 <= x < 4.0;
    RootPositive(x, n);
    assert c * EPS <= 1.8 * EPS;
    assert Q30(y - 2) == Q30(y) - 2.0 * EPS && Q30(y + 2) == Q30(y) + 2.0 * EPS;
    BelowRoot(x, n, Q30(y - 2));
    AboveRoot(x, n, Q30(y + 2), EPS);
    GapInt(X, y - 2);
    GapInt(X, y + 2);
  }

  // ---------------------------------------------------------------- scaling

  lemma ShiftQ30(y: int)
    ensures Shift(y as real, -30) == Q30(y)
  {
    LeftPow(0, 30);
    Pow2Table();
    ShiftInt(1, 30, -30);
    ShiftProductLeft(1.0, y as real, y as real, -30);
    ShiftProductLeft(ONE as real, Shift(1.0, -30), ONE as real * Shift(1.0, -30), 0);
    ShiftProductLeft(1.0, ONE as real, ONE as real, -30);
  }

  /** Scaling the argument by 4^h scales the root by 2^-h. */
  lemma ScaledRoot(x: real, u: real, h: int, p: real)
    requires p == x * u * u
    ensures Times(Times(Shift(u, -h), Shift(u, -h)), Shift(x, 2 * h)) == p
  {
    ShiftProduct(u, u, -h, -h);
    ShiftProduct(u * u, x, -2 * h, 2 * h);
    assert u * u * x == p;
  }

  /** The argument as X * 2^(2h - 30) with X in [2^30, 2^32), as the routine splits it. */
  lemma Split(a: Xf, X: nat, E: int)
    requires E % 2 == 0
    requires if (30 - a.sh) % 2 != 0 then X == 2 * a.m && E == 29 - a.sh else X == a.m && E == 30 - a.sh
    ensures Val(a) == Shift(Q30(X), E)
  {
    ShiftQ30(X);
    ShiftShift(X as real, -30, E);
    if X != a.m { ShiftStep(a.m as real, E - 30); }
  }

  /** One pass of the loop. */
  lemma Pass(i: nat, X: nat, z: nat)
    requires ONE <= X < 4 * ONE && z > 0 && Closing(i, Gap(Q30(X), Q30(z)))
    ensures var z' := MachineStep(z, MachineWeight(X, MachineSquare(z)));
      z' > 0 && Closing(i + 1, Gap(Q30(X), Q30(z'))) && (i == 4 ==> NearRoot(X, z'))
  {
    ClosingRange(i, Gap(Q30(X), Q30(z)));
    StepIs(X, z);
    StepKeeps(i, X, z);
    if i == 4 { LastStep(X, z); }
  }

  lemma GapIs(x: real, u: real)
    ensures 1.0 - Gap(x, u) == x * u * u
  {}

  /** The root before and after scaling. */
  lemma Scaled(a: Xf, X: nat, h: int, z: nat, r: Xf)
    requires Val(a) == Shift(Q30(X), 2 * h) && 0 < z < 2 * ONE && r == Norm(z, 30 + h)
    requires Closing(5, Gap(Q30(X), Q30(z)))
    ensures Normal(r) && r.m > 0 && Val(r) == Shift(Q30(z), -h)
    ensures Dist(Times(Times(Val(r), Val(r)), Val(a)), 1.0) <= 9.0 * EPS
  {
    hide Norm, Times, Q30, Shift, Gap, Normal;
    NormExact(Xf(z, 30 + h));
    ShiftQ30(z);
    ShiftShift(z as real, -30, -h);
    GapIs(Q30(X), Q30(z));
    ScaledRoot(Q30(X), Q30(z), h, 1.0 - Gap(Q30(X), Q30(z)));
  }

  /** xf_rsqrt, for a > 0: normalised, and 1 / sqrt(a) up to 9 * 2^-30 in the square; y is the root before scaling. */
  method Rsqrt(a: Xf) returns (r: Xf, ghost X: int, ghost y: int, ghost h: int)
    requires Normal(a) && a.m > 0
    ensures Normal(r) && r.m > 0
    ensures Dist(Times(Times(Val(r), Val(r)), Val(a)), 1.0) <= 9.0 * EPS
    ensures NearRoot(X, y) && Val(a) == Shift(Q30(X), 2 * h) && Val(r) == Shift(Q30(y), -h)
  {
    var x := U32(a.m);
    var E := 30 - a.sh;
    if E % 2 != 0 {
      x, E := U32(2 * x), E - 1;
    }
    Split(a, x, E);
    var z := ONE - (x - ONE) / 6;
    StartGap(x);
    for i := 0 to 5
      invariant z > 0 && Closing(i, Gap(Q30(x), Q30(z)))
      invariant i == 5 ==> NearRoot(x, z)
    {
      Pass(i, x, z);
      var y2 := MachineSquare(z);
      var xy2 := MachineWeight(x, y2);
      z := MachineStep(z, xy2);
    }
    X, y, h := x, z, E / 2;
    ClosingRange(5, Gap(Q30(x), Q30(z)));
    StepFits(x, z);
    Scaled(a, x, h, z, Norm(z, 30 + E / 2));
    r := Norm(z, 30 + E / 2);
  }
}
