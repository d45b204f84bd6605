/** Shifts of integers and reals by powers of two, and the count of leading zeros. */
module Bits {

  function Abs(a: int): nat { if a < 0 then -a else a }

  // ---------------------------------------------------------------- shifting integers

  function Pow2(n: nat): (p: nat)
    ensures p > 0
  {
    if n == 0 then 1 else 2 * Pow2(n - 1)
  }

  /** a << s */
  function Left(a: int, s: nat): (l: int)
    ensures a >= 0 ==> l >= 0
  {
    if s == 0 then a else 2 * Left(a, s - 1)
  }

  /** a >> s */
  function Right(a: nat, s: nat): nat { if s == 0 then a else Right(a / 2, s - 1) }

  lemma {:induction false} Pow2Add(a: nat, b: nat)
    ensures Pow2(a + b) == Pow2(a) * Pow2(b)
  {
    if a > 0 {
      Pow2Add(a - 1, b);
      var p, q := Pow2(a - 1), Pow2(b);
      assert 2 * (p * q) == (2 * p) * q;
    }
  }

  lemma {:induction false} Pow2Mono(a: nat, b: nat)
    requires a <= b
    ensures Pow2(a) <= Pow2(b)
    decreases b - a
  {
    if a < b { Pow2Mono(a, b - 1); }
  }

  lemma Pow2Table()
    ensures Pow2(28) == 0x1000_0000 && Pow2(30) == 0x4000_0000 && Pow2(31) == 0x8000_0000 && Pow2(32) == 0x1_0000_0000
  {
    assert Pow2(8) == 0x100;
    Pow2Add(8, 8);
    Pow2Add(4, 8);
    Pow2Add(16, 12);
  }

  lemma {:induction false} LeftMono(a: int, b: int, s: nat)
    ensures a < b <==> Left(a, s) < Left(b, s)
    ensures a == b <==> Left(a, s) == Left(b, s)
  {
    if s > 0 { LeftMono(a, b, s - 1); }
  }

  lemma {:induction false} LeftPow(i: nat, s: nat)
    ensures Left(Pow2(i), s) == Pow2(i + s)
  {
    if s > 0 { LeftPow(i, s - 1); }
  }

  lemma {:induction false} LeftTwice(a: int, s: nat)
    ensures Left(2 * a, s) == Left(a, s + 1)
  {
    if s > 0 { LeftTwice(a, s - 1); }
  }

  lemma {:induction false} LeftTimes(a: int, s: nat)
    ensures Left(a, s) == a * Pow2(s)
  {
    if s > 0 {
      LeftTimes(a, s - 1);
      var p := Pow2(s - 1);
      assert a * (2 * p) == 2 * (a * p);
    }
  }

  lemma {:induction false} LeftAdd(a: int, b: int, s: nat)
    ensures Left(a + b, s) == Left(a, s) + Left(b, s)
  {
    if s > 0 { LeftAdd(a, b, s - 1); }
  }

  lemma {:induction false} LeftLeft(a: int, s: nat, t: nat)
    ensures Left(Left(a, s), t) == Left(a, s + t)
    decreases t
  {
    if t > 0 { LeftLeft(a, s, t - 1); }
  }

  lemma {:induction false} LeftZero(s: nat)
    ensures Left(0, s) == 0
  {
    if s > 0 { LeftZero(s - 1); }
  }

  /** One more unit. */
  lemma {:induction false} LeftStep(a: int, s: nat)
    ensures Left(a + 1, s) == Left(a, s) + Pow2(s)
  {
    if s > 0 { LeftStep(a, s - 1); }
  }

  lemma {:induction false} LeftNegated(a: int, s: nat)
    ensures Left(-a, s) == -Left(a, s)
  {
    if s > 0 { LeftNegated(a, s - 1); }
  }

  /** Shifting down and up again loses less than a unit. */
  lemma {:induction false} RightLeft(a: nat, s: nat)
    ensures Left(Right(a, s), s) <= a < Left(Right(a, s), s) + Pow2(s)
  {
    if s > 0 { RightLeft(a / 2, s - 1); }
  }

  lemma {:induction false} RightZero(a: nat, s: nat)
    ensures Right(a, s) == 0 <==> a < Pow2(s)
    decreases s
  {
    if s > 0 { RightZero(a / 2, s - 1); }
  }

  lemma {:induction false} RightLe(a: nat, s: nat)
    ensures Right(a, s) <= a
  {
    if s > 0 { RightLe(a / 2, s - 1); }
  }

  /** b * 2^k is the multiple of 2^k nearest to a, the larger one if a lies half way. */
  predicate Nearest(a: int, k: nat, b: int) { -(Pow2(k) as int) <= 2 * (a - Left(b, k)) < Pow2(k) }

  /** Adding half a unit before the shift rounds to nearest. */
  lemma RightNearest(a: nat, k: nat)
    requires k > 0
    ensures Nearest(a, k, Right(a + Pow2(k - 1), k))
  {
    RightLeft(a + Pow2(k - 1), k);
  }

  // ---------------------------------------------------------------- leading zeros

  /** The last n stages of the binary search for the leading one of a 32-bit word; the first of them tests 2^(n-1) bits. */
  function Clz(x: nat, n: nat): nat
    requires n <= 5
    decreases n
  {
    if n == 0 then 0
    else
      StageBits(n);
      var k := Pow2(n - 1);
      if Right(x, 32 - k) == 0 then k + Clz(Left(x, k), n - 1) else Clz(x, n - 1)
  }

  lemma StageBits(n: nat)
    requires 0 < n <= 5
    ensures Pow2(n) == 2 * Pow2(n - 1) && Pow2(n) <= 32
  {
    Pow2Mono(n, 5);
    assert Pow2(5) == 32;
  }

  /** xf_clz64 */
  function Clz64(a: nat): nat
    requires 0 < a < 0x1_0000_0000_0000_0000
  {
    var x := a / 0x1_0000_0000;
    if x == 0 then 32 + Clz(a, 5) else Clz(x, 5)
  }

  /** n leading zeros in a word of w bits. */
  ghost predicate Leads(a: nat, n: nat, w: nat) {
    n < w && Pow2(w - 1 - n) <= a < Pow2(w - n)
  }

  lemma LeadsShift(a: nat, n: nat, k: nat)
    requires n + k < 32 && Leads(Left(a, k), n, 32)
    ensures Leads(a, n + k, 32)
  {
    LeftPow(31 - n - k, k);
    LeftPow(32 - n - k, k);
    LeftMono(a, Pow2(31 - n - k), k);
    LeftMono(a, Pow2(32 - n - k), k);
  }

  /** The word after a stage of k bits. */
  ghost function Stage(x: nat, k: nat): nat
    requires k <= 32
  {
    if x < Pow2(32 - k) then Left(x, k) else x
  }

  lemma StageRange(x: nat, k: nat)
    requires 2 * k <= 32 && Pow2(32 - 2 * k) <= x < Pow2(32)
    ensures Pow2(32 - k) <= Stage(x, k) < Pow2(32)
  {
    LeftPow(32 - 2 * k, k);
    LeftPow(32 - k, k);
    LeftMono(x, Pow2(32 - 2 * k), k);
    LeftMono(x, Pow2(32 - k), k);
  }

  lemma ClzStage(x: nat, n: nat, k: nat)
    requires 0 < n <= 5 && k == Pow2(n - 1)
    ensures 2 * k == Pow2(n) <= 32
    ensures Clz(x, n) == (if x < Pow2(32 - k) then k else 0) + Clz(Stage(x, k), n - 1)
  {
    StageBits(n);
    RightZero(x, 32 - k);
  }

  lemma {:induction false} ClzIs(x: nat, n: nat, w: nat)
    requires n <= 5 && w == Pow2(n) <= 32 && Pow2(32 - w) <= x < Pow2(32)
    ensures Leads(x, Clz(x, n), 32) && Clz(x, n) < w
    decreases n
  {
    if n > 0 {
      var k := Pow2(n - 1);
      ClzStage(x, n, k);
      StageRange(x, k);
      var y := Stage(x, k);
      ClzIs(y, n - 1, k);
      if x < Pow2(32 - k) { LeadsShift(x, Clz(y, n - 1), k); }
    }
  }

  /** The search finds the number of leading zeros. */
  lemma Clz32Is(x: nat)
    requires 0 < x < 0x1_0000_0000
    ensures Leads(x, Clz(x, 5), 32)
  {
    Pow2Table();
    assert Pow2(5) == 32 && Pow2(0) == 1;
    ClzIs(x, 5, 32);
  }

  /** The upper half of a word has as many leading zeros as the word. */
  lemma LeadsHigh(a: nat, x: nat, n: nat)
    requires x == a / 0x1_0000_0000 && Leads(x, n, 32)
    ensures Leads(a, n, 64)
  {
    Pow2Table();
    Pow2Add(31 - n, 32);
    Pow2Add(32 - n, 32);
  }

  /** xf_clz64 counts the leading zeros of a 64-bit word. */
  lemma Clz64Is(a: nat)
    requires 0 < a < 0x1_0000_0000_0000_0000
    ensures Leads(a, Clz64(a), 64)
  {
    var x := a / 0x1_0000_0000;
    if x == 0 {
      Clz32Is(a);
    } else {
      Clz32Is(x);
      LeadsHigh(a, x, Clz(x, 5));
    }
  }

  lemma LeadsUnique(a: nat, n: nat, k: nat, w: nat)
    requires Leads(a, n, w) && Leads(a, k, w)
    ensures n == k
  {
    if n < k { Pow2Mono(w - k, w - 1 - n); } else if k < n { Pow2Mono(w - n, w - 1 - k); }
  }

  lemma LeadsAtLeast(a: nat, n: nat, w: nat, k: nat)
    requires Leads(a, n, w) && k <= w && a < Pow2(w - k)
    ensures k <= n
  {
    if n < k { Pow2Mono(w - k, w - 1 - n); }
  }

  // ---------------------------------------------------------------- shifting reals

  /** x * 2^k for any integer k. */
  ghost function Shift(x: real, k: int): real
    decreases if k < 0 then -k else k
  {
    if k == 0 then x else if k > 0 then Shift(2.0 * x, k - 1) else Shift(x / 2.0, k + 1)
  }

  lemma ShiftStep(x: real, k: int)
    ensures Shift(2.0 * x, k) == Shift(x, k + 1)
  {
    if k < 0 { assert 2.0 * x / 2.0 == x; }
  }

  lemma {:induction false} ShiftSum(x: real, y: real, k: int)
    ensures Shift(x + y, k) == Shift(x, k) + Shift(y, k)
    decreases if k < 0 then -k else k
  {
    if k > 0 { ShiftSum(2.0 * x, 2.0 * y, k - 1); } else if k < 0 { ShiftSum(x / 2.0, y / 2.0, k + 1); }
  }

  lemma {:induction false} ShiftMono(x: real, y: real, k: int)
    ensures x < y <==> Shift(x, k) < Shift(y, k)
    ensures x == y <==> Shift(x, k) == Shift(y, k)
    decreases if k < 0 then -k else k
  {
    if k > 0 { ShiftMono(2.0 * x, 2.0 * y, k - 1); } else if k < 0 { ShiftMono(x / 2.0, y / 2.0, k + 1); }
  }

  lemma {:induction false} ShiftZero(k: int)
    ensures Shift(0.0, k) == 0.0
    decreases if k < 0 then -k else k
  {
    if k > 0 { ShiftZero(k - 1); } else if k < 0 { ShiftZero(k + 1); }
  }

  lemma {:induction false} ShiftInt(m: int, j: nat, k: int)
    ensures Shift(Left(m, j) as real, k) == Shift(m as real, k + j)
  {
    if j > 0 {
      ShiftStep(Left(m, j - 1) as real, k);
      ShiftInt(m, j - 1, k + 1);
    }
  }

  lemma {:induction false} ShiftShift(x: real, a: int, b: int)
    ensures Shift(Shift(x, a), b) == Shift(x, a + b)
    decreases if a < 0 then -a else a
  {
    if a > 0 {
      ShiftShift(2.0 * x, a - 1, b);
      ShiftStep(x, a - 1 + b);
    } else if a < 0 {
      ShiftShift(x / 2.0, a + 1, b);
      ShiftStep(x / 2.0, a + b);
    }
  }

  lemma TwiceProduct(x: real, y: real, p: real)
    requires p == x * y
    ensures 2.0 * p == (2.0 * x) * y && p / 2.0 == (x / 2.0) * y
  {
    var h := x / 2.0;
    assert x == 2.0 * h;
    var q := h * y;
    assert (2.0 * h) * y == 2.0 * q;
  }

  lemma {:induction false} ShiftProductLeft(x: real, y: real, p: real, a: int)
    requires p == x * y
    ensures Shift(x, a) * y == Shift(p, a)
    decreases if a < 0 then -a else a
  {
    TwiceProduct(x, y, p);
    if a > 0 {
      ShiftProductLeft(2.0 * x, y, 2.0 * p, a - 1);
    } else if a < 0 {
      ShiftProductLeft(x / 2.0, y, p / 2.0, a + 1);
    }
  }

  lemma {:induction false} ShiftProductRight(x: real, y: real, p: real, b: int)
    requires p == x * y
    ensures x * Shift(y, b) == Shift(p, b)
    decreases if b < 0 then -b else b
  {
    Commute(x, y);
    TwiceProduct(y, x, p);
    if b > 0 {
      Commute(x, 2.0 * y);
      ShiftProductRight(x, 2.0 * y, 2.0 * p, b - 1);
    } else if b < 0 {
      Commute(x, y / 2.0);
      ShiftProductRight(x, y / 2.0, p / 2.0, b + 1);
    }
  }

  lemma Commute(x: real, y: real)
    ensures x * y == y * x
  {}

  lemma ShiftProduct(x: real, y: real, a: int, b: int)
    ensures Shift(x, a) * Shift(y, b) == Shift(x * y, a + b)
  {
    hide *;
    var p := x * y;
    ShiftProductRight(x, y, p, b);
    ShiftProductLeft(x, Shift(y, b), Shift(p, b), a);
    ShiftShift(p, b, a);
  }

  lemma HalfUnit(j: nat, k: int)
    ensures Shift(Pow2(j) as real / 2.0, k) == Shift(0.5, k + j)
  {
    LeftPow(0, j);
    ShiftInt(1, j, k - 1);
    ShiftStep(Pow2(j) as real / 2.0, k - 1);
    ShiftStep(0.5, k - 1 + j);
  }

  // ---------------------------------------------------------------- distances

  ghost function Dist(x: real, y: real): real { if x < y then y - x else x - y }

  ghost function Mag(x: real): real { if x < 0.0 then -x else x }

  /** A product of reals, kept as one term in proofs. */
  ghost function Times(x: real, y: real): real { x * y }

  lemma ShiftBelow(x: real, y: real, e: real, k: int)
    requires y <= x + e
    ensures Shift(y, k) <= Shift(x, k) + Shift(e, k)
  {
    ShiftSum(x, e, k);
    ShiftMono(x + e, y, k);
  }

  lemma ShiftDist(x: real, y: real, e: real, k: int)
    requires Dist(x, y) <= e
    ensures Dist(Shift(x, k), Shift(y, k)) <= Shift(e, k)
  {
    ShiftBelow(x, y, e, k);
    ShiftBelow(y, x, e, k);
  }

  lemma ShiftMag(x: real, k: int)
    ensures Mag(Shift(x, k)) == Shift(Mag(x), k)
  {
    ShiftZero(k);
    ShiftMono(x, 0.0, k);
    ShiftSum(x, -x, k);
  }

  lemma MagTimes(x: real, y: real)
    ensures Mag(x * y) == Mag(x) * Mag(y)
  {
    var p := x * y;
    assert (-x) * y == -p && x * (-y) == -p && (-x) * (-y) == p;
    NotNegative(Mag(x), Mag(y));
  }

  /** |x * y| <= 2^k * |z * y| when |x| <= 2^k * |z|. */
  lemma MagScale(x: real, y: real, z: real, p: real, q: real, k: int)
    requires p == x * y && q == z * y && Mag(x) <= Shift(Mag(z), k)
    ensures Mag(p) <= Shift(Mag(q), k)
  {
    MagTimes(x, y);
    MagTimes(z, y);
    ShiftScale(Mag(x), Mag(y), Mag(z), Mag(p), Mag(q), k);
  }

  lemma ShiftScale(a: real, b: real, c: real, p: real, q: real, k: int)
    requires p == a * b && q == c * b && b >= 0.0 && a <= Shift(c, k)
    ensures p <= Shift(q, k)
  {
    SmallerTimes(a, Shift(c, k), b);
    ShiftProductLeft(c, b, q, k);
  }

  lemma NotNegative(a: real, b: real)
    requires a >= 0.0 && b >= 0.0
    ensures a * b >= 0.0
  {}

  lemma SmallerTimes(a: real, b: real, c: real)
    requires a <= b && c >= 0.0
    ensures a * c <= b * c
  {}
}
