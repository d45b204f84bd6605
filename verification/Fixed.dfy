/** The fixed-point multiplications of dav2_ops.c: 32-bit forms of a 64-bit rounding. */
module Fixed {
  import opened Arith
  import opened Bits
  import opened Words

  lemma Left32(a: int)
    ensures Left(a, 32) == a * 0x1_0000_0000
  {
    Pow2Table();
    LeftTimes(a, 32);
  }

  /** The high word of v. */
  lemma Asr32(v: int)
    ensures Asr(v, 32) == v / 0x1_0000_0000
  {
    var h, l := v / 0x1_0000_0000, v % 0x1_0000_0000;
    Left32(h);
    Pow2Table();
    AsrUnits(l, h, 32);
    AsrSmall(l, 32);
  }

  /** round(p / 2^s), halves up. */
  function RoundUp(p: int, s: nat): int { if s == 0 then p else Asr(p + Pow2(s - 1), s) }

  /** That is the nearest integer: within half a unit, above a half exactly. */
  lemma RoundUpNearest(p: int, s: nat)
    requires s > 0
    ensures -(Pow2(s) as int) <= 2 * (p - Left(RoundUp(p, s), s)) < Pow2(s)
  {
    hide Asr;
    var h := Pow2(s - 1);
    assert Pow2(s) == 2 * h;
    AsrRange(p + h, s);
  }

  // ---------------------------------------------------------------- apply_multiplier

  /** hi << k | lo, for lo of k bits. */
  function Assemble(hi: nat, lo: nat, k: nat): nat
    requires lo < Pow2(k)
  {
    U32(Left(hi, k)) + lo
  }

  function ApplyMultiplier(acc: int, mult: int, shift: nat): int
    requires shift <= 62
  {
    var p := acc * mult;
    var hi := p / 0x1_0000_0000;
    if shift >= 33 then Asr(I32(hi + Pow2(shift - 33)), shift - 32)
    else
      var lo := U32(p);
      if shift == 0 then I32(lo)
      else
        var lo2 := U32(lo + Pow2(shift - 1));
        var hi2 := hi + if lo2 < lo then 1 else 0;
        LowBits(lo2, shift);
        I32(Assemble(U32(hi2), Right(Right(lo2, shift - 1), 1), 32 - shift))
  }

  lemma LowBits(lo: nat, s: nat)
    requires lo < 0x1_0000_0000 && 0 < s <= 32
    ensures Right(Right(lo, s - 1), 1) < Pow2(32 - s) && Right(Right(lo, s - 1), 1) == Asr(lo, s)
  {
    RightAsr(lo, s - 1);
    var r := Right(lo, s - 1);
    assert Right(r, 1) == r / 2 && Asr(r, 1) == r / 2;
    AsrJoin(lo, s - 1, 1);
    AsrRange(lo, s);
    Pow2Table();
    if Asr(lo, s) >= Pow2(32 - s) {
      LeftMono(Pow2(32 - s), Asr(lo, s), s);
      LeftPow(32 - s, s);
    }
  }

  lemma {:induction false} RightAsr(a: nat, s: nat)
    ensures Right(a, s) == Asr(a, s)
    decreases s
  {
    if s > 0 { RightAsr(a / 2, s - 1); }
  }

  lemma ProductHigh(acc: int, mult: int)
    requires Int32(acc) && Int32(mult)
    ensures -0x4000_0000 <= acc * mult / 0x1_0000_0000 <= 0x4000_0000
  {
    var a, m := if acc < 0 then -acc else acc, if mult < 0 then -mult else mult;
    Below(a, 0x8000_0000, m);
    Below(m, 0x8000_0000, 0x8000_0000);
    var q := a * m;
    assert acc * mult == q || acc * mult == -q;
  }

  /** Shifts of 33 and more only need the high word. */
  lemma HighForm(p: int, s: nat)
    requires 33 <= s
    ensures RoundUp(p, s) == Asr(p / 0x1_0000_0000 + Pow2(s - 33), s - 32)
  {
    AsrJoin(p + Pow2(s - 1), 32, s - 32);
    LeftPow(s - 33, 32);
    AsrUnits(p, Pow2(s - 33), 32);
    Asr32(p);
  }

  /** Shorter shifts: the constant is added to the low word, with a carry. */
  lemma LowForm(hi: int, lo: nat, s: nat, lo2: nat, hi2: int)
    requires 0 < s <= 32 && lo < 0x1_0000_0000 && lo2 == U32(lo + Pow2(s - 1)) && hi2 == hi + if lo2 < lo then 1 else 0
    ensures RoundUp(hi * 0x1_0000_0000 + lo, s) == Left(hi2, 32 - s) + Asr(lo2, s)
  {
    Pow2Table();
    Pow2Mono(s - 1, 31);
    assert lo + Pow2(s - 1) == lo2 + if lo2 < lo then 0x1_0000_0000 else 0;
    assert hi * 0x1_0000_0000 + lo + Pow2(s - 1) == hi2 * 0x1_0000_0000 + lo2;
    Left32(hi2);
    LeftLeft(hi2, 32 - s, s);
    AsrUnits(lo2, Left(hi2, 32 - s), s);
  }

  /** Shifting left commutes with dropping the high bits. */
  lemma LeftMod(hi: int, k: nat) returns (m: int)
    ensures Left(hi, k) == Left(U32(hi), k) + m * 0x1_0000_0000
  {
    var q := hi / 0x1_0000_0000;
    m := Left(q, k);
    Left32(q);
    Left32(m);
    LeftAdd(U32(hi), Left(q, 32), k);
    LeftLeft(q, 32, k);
    LeftLeft(q, k, 32);
  }

  lemma DropHigh(x: int, lo: int)
    ensures I32(U32(x) + lo) == I32(x + lo)
  {
    I32Period(U32(x) + lo, x / 0x1_0000_0000);
  }

  lemma AssembleIs(hi: int, lo: nat, k: nat)
    requires lo < Pow2(k)
    ensures I32(Assemble(U32(hi), lo, k)) == I32(Left(hi, k) + lo)
  {
    var m := LeftMod(hi, k);
    var x := Left(U32(hi), k);
    I32Period(x + lo, m);
    DropHigh(x, lo);
  }

  /** apply_multiplier rounds acc * mult / 2^shift, halves up, and keeps 32 bits of it. */
  lemma ApplyIs(acc: int, mult: int, shift: nat)
    requires Int32(acc) && Int32(mult) && shift <= 62
    ensures ApplyMultiplier(acc, mult, shift) == I32(RoundUp(acc * mult, shift))
  {
    var p := acc * mult;
    ProductHigh(acc, mult);
    if shift >= 33 {
      HighForm(p, shift);
      HighFits(p / 0x1_0000_0000, shift);
    } else if shift == 0 {
      I32Period(U32(p), p / 0x1_0000_0000);
    } else {
      var hi, lo := p / 0x1_0000_0000, U32(p);
      var lo2 := U32(lo + Pow2(shift - 1));
      var hi2 := hi + if lo2 < lo then 1 else 0;
      LowForm(hi, lo, shift, lo2, hi2);
      LowBits(lo2, shift);
      AssembleIs(hi2, Right(Right(lo2, shift - 1), 1), 32 - shift);
    }
  }

  lemma HighFits(hi: int, s: nat)
    requires -0x4000_0000 <= hi <= 0x4000_0000 && 33 <= s <= 62
    ensures I32(hi + Pow2(s - 33)) == hi + Pow2(s - 33)
    ensures var r := Asr(hi + Pow2(s - 33), s - 32); I32(r) == r
  {
    Pow2Table();
    Pow2Mono(s - 33, 29);
    assert Pow2(30) == 2 * Pow2(29);
    AsrBetween(hi + Pow2(s - 33), s - 32);
  }

  /** It is the exact rounding exactly when that fits 32 bits. */
  lemma ApplyExactIff(acc: int, mult: int, shift: nat)
    requires Int32(acc) && Int32(mult) && shift <= 62
    ensures ApplyMultiplier(acc, mult, shift) == RoundUp(acc * mult, shift) <==> Int32(RoundUp(acc * mult, shift))
  {
    ApplyIs(acc, mult, shift);
  }

  /** The exact rounding does not fall when the accumulator grows and the multiplier is not negative. */
  lemma RoundMono(a: int, b: int, mult: nat, shift: nat)
    requires a <= b
    ensures RoundUp(a * mult, shift) <= RoundUp(b * mult, shift)
  {
    Below(a, b, mult);
    if shift > 0 { AsrMono(a * mult + Pow2(shift - 1), b * mult + Pow2(shift - 1), shift); }
  }

  // ---------------------------------------------------------------- column extremes

  /** One output value: the accumulator requantised, with the column's parameters. */
  function Requant(acc: int, mult: int, shift: nat, bias: int): int
    requires shift <= 62
  {
    Sat(I32(ApplyMultiplier(acc, mult, shift) + bias))
  }

  /** No step of the requantisation of acc leaves 32 bits. */
  predicate Fits(acc: int, mult: int, shift: nat, bias: int)
    requires shift <= 62
  {
    Int32(acc) && Int32(mult) && Int32(RoundUp(acc * mult, shift)) && Int32(RoundUp(acc * mult, shift) + bias)
  }

  /** An accumulator that fits is rounded exactly. */
  lemma RequantIs(a: int, mult: nat, shift: nat, bias: int)
    requires shift <= 62 && Fits(a, mult, shift, bias)
    ensures Requant(a, mult, shift, bias) == Sat(RoundUp(a * mult, shift) + bias)
  {
    ApplyExactIff(a, mult, shift);
  }

  lemma SatMono(x: int, y: int)
    requires x <= y
    ensures Sat(x) <= Sat(y)
  {}

  lemma RequantMono(a: int, b: int, mult: nat, shift: nat, bias: int)
    requires shift <= 62 && a <= b && Fits(a, mult, shift, bias) && Fits(b, mult, shift, bias)
    ensures Requant(a, mult, shift, bias) <= Requant(b, mult, shift, bias)
  {
    var x, y := RoundUp(a * mult, shift), RoundUp(b * mult, shift);
    hide ApplyMultiplier, Requant, RoundUp;
    RequantIs(a, mult, shift, bias);
    RequantIs(b, mult, shift, bias);
    RoundMono(a, b, mult, shift);
    SatMono(x + bias, y + bias);
  }

  /** Between two accumulators that fit, all fit. */
  lemma FitsBetween(a: int, c: int, b: int, mult: nat, shift: nat, bias: int)
    requires shift <= 62 && a <= c <= b && Fits(a, mult, shift, bias) && Fits(b, mult, shift, bias)
    ensures Fits(c, mult, shift, bias)
  {
    RoundMono(a, c, mult, shift);
    RoundMono(c, b, mult, shift);
  }

  /** x is the largest of s, and occurs in it. */
  ghost predicate IsMax(x: int, s: seq<int>) { x in s && forall i :: 0 <= i < |s| ==> s[i] <= x }
  ghost predicate IsMin(x: int, s: seq<int>) { x in s && forall i :: 0 <= i < |s| ==> x <= s[i] }

  function Requants(acc: seq<int>, mult: int, shift: nat, bias: int): (r: seq<int>)
    requires shift <= 62
    ensures |r| == |acc| && forall i :: 0 <= i < |acc| ==> r[i] == Requant(acc[i], mult, shift, bias)
  {
    seq(|acc|, i requires 0 <= i < |acc| => Requant(acc[i], mult, shift, bias))
  }

  /** The requantised extremes of a column's accumulators are the extremes of its output. */
  lemma ExtremesCommute(acc: seq<int>, hi: int, lo: int, mult: nat, shift: nat, bias: int)
    requires shift <= 62 && IsMax(hi, acc) && IsMin(lo, acc) && Fits(hi, mult, shift, bias) && Fits(lo, mult, shift, bias)
    ensures IsMax(Requant(hi, mult, shift, bias), Requants(acc, mult, shift, bias))
    ensures IsMin(Requant(lo, mult, shift, bias), Requants(acc, mult, shift, bias))
  {
    var r := Requants(acc, mult, shift, bias);
    forall i | 0 <= i < |acc| ensures Requant(lo, mult, shift, bias) <= r[i] <= Requant(hi, mult, shift, bias) {
      FitsBetween(lo, acc[i], hi, mult, shift, bias);
      RequantMono(acc[i], hi, mult, shift, bias);
      RequantMono(lo, acc[i], mult, shift, bias);
    }
    var i :| 0 <= i < |acc| && acc[i] == hi;
    var j :| 0 <= j < |acc| && acc[j] == lo;
    assert r[i] == Requant(hi, mult, shift, bias) && r[j] == Requant(lo, mult, shift, bias);
  }

  /** The parameters of an output column: par[3m], par[3m + 1], par[3m + 2]. */
  datatype Param = Param(mult: int, shift: nat, bias: int)

  ghost predicate OutputExtremes(hi: int, lo: int, acc: seq<int>, p: Param) {
    && p.shift <= 62
    && IsMax(hi, Requants(acc, p.mult, p.shift, p.bias))
    && IsMin(lo, Requants(acc, p.mult, p.shift, p.bias))
  }

  /** rmax and rmin are the extremes of a column's accumulators, and both fit. */
  ghost predicate InputExtremes(rmax: int, rmin: int, acc: seq<int>, p: Param) {
    && p.shift <= 62 && p.mult >= 0 && IsMax(rmax, acc) && IsMin(rmin, acc)
    && Fits(rmax, p.mult, p.shift, p.bias) && Fits(rmin, p.mult, p.shift, p.bias)
  }

  /** qgemm_colext: requantises the two extremes of each column. */
  method ColumnExtremes(rmax: seq<int>, rmin: seq<int>, par: seq<Param>, cmax: array<int>, cmin: array<int>,
                        ghost acc: seq<seq<int>>)
    requires |rmax| == |rmin| == |par| == |acc| == cmax.Length == cmin.Length && cmax != cmin
    requires forall m :: 0 <= m < |par| ==> InputExtremes(rmax[m], rmin[m], acc[m], par[m])
    modifies cmax, cmin
    ensures forall m :: 0 <= m < |par| ==> OutputExtremes(cmax[m], cmin[m], acc[m], par[m])
  {
    var m := 0;
    while m < |par|
      invariant m <= |par|
      invariant forall k :: 0 <= k < m ==> OutputExtremes(cmax[k], cmin[k], acc[k], par[k])
    {
      var p := par[m];
      ExtremesCommute(acc[m], rmax[m], rmin[m], p.mult, p.shift, p.bias);
      cmax[m] := Requant(rmax[m], p.mult, p.shift, p.bias);
      cmin[m] := Requant(rmin[m], p.mult, p.shift, p.bias);
      m := m + 1;
    }
  }

  // ---------------------------------------------------------------- the residual add

  /** One element of the sum. */
  function Added(x: int, y: int, ma: int, sa: nat, mb: int, sb: nat): int
    requires sa <= 62 && sb <= 62
  {
    Sat(I32(ApplyMultiplier(x, ma, sa) + ApplyMultiplier(y, mb, sb)))
  }

  /** The form with two short multiplications, in 32 bits. */
  function ShortForm(v: int, m: int, s: nat): int
    requires 17 <= s <= 47
  {
    var mh, ml := m / 0x1_0000, m % 0x1_0000;
    Asr(I32(I32(I32(v * mh) + Asr(I32(v * ml), 16)) + Pow2(s - 17)), s - 16)
  }

  /** 1 << k and v >> k in a 32-bit register: the target's shifts look at the low five bits of k. */
  function OneShifted(k: nat): int { I32(Pow2(Count(k))) }
  function Sra(v: int, k: nat): int { Asr(v, Count(k)) }
  function Count(k: nat): nat { k % 32 }

  /** The form that takes the high word of the product with v * 2^16. */
  function ShiftedForm(v: int, m: int, s: nat): int
    requires 17 <= s <= 62
  {
    Sra(I32(v * 0x1_0000 * m / 0x1_0000_0000 + OneShifted(s - 17)), s - 16)
  }

  lemma CountIs(k: nat)
    ensures k < 32 ==> Count(k) == k
    ensures 32 <= k < 64 ==> Count(k) == k - 32
  {}

  lemma OneShiftedIs(k: nat)
    requires k <= 30
    ensures OneShifted(k) == Pow2(k) <= 0x4000_0000
  {
    CountIs(k);
    Pow2Table();
    Pow2Mono(k, 30);
    NoWrap32(Pow2(k));
  }

  lemma Pow2At16()
    ensures Pow2(16) == 0x1_0000
  {
    Pow2Table();
    Pow2Add(8, 8);
  }

  lemma Asr16(v: int)
    ensures Asr(v, 16) == v / 0x1_0000
  {
    Pow2At16();
    var h, l := v / 0x1_0000, v % 0x1_0000;
    LeftTimes(h, 16);
    AsrUnits(l, h, 16);
    AsrSmall(l, 16);
  }

  /** Rounding by a shift of 17 or more, after dropping 16 bits. */
  lemma Drop16(p: int, s: nat)
    requires s >= 17
    ensures RoundUp(p, s) == Asr(p / 0x1_0000 + Pow2(s - 17), s - 16)
  {
    AsrJoin(p + Pow2(s - 1), 16, s - 16);
    LeftPow(s - 17, 16);
    AsrUnits(p, Pow2(s - 17), 16);
    Asr16(p);
  }

  /** v * m for bounded v and m. */
  lemma ProductWithin(v: int, a: int, m: nat, b: int, c: int)
    requires -a <= v <= a && m <= b && c == a * b && a >= 0
    ensures -c <= v * m <= c
  {
    Below(v, a, m);
    Below(-a, v, m);
    Below(m, b, a);
  }

  /** The halves of a multiplier below 2^31, and what they make of a value of 15 bits. */
  lemma ShortParts(v: int, m: nat, s: nat)
    requires 17 <= s <= 47 && -16383 <= v <= 16383 && m < 0x8000_0000
    ensures var h, l := v * (m / 0x1_0000), v * (m % 0x1_0000);
      v * m == h * 0x1_0000 + l && -536838144 <= h <= 536838144 && -1073659905 <= l <= 1073659905
    ensures Pow2(s - 17) <= 0x4000_0000
  {
    ProductWithin(v, 16383, m / 0x1_0000, 0x8000, 536838144);
    ProductWithin(v, 16383, m % 0x1_0000, 0xffff, 1073659905);
    Pow2Table();
    Pow2Mono(s - 17, 30);
    assert m == m / 0x1_0000 * 0x1_0000 + m % 0x1_0000;
  }

  lemma NoWrap32(v: int)
    requires Int32(v)
    ensures I32(v) == v
  {}

  lemma ShortSum(h: int, l: int, c: nat)
    requires -536838144 <= h <= 536838144 && -1073659905 <= l <= 1073659905 && c <= 0x4000_0000
    ensures I32(I32(I32(h) + Asr(I32(l), 16)) + c) == (h * 0x1_0000 + l) / 0x1_0000 + c
  {
    Asr16(l);
    NoWrap32(h);
    NoWrap32(l);
    NoWrap32(h + l / 0x1_0000);
    NoWrap32(h + l / 0x1_0000 + c);
  }

  /** The two halves of the product, added with the constant, are rounded like the product. */
  lemma ShortJoin(p: int, h: int, l: int, s: nat)
    requires 17 <= s <= 47 && p == h * 0x1_0000 + l && Pow2(s - 17) <= 0x4000_0000
    requires -536838144 <= h <= 536838144 && -1073659905 <= l <= 1073659905
    ensures Asr(I32(I32(I32(h) + Asr(I32(l), 16)) + Pow2(s - 17)), s - 16) == RoundUp(p, s)
  {
    ShortSum(h, l, Pow2(s - 17));
    Drop16(p, s);
  }

  lemma ShortIs(v: int, m: nat, s: nat)
    requires 17 <= s <= 47 && -16383 <= v <= 16383 && m < 0x8000_0000
    ensures ShortForm(v, m, s) == RoundUp(v * m, s)
  {
    ShortParts(v, m, s);
    ShortJoin(v * m, v * (m / 0x1_0000), v * (m % 0x1_0000), s);
  }

  lemma ShiftedParts(v: int, m: nat)
    requires -32768 <= v <= 32767 && m < 0x8000_0000
    ensures -0x4000_0000 <= v * m / 0x1_0000 < 0x3fff_8000
  {
    Below(v, 32767, m);
    Below(-32768, v, m);
  }

  lemma ShiftedIs(v: int, m: nat, s: nat)
    requires 17 <= s <= 47 && -32768 <= v <= 32767 && m < 0x8000_0000
    ensures ShiftedForm(v, m, s) == RoundUp(v * m, s)
  {
    ShiftedParts(v, m);
    ShiftedHigh(v, m, v * m);
    ShiftedJoin(v * m, s);
  }

  lemma ShiftedJoin(p: int, s: nat)
    requires 17 <= s <= 47 && -0x4000_0000 <= p / 0x1_0000 < 0x3fff_8000
    ensures Sra(I32(p / 0x1_0000 + OneShifted(s - 17)), s - 16) == RoundUp(p, s)
  {
    OneShiftedIs(s - 17);
    CountIs(s - 16);
    NoWrap32(p / 0x1_0000 + Pow2(s - 17));
    Drop16(p, s);
  }

  lemma ShiftedHigh(v: int, m: int, p: int)
    requires p == v * m
    ensures v * 0x1_0000 * m / 0x1_0000_0000 == p / 0x1_0000
  {
    assert v * 0x1_0000 * m == p * 0x1_0000;
  }

  /** With shifts from 17 to 47 the result fits, so both are what apply_multiplier gives. */
  lemma SameAsApply(v: int, m: nat, s: nat)
    requires 17 <= s <= 47 && -32768 <= v <= 32767 && m < 0x8000_0000
    ensures RoundUp(v * m, s) == ApplyMultiplier(v, m, s)
  {
    ShiftedParts(v, m);
    OneShiftedIs(s - 17);
    Drop16(v * m, s);
    AsrBetween(v * m / 0x1_0000 + Pow2(s - 17), s - 16);
    ApplyExactIff(v, m, s);
  }

  function Max(x: int, y: int): int { if y > x then y else x }

  /** The path of add_range that is taken: with small operands, with shifts of 17 and more, or neither. */
  function Element(x: int, y: int, ma: int, sa: nat, mb: int, sb: nat, wide: bool, small: bool): int
    requires sa <= 62 && sb <= 62
  {
    if wide && 17 <= sa <= 47 && 17 <= sb <= 47 && small then Sat(I32(ShortForm(x, ma, sa) + ShortForm(y, mb, sb)))
    else if wide && sa >= 17 && sb >= 17 then Sat(I32(ShiftedForm(x, ma, sa) + ShiftedForm(y, mb, sb)))
    else Added(x, y, ma, sa, mb, sb)
  }

  /** The second path is taken with a shift that it cannot do. */
  predicate ShiftsTooFar(sa: nat, sb: nat, wide: bool) { wide && sa >= 17 && sb >= 17 && (sa > 47 || sb > 47) }

  /** What an operand may be. */
  predicate Operand(v: int, small: bool) { -32768 <= v <= 32767 && (small ==> -16383 <= v <= 16383) }

  /** All paths of add_range compute the same element, unless a shift is too far. */
  lemma PathsAgree(x: int, y: int, ma: nat, sa: nat, mb: nat, sb: nat, wide: bool, small: bool)
    requires sa <= 62 && sb <= 62 && !ShiftsTooFar(sa, sb, wide) && ma < 0x8000_0000 && mb < 0x8000_0000
    requires Operand(x, small) && Operand(y, small)
    ensures Element(x, y, ma, sa, mb, sb, wide, small) == Added(x, y, ma, sa, mb, sb)
  {
    hide ApplyMultiplier, ShiftedForm, ShortForm;
    if wide && sa >= 17 && sb >= 17 {
      SameAsApply(x, ma, sa);
      SameAsApply(y, mb, sb);
      if small {
        ShortIs(x, ma, sa);
        ShortIs(y, mb, sb);
      } else {
        ShiftedIs(x, ma, sa);
        ShiftedIs(y, mb, sb);
      }
    }
  }

  // ---------------------------------------------------------------- shifts of 48 and more

  /** A product with m, rounded at a shift of 48 or more. */
  lemma FarRounded(m: nat, s: nat)
    requires 48 <= s && m < 0x8000_0000
    ensures RoundUp(0, s) == 0 && RoundUp(m, s) == 0
  {
    Pow2Table();
    Pow2Mono(32, s - 1);
    AsrSmall(Pow2(s - 1), s);
    AsrSmall(m + Pow2(s - 1), s);
  }

  lemma FarApplied(m: nat, s: nat)
    requires 48 <= s <= 62 && m < 0x8000_0000
    ensures ApplyMultiplier(0, m, s) == 0 && ApplyMultiplier(1, m, s) == 0
  {
    FarRounded(m, s);
    ApplyIs(0, m, s);
    ApplyIs(1, m, s);
  }

  /** Nothing is left of 0, and something of 1, except that at 48 the constant is -2^31 and the shift 0. */
  lemma FarZero(m: nat, s: nat)
    requires 48 <= s <= 62
    ensures ShiftedForm(0, m, s) == if s == 48 then -0x8000_0000 else 0
  {
    hide Pow2;
    CountIs(s - 16);
    if s == 48 {
      Far48();
    } else {
      FarConstant(s);
      NoWrap32(Pow2(s - 49));
      AsrSmall(Pow2(s - 49), s - 48);
    }
  }

  lemma Far48()
    ensures OneShifted(31) == -0x8000_0000
  {
    CountIs(31);
    Pow2Table();
  }

  lemma FarConstant(s: nat)
    requires 49 <= s <= 62
    ensures OneShifted(s - 17) == Pow2(s - 49) <= 0x2000 && Pow2(s - 49) < Pow2(s - 48) <= 0x4000
  {
    CountIs(s - 17);
    assert Pow2(13) == 0x2000 && Pow2(14) == 0x4000;
    Pow2Mono(s - 49, 13);
    Pow2Mono(s - 48, 14);
    NoWrap32(Pow2(s - 49));
  }

  lemma FarOne(m: nat, s: nat)
    requires 48 <= s <= 62 && 0x4000_0000 <= m < 0x8000_0000
    ensures if s == 48 then ShiftedForm(1, m, s) == m / 0x1_0000 - 0x8000_0000 else 1 <= ShiftedForm(1, m, s) <= 0x1_0000
  {
    hide Pow2;
    var t := m / 0x1_0000;
    assert 0x1_0000 * m / 0x1_0000_0000 == t && 0x4000 <= t < 0x8000;
    CountIs(s - 16);
    if s == 48 {
      Far48();
    } else {
      FarConstant(s);
      FarBetween(t, Pow2(s - 49), s - 48);
    }
  }

  lemma FarBetween(t: nat, c: nat, k: nat)
    requires 0x4000 <= t < 0x8000 && c <= 0x2000 && Pow2(k) <= 0x4000
    ensures I32(t + c) == t + c && 1 <= Asr(t + c, k) <= 0x1_0000
  {
    hide Asr, Pow2;
    NoWrap32(t + c);
    FarAtLeast(1, t, c, k);
    AsrBetween(t + c, k);
  }

  /** The second form is the rounding of the product for all operands exactly up to a shift of 47. */
  lemma ShiftedIff(m: nat, s: nat)
    requires 17 <= s <= 62 && 0x4000_0000 <= m < 0x8000_0000
    ensures (forall v :: Operand(v, false) ==> ShiftedForm(v, m, s) == RoundUp(v * m, s)) <==> s <= 47
  {
    if s <= 47 {
      forall v | Operand(v, false) ensures ShiftedForm(v, m, s) == RoundUp(v * m, s) { ShiftedIs(v, m, s); }
    } else {
      FarRounded(m, s);
      FarZero(m, s);
      FarOne(m, s);
      assert Operand(0, false) && Operand(1, false);
    }
  }

  /** What xf_to_mult gives: a normalised mantissa and its shift, or one of two constants. */
  predicate Factor(m: nat, s: nat) {
    if s == 0 then m == 0 || 0x4000_0000 <= m < 0x8000_0000 else s <= 62 && 0x4000_0000 <= m < 0x8000_0000
  }

  /** The two operands a failing add is shown with. */
  function Probe(sa: nat, sb: nat): (int, int) {
    if sa == 48 && sb == 48 then (1, 0) else if sa == 48 || sb == 48 then (0, 0) else if sa > 47 then (1, 0) else (0, 1)
  }

  /** 0 with a shift that the forms can do. */
  lemma NearZero(m: nat, s: nat)
    requires 17 <= s <= 47 && m < 0x8000_0000
    ensures ShiftedForm(0, m, s) == 0 && ApplyMultiplier(0, m, s) == 0
  {
    ShiftedIs(0, m, s);
    SameAsApply(0, m, s);
    AsrSmall(Pow2(s - 1), s);
  }

  lemma SecondPath(x: int, y: int, ma: int, sa: nat, mb: int, sb: nat, small: bool, f: int, g: int)
    requires ShiftsTooFar(sa, sb, true) && sa <= 62 && sb <= 62
    requires f == ShiftedForm(x, ma, sa) && g == ShiftedForm(y, mb, sb)
    requires ApplyMultiplier(x, ma, sa) == 0 && ApplyMultiplier(y, mb, sb) == 0
    ensures Element(x, y, ma, sa, mb, sb, true, small) == Sat(I32(f + g)) && Added(x, y, ma, sa, mb, sb) == 0
  {
    hide ApplyMultiplier, ShiftedForm, ShortForm;
  }

  lemma FarDiffers(ma: nat, sa: nat, mb: nat, sb: nat, small: bool)
    requires Factor(ma, sa) && Factor(mb, sb) && ShiftsTooFar(sa, sb, true)
    ensures var (x, y) := Probe(sa, sb);
      Operand(x, small) && Operand(y, small) && Element(x, y, ma, sa, mb, sb, true, small) != Added(x, y, ma, sa, mb, sb)
  {
    hide ApplyMultiplier, ShiftedForm, ShortForm;
    var (x, y) := Probe(sa, sb);
    ProbeForms(x, ma, sa);
    ProbeForms(y, mb, sb);
    SecondPath(x, y, ma, sa, mb, sb, small, ShiftedForm(x, ma, sa), ShiftedForm(y, mb, sb));
  }

  /** What the second form makes of 0 and 1. */
  lemma ProbeForms(v: int, m: nat, s: nat)
    requires Factor(m, s) && 17 <= s && (v == 0 || (v == 1 && s >= 48))
    ensures ApplyMultiplier(v, m, s) == 0
    ensures v == 0 ==> ShiftedForm(v, m, s) == if s == 48 then -0x8000_0000 else 0
    ensures v == 1 ==> if s == 48 then ShiftedForm(v, m, s) == m / 0x1_0000 - 0x8000_0000 else 1 <= ShiftedForm(v, m, s) <= 0x1_0000
  {
    if s <= 47 {
      NearZero(m, s);
    } else {
      FarApplied(m, s);
      if v == 0 { FarZero(m, s); } else { FarOne(m, s); }
    }
  }

  /** For factors as they come from xf_to_mult, all paths agree on all operands exactly if no shift is too far. */
  lemma PathsAgreeIff(ma: nat, sa: nat, mb: nat, sb: nat, wide: bool, small: bool)
    requires Factor(ma, sa) && Factor(mb, sb)
    ensures (forall x, y :: Operand(x, small) && Operand(y, small) ==>
              Element(x, y, ma, sa, mb, sb, wide, small) == Added(x, y, ma, sa, mb, sb))
            <==> !ShiftsTooFar(sa, sb, wide)
  {
    if ShiftsTooFar(sa, sb, wide) {
      FarDiffers(ma, sa, mb, sb, small);
    } else {
      forall x, y | Operand(x, small) && Operand(y, small)
        ensures Element(x, y, ma, sa, mb, sb, wide, small) == Added(x, y, ma, sa, mb, sb)
      {
        PathsAgree(x, y, ma, sa, mb, sb, wide, small);
      }
    }
  }

  /** With factors below 2^-18 the sum of 8191 and 0 should vanish, and is 8191. */
  lemma FarInput(x: int, ma: nat, sa: nat, mb: nat, sb: nat)
    requires x == 8191 && Factor(ma, sa) && Factor(mb, sb) && sa >= 49 && 17 <= sb <= 47
    ensures Element(x, 0, ma, sa, mb, sb, true, true) == 8191 && Added(x, 0, ma, sa, mb, sb) == 0
  {
    hide ShiftedForm, ShortForm, ApplyMultiplier;
    FarLarge(x, ma, sa);
    FarVanishes(x, ma, sa);
    NearZero(mb, sb);
    SecondPath(x, 0, ma, sa, mb, sb, true, ShiftedForm(x, ma, sa), 0);
  }

  lemma FarLarge(x: nat, m: nat, s: nat)
    requires x <= 8191 && Factor(m, s) && s >= 49
    ensures x <= ShiftedForm(x, m, s) <= 0x2000_0000
  {
    FarConstant(s);
    CountIs(s - 16);
    ShiftedHigh(x, m, x * m);
    hide Asr, Left, Pow2;
    var t, k := x * m / 0x1_0000, s - 48;
    Below(x, 8191, m);
    Below(0x4000_0000, m, x);
    assert x * 0x4000 <= t <= 8191 * 0x8000;
    FarAtLeast(x, t, Pow2(s - 49), k);
    NoWrap32(t + Pow2(s - 49));
    AsrBetween(t + Pow2(s - 49), k);
  }

  lemma FarAtLeast(x: nat, t: int, c: nat, k: nat)
    requires Pow2(k) <= 0x4000 && t >= x * 0x4000
    ensures Asr(t + c, k) >= x
  {
    hide Asr, Left, Pow2;
    Below(Pow2(k), 0x4000, x);
    LeftTimes(x, k);
    AsrMono(Left(x, k), t + c, k);
    AsrUnits(0, x, k);
    AsrBetween(0, k);
  }

  lemma FarVanishes(x: nat, m: nat, s: nat)
    requires x <= 8191 && Factor(m, s) && s >= 49
    ensures ApplyMultiplier(x, m, s) == 0
  {
    Below(x, 8191, m);
    RoundsAway(x * m, s);
    ApplyIs(x, m, s);
  }

  lemma RoundsAway(p: nat, s: nat)
    requires p < 0x1000_0000_0000 && s >= 49
    ensures RoundUp(p, s) == 0
  {
    Pow2Table();
    Pow2At16();
    Pow2Add(16, 28);
    Pow2Mono(44, s - 1);
    AsrSmall(p + Pow2(s - 1), s);
  }

  // ---------------------------------------------------------------- the loop

  ghost predicate Within16(s: seq<int>, small: bool) {
    forall i :: 0 <= i < |s| ==> Operand(s[i], small)
  }

  /** add_range: elements e0 .. e1 of the sum, and the largest magnitude among them and the one before. */
  method AddRange(a: seq<int>, b: seq<int>, out: array<int>, wide: bool, small: bool, ma: nat, sa: nat, mb: nat, sb: nat,
                  e0: nat, e1: nat, omax0: int) returns (omax: int)
    requires |a| == |b| == out.Length && e0 <= e1 <= |a| && Within16(a, small) && Within16(b, small)
    requires sa <= 62 && sb <= 62 && ma < 0x8000_0000 && mb < 0x8000_0000
    modifies out
    ensures forall i :: 0 <= i < out.Length ==>
      out[i] == if e0 <= i < e1 then Element(a[i], b[i], ma, sa, mb, sb, wide, small) else old(out[i])
    ensures !ShiftsTooFar(sa, sb, wide) ==>
      forall i :: e0 <= i < e1 ==> out[i] == Added(a[i], b[i], ma, sa, mb, sb)
    ensures omax >= omax0 && forall i :: e0 <= i < e1 ==> Abs(out[i]) <= omax
    ensures omax == omax0 || exists i :: e0 <= i < e1 && omax == Abs(out[i])
  {
    omax := omax0;
    var i := e0;
    while i < e1
      invariant e0 <= i <= e1
      invariant forall k :: 0 <= k < out.Length ==>
        out[k] == if e0 <= k < i then Element(a[k], b[k], ma, sa, mb, sb, wide, small) else old(out[k])
      invariant omax >= omax0 && forall k :: e0 <= k < i ==> Abs(out[k]) <= omax
      invariant omax == omax0 || exists k :: e0 <= k < i && omax == Abs(out[k])
    {
      out[i] := Element(a[i], b[i], ma, sa, mb, sb, wide, small);
      omax := Max(omax, Abs(out[i]));
      i := i + 1;
    }
    if !ShiftsTooFar(sa, sb, wide) {
      forall k | e0 <= k < e1 ensures out[k] == Added(a[k], b[k], ma, sa, mb, sb) {
        PathsAgree(a[k], b[k], ma, sa, mb, sb, wide, small);
      }
    }
  }
}
