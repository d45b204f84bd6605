/** Attention on an int16 x int8 multiplier (dav2_engine.c:146-224, 452-561): byte splits, packed sums, normalisation. */
module Attention {
  import opened AccelMath
  import opened Arith
  import opened Bits
  import opened Words

  const QK_MAX: int := 2047
  const HEAD: nat := 64

  // ---------------------------------------------------------------- the range of q

  /** a | b */
  function Or(a: nat, b: nat): nat {
    if a == 0 && b == 0 then 0 else 2 * Or(a / 2, b / 2) + (if a % 2 == 1 || b % 2 == 1 then 1 else 0)
  }

  /** Bit k is set in a | b if it is set in either. */
  lemma {:induction false} OrIs(a: nat, b: nat, k: nat)
    ensures Asr(Or(a, b), k) % 2 == 1 <==> Asr(a, k) % 2 == 1 || Asr(b, k) % 2 == 1
    decreases k
  {
    if k > 0 {
      OrHalves(a, b);
      OrIs(a / 2, b / 2, k - 1);
    }
  }

  lemma OrHalves(a: nat, b: nat)
    ensures Or(a, b) / 2 == Or(a / 2, b / 2) && (Or(a, b) % 2 == 1 <==> a % 2 == 1 || b % 2 == 1)
  {}

  /** The highest bit of a | b is that of the larger one. */
  lemma {:induction false} OrBits(a: nat, b: nat, n: nat)
    ensures Or(a, b) < Pow2(n) <==> a < Pow2(n) && b < Pow2(n)
    decreases n
  {
    if n == 0 {
      if a + b > 0 { OrPositive(a, b); }
    } else {
      OrBits(a / 2, b / 2, n - 1);
    }
  }

  lemma {:induction false} OrPositive(a: nat, b: nat)
    requires a + b > 0
    ensures Or(a, b) > 0
    decreases a + b
  {
    if a % 2 == 0 && b % 2 == 0 { OrPositive(a / 2, b / 2); }
  }

  /** 14-bit activations. */
  ghost predicate Act(s: seq<int>) { forall i :: 0 <= i < |s| ==> -8191 <= s[i] <= 8191 }

  /** A value of fewer than s + 11 bits has at most 11 bits and a sign after the shift; -2048 occurs. */
  lemma {:induction false} AsrRange11(v: int, s: nat)
    requires -(Pow2(s + 11) as int) <= v < Pow2(s + 11)
    ensures -2048 <= Asr(v, s) <= 2047
    decreases s
  {
    if s > 0 { AsrRange11(v / 2, s - 1); } else { Eleven(); }
  }

  lemma Eleven()
    ensures Pow2(11) == 2048
  {
    assert Pow2(8) == 256;
  }

  /** A shifted value is at least c exactly if the value is at least c << s. */
  lemma {:induction false} AsrAtLeast(v: int, c: int, s: nat)
    ensures Asr(v, s) >= c <==> v >= Left(c, s)
    decreases s
  {
    if s > 0 { AsrAtLeast(v / 2, c, s - 1); }
  }

  /** sh is the least shift that leaves every magnitude below 11 bits. */
  ghost predicate LeastShift(q: seq<int>, sh: nat) {
    && (forall i :: 0 <= i < |q| ==> Abs(q[i]) < Pow2(sh + 11))
    && (sh == 0 || exists i :: 0 <= i < |q| && Abs(q[i]) >= Pow2(sh + 10))
  }

  lemma LeastShiftUnique(q: seq<int>, s: nat, t: nat)
    requires LeastShift(q, s) && LeastShift(q, t)
    ensures s == t
  {
    if s < t { Pow2Mono(s + 11, t + 10); } else if t < s { Pow2Mono(t + 11, s + 10); }
  }

  /** Every shifted value has 12 bits, and is within 2047 exactly if no value is below -(2047 << sh). */
  lemma ShiftedWithin(q: seq<int>, sh: nat)
    requires LeastShift(q, sh)
    ensures forall i :: 0 <= i < |q| ==> -2048 <= Asr(q[i], sh) <= 2047
    ensures (forall i :: 0 <= i < |q| ==> Abs(Asr(q[i], sh)) <= QK_MAX) <==> (forall i :: 0 <= i < |q| ==> q[i] >= -Left(QK_MAX, sh))
  {
    LeftNegated(QK_MAX, sh);
    forall i | 0 <= i < |q|
      ensures -2048 <= Asr(q[i], sh) <= 2047 && (Abs(Asr(q[i], sh)) <= QK_MAX <==> q[i] >= -Left(QK_MAX, sh))
    {
      AsrRange11(q[i], sh);
      AsrAtLeast(q[i], -QK_MAX, sh);
    }
  }

  /** -8191 is shifted by 2 and becomes -2048. */
  lemma BelowTheLimit(q: seq<int>, sh: nat)
    requires q == [-8191] && LeastShift(q, sh)
    ensures sh == 2 && Asr(q[0], sh) == -2048
  {
    assert Pow2(13) == 8192 && Pow2(12) == 4096;
    assert Abs(q[0]) >= Pow2(2 + 10) && LeastShift(q, 2);
    LeastShiftUnique(q, sh, 2);
    assert Asr(-8191, 2) == Asr(-4096, 1) == Asr(-2048, 0);
  }

  /** The shift that brings q to 11 bits and a sign: from the OR of all magnitudes. */
  method QShift(q: seq<int>) returns (sh: nat)
    requires Act(q)
    ensures LeastShift(q, sh)
    ensures forall i :: 0 <= i < |q| ==> -2048 <= Asr(q[i], sh) <= 2047
    ensures (forall i :: 0 <= i < |q| ==> Abs(Asr(q[i], sh)) <= QK_MAX) <==> (forall i :: 0 <= i < |q| ==> q[i] >= -Left(QK_MAX, sh))
  {
    var qmax: nat := 0;
    var i := 0;
    while i < |q|
      invariant i <= |q|
      invariant forall n: nat :: qmax < Pow2(n) <==> forall k :: 0 <= k < i ==> Abs(q[k]) < Pow2(n)
    {
      forall n: nat ensures Or(qmax, Abs(q[i])) < Pow2(n) <==> forall k :: 0 <= k < i + 1 ==> Abs(q[k]) < Pow2(n) {
        OrBits(qmax, Abs(q[i]), n);
      }
      qmax := Or(qmax, Abs(q[i]));
      i := i + 1;
    }
    sh := 0;
    while Right(qmax, sh) > QK_MAX
      invariant sh == 0 || qmax >= Pow2(sh + 10)
      decreases qmax - sh
    {
      RightBits(qmax, sh);
      ShiftBound(qmax, sh);
      sh := sh + 1;
    }
    RightBits(qmax, sh);
    ShiftedWithin(q, sh);
  }

  lemma {:induction false} RightBits(a: nat, s: nat)
    ensures Right(a, s) <= QK_MAX <==> a < Pow2(s + 11)
    decreases s
  {
    if s > 0 { RightBits(a / 2, s - 1); } else { Eleven(); }
  }

  lemma {:induction false} ShiftBound(a: nat, s: nat)
    requires a >= Pow2(s + 11)
    ensures a > s
  {
    PowAbove(s + 11);
  }

  lemma {:induction false} PowAbove(n: nat)
    ensures Pow2(n) > n
  {
    if n > 0 { PowAbove(n - 1); }
  }

  // ---------------------------------------------------------------- byte splits

  /** The signed value of the low byte. */
  function S8(b: nat): int { if b % 256 >= 128 then b % 256 - 256 else b % 256 }

  /** The high part of v as it is stored in a byte, and the low part, for a split at 2^k = c. */
  function HighByte(v: int, c: nat): int
    requires c > 0
  {
    S8(v / c % 256)
  }

  function LowByte(v: int, c: nat): int
    requires c > 0
  {
    S8(v % c)
  }

  lemma S8Is(w: int)
    requires -128 <= w <= 127
    ensures S8(w % 256) == w
  {}

  /** Splits at 16 (q, 12 bits) and at 64 (v, 14 bits): both parts fit a signed byte, and give v back. */
  lemma Split(v: int, c: nat)
    requires (c == 16 && -2048 <= v <= 2047) || (c == 64 && -8192 <= v <= 8191)
    ensures -128 <= HighByte(v, c) <= 127 && 0 <= LowByte(v, c) < c
    ensures v == c * HighByte(v, c) + LowByte(v, c)
  {
    var w := v / c;
    assert -128 <= w <= 127;
    S8Is(w);
  }

  /** hi and lo are the split of w. */
  ghost predicate Parts8(w: seq<int>, hi: seq<int>, lo: seq<int>, c: int) {
    |hi| == |lo| == |w| && forall i :: 0 <= i < |w| ==>
      w[i] == c * hi[i] + lo[i] && -128 <= hi[i] <= 127 && 0 <= lo[i] < c
  }

  /** attn_prep_qk: the high and low bytes of the shifted q. */
  method PrepQ(q: seq<int>) returns (hi: array<int>, lo: array<int>, sh: nat, ghost w: seq<int>)
    requires Act(q)
    ensures |w| == |q| && (forall i :: 0 <= i < |q| ==> w[i] == Asr(q[i], sh) && -2048 <= w[i] <= 2047)
    ensures (forall i :: 0 <= i < |q| ==> Abs(w[i]) <= QK_MAX) <==> (forall i :: 0 <= i < |q| ==> q[i] >= -Left(QK_MAX, sh))
    ensures Parts8(w, hi[..], lo[..], 16)
  {
    sh := QShift(q);
    w := seq(|q|, i requires 0 <= i < |q| => Asr(q[i], sh));
    hi, lo := new int[|q|], new int[|q|];
    var i := 0;
    while i < |q|
      invariant i <= |q|
      invariant forall k :: 0 <= k < i ==> w[k] == 16 * hi[k] + lo[k] && -128 <= hi[k] <= 127 && 0 <= lo[k] < 16
    {
      var v := Asr(q[i], sh);
      Split(v, 16);
      hi[i], lo[i] := HighByte(v, 16), LowByte(v, 16);
      i := i + 1;
    }
  }

  /** attn_prep_v: v transposed, n tokens padded with zeros to Kp, split into bytes. */
  method PrepV(v: seq<seq<int>>, n: nat, Kp: nat) returns (hi: array<int>, lo: array<int>, ghost w: seq<int>)
    requires n <= |v| && n <= Kp && forall t :: 0 <= t < n ==> |v[t]| == HEAD && Act(v[t])
    ensures |w| == HEAD * Kp && Parts8(w, hi[..], lo[..], 64)
    ensures forall i :: 0 <= i < |w| && Kp > 0 ==> w[i] == Transposed(v, n, Kp, i)
  {
    hi, lo := new int[HEAD * Kp], new int[HEAD * Kp];
    w := [];
    var i := 0;
    while i < HEAD * Kp
      invariant i <= HEAD * Kp && |w| == i
      invariant forall k :: 0 <= k < i && Kp > 0 ==> w[k] == Transposed(v, n, Kp, k)
      invariant forall k :: 0 <= k < i ==> w[k] == 64 * hi[k] + lo[k] && -128 <= hi[k] <= 127 && 0 <= lo[k] < 64
    {
      RowsBelow(Kp, HEAD);
      assert Kp * HEAD == HEAD * Kp;
      var d, t := RowOf(Kp, i), ColOf(Kp, i);
      var x := if t < n then v[t][d] else 0;
      Split(x, 64);
      hi[i], lo[i] := HighByte(x, 64), LowByte(x, 64);
      w := w + [x];
      i := i + 1;
    }
  }

  function Transposed(v: seq<seq<int>>, n: nat, Kp: nat, i: nat): int
    requires Kp > 0
  {
    var d, t := RowOf(Kp, i), ColOf(Kp, i);
    if t < n && t < |v| then At(v[t], d) else 0
  }

  // ---------------------------------------------------------------- products of the parts

  /** The products with the parts give the product with the whole. */
  lemma {:induction false} DotParts(a: seq<int>, i: int, w: seq<int>, hi: seq<int>, lo: seq<int>, j: nat, c: int, k: nat)
    requires Parts8(w, hi, lo, c) && j + k <= |w|
    ensures c * Dot(a, i, hi, j, k) + Dot(a, i, lo, j, k) == Dot(a, i, w, j, k)
    decreases k
  {
    if k > 0 {
      DotParts(a, i, w, hi, lo, j, c, k - 1);
      MulParts(At(a, i + k - 1), hi[j + k - 1], lo[j + k - 1], c, w[j + k - 1]);
      var x, y := Dot(a, i, hi, j, k - 1), Mul(At(a, i + k - 1), hi[j + k - 1]);
      assert c * (x + y) == c * x + c * y;
    }
  }

  lemma MulParts(x: int, h: int, l: int, c: int, w: int)
    requires w == c * h + l
    ensures Mul(x, w) == c * Mul(x, h) + Mul(x, l)
  {
    var p := x * h;
    assert x * w == x * (c * h) + x * l;
    assert x * (c * h) == c * p;
  }

  /** A sum of k products of bounded factors. */
  lemma {:induction false} DotWithin(a: seq<int>, i: int, w: seq<int>, j: int, k: nat, A: nat, B: nat, c: nat)
    requires c == A * B && (forall x :: 0 <= x < |a| ==> -(A as int) <= a[x] <= A) && (forall x :: 0 <= x < |w| ==> -(B as int) <= w[x] <= B)
    ensures -(k * c) <= Dot(a, i, w, j, k) <= k * c
    decreases k
  {
    if k > 0 {
      DotWithin(a, i, w, j, k - 1, A, B, c);
      var x, y := At(a, i + k - 1), At(w, j + k - 1);
      FactorsWithin(x, A, y, B, c);
      assert k * c == (k - 1) * c + c;
    }
  }

  lemma FactorsWithin(x: int, A: nat, y: int, B: nat, c: nat)
    requires -(A as int) <= x <= A && -(B as int) <= y <= B && c == A * B
    ensures -(c as int) <= Mul(x, y) <= c
  {
    var m, n := Abs(x), Abs(y);
    Below(m, A, n);
    Below(n, B, A);
    var q: int := m * n;
    assert x * y == q || x * y == -q;
  }

  /** Two parts of a sum combined in 32 bits. */
  lemma Combined(x: int, y: int, c: int, w: int)
    requires c * x + y == w && (c == 16 || c == 64) && -0x200_0000 * 4 <= x <= 0x200_0000 * 4 && -0x4000_0000 <= y <= 0x4000_0000
    requires -0x7fff_0000 <= w <= 0x7fff_0000 && -0x7fff_0000 <= c * x <= 0x7fff_0000
    ensures I32(x) == x && I32(y) == y && I32(I32(I32(x) * c) + I32(y)) == w
  {}

  lemma ScoreBounds(key: seq<int>, i: int, w: seq<int>, hi: seq<int>, lo: seq<int>, j: nat)
    requires Act(key) && Parts8(w, hi, lo, 16) && j + HEAD <= |w|
    ensures -0x400_0000 <= Dot(key, i, hi, j, HEAD) <= 0x400_0000
    ensures -0x400_0000 <= Dot(key, i, lo, j, HEAD) <= 0x400_0000
  {
    DotWithin(key, i, hi, j, HEAD, 8191, 128, 1048448);
    DotWithin(key, i, lo, j, HEAD, 8191, 15, 122865);
  }

  /** Scores: 16 S_hi + S_lo is k . (q >> q_sh), and nothing on the way leaves 32 bits. */
  lemma ScoreExact(key: seq<int>, i: int, w: seq<int>, hi: seq<int>, lo: seq<int>, j: nat)
    requires Act(key) && Parts8(w, hi, lo, 16) && j + HEAD <= |w|
    ensures var sh, sl := I32(Dot(key, i, hi, j, HEAD)), I32(Dot(key, i, lo, j, HEAD));
      sh == Dot(key, i, hi, j, HEAD) && sl == Dot(key, i, lo, j, HEAD) && I32(I32(sh * 16) + sl) == Dot(key, i, w, j, HEAD)
  {
    hide Dot, Act, Parts8, I32;
    var sh, sl := Dot(key, i, hi, j, HEAD), Dot(key, i, lo, j, HEAD);
    DotParts(key, i, w, hi, lo, j, 16, HEAD);
    ScoreBounds(key, i, w, hi, lo, j);
    Combined(sh, sl, 16, Dot(key, i, w, j, HEAD));
  }

  // ---------------------------------------------------------------- sums of the columns of P^T

  /** A word of two probabilities. */
  function Pack(p0: nat, p1: nat): nat { p0 + 0x1_0000 * p1 }

  /** The sum of column q of the first k rows. */
  function ColumnSum(pt: seq<seq<nat>>, q: nat, k: nat): nat
    requires k <= |pt|
  {
    if k == 0 then 0 else ColumnSum(pt, q, k - 1) + (if q < |pt[k - 1]| then pt[k - 1][q] else 0)
  }

  /** Unsigned 16-bit entries, at least n of them in each row. */
  ghost predicate Entries(pt: seq<seq<nat>>, n: nat) {
    forall r :: 0 <= r < |pt| ==> |pt[r]| >= n && forall q :: 0 <= q < |pt[r]| ==> pt[r][q] < 0x1_0000
  }

  lemma {:induction false} SumFits(pt: seq<seq<nat>>, n: nat, q: nat, k: nat)
    requires Entries(pt, n) && k <= |pt|
    ensures ColumnSum(pt, q, k) <= 0xffff * k
  {
    if k > 0 { SumFits(pt, n, q, k - 1); }
  }

  /** T adds whole words, H their upper halves, in 32 bits: both sums come out exactly. */
  lemma Unpacked(t: nat, h: nat, s0: nat, s1: nat)
    requires t == U32(Pack(s0, s1)) && h == U32(s1) && s0 < 0x1_0000_0000 && s1 < 0x1_0000_0000
    ensures h == s1 && U32(t as int - h * 0x1_0000) == s0
  {
    var q := (s0 + 0x1_0000 * s1) / 0x1_0000_0000;
    assert t == s0 + 0x1_0000 * s1 - q * 0x1_0000_0000;
    U32Period(s0, -q);
  }

  /** attn_softmax_accel_sums: all column sums, four words of two columns each in one go over the rows. */
  method Sums(pt: seq<seq<nat>>, n: nat, sum: array<nat>)
    requires Entries(pt, n) && |pt| == n && n % 2 == 0 && n < 0x1_0000 && sum.Length >= n
    modifies sum
    ensures forall q :: 0 <= q < n ==> sum[q] == ColumnSum(pt, q, n)
  {
    var w0 := 0;
    while w0 < n / 2
      invariant forall q :: 0 <= q < n && q < 2 * w0 ==> sum[q] == ColumnSum(pt, q, n)
    {
      var nw := if n / 2 - w0 < 4 then n / 2 - w0 else 4;
      SumGroup(pt, n, sum, w0, nw);
      w0 := w0 + 4;
    }
  }

  /** What T and H hold after k rows. */
  ghost predicate Accumulated(pt: seq<seq<nat>>, w0: nat, k: nat, T: seq<nat>, H: seq<nat>) {
    |T| == |H| && forall i :: 0 <= i < |T| ==> AccumulatedAt(pt, w0 + i, k, T[i], H[i])
  }

  /** One group of nw words: all rows, then the two sums of each word. */
  method SumGroup(pt: seq<seq<nat>>, n: nat, sum: array<nat>, w0: nat, nw: nat)
    requires Entries(pt, n) && |pt| == n && n % 2 == 0 && n < 0x1_0000 && sum.Length >= n && w0 + nw <= n / 2
    modifies sum
    ensures forall q :: 0 <= q < sum.Length ==>
      sum[q] == if 2 * w0 <= q < 2 * (w0 + nw) then ColumnSum(pt, q, n) else old(sum[q])
  {
    var T, H := seq(nw, i => 0), seq(nw, i => 0);
    var key := 0;
    while key < n
      modifies {}
      invariant key <= n && |T| == nw && Accumulated(pt, w0, key, T, H)
    {
      T, H := AddRow(pt, n, key, w0, T, H);
      key := key + 1;
    }
    var i := 0;
    while i < nw
      invariant i <= nw
      invariant forall q :: 0 <= q < sum.Length ==>
        sum[q] == if 2 * w0 <= q < 2 * (w0 + i) then ColumnSum(pt, q, n) else old(sum[q])
    {
      SumFits(pt, n, 2 * (w0 + i), n);
      SumFits(pt, n, 2 * (w0 + i) + 1, n);
      Unpacked(T[i], H[i], ColumnSum(pt, 2 * (w0 + i), n), ColumnSum(pt, 2 * (w0 + i) + 1, n));
      sum[2 * (w0 + i)] := U32(T[i] as int - H[i] * 0x1_0000);
      sum[2 * (w0 + i) + 1] := H[i];
      i := i + 1;
    }
  }

  /** The state of word i after k rows. */
  ghost predicate AccumulatedAt(pt: seq<seq<nat>>, w: nat, k: nat, t: nat, h: nat) {
    k <= |pt| && t == U32(Pack(ColumnSum(pt, 2 * w, k), ColumnSum(pt, 2 * w + 1, k))) && h == U32(ColumnSum(pt, 2 * w + 1, k))
  }

  method AddWord(pt: seq<seq<nat>>, n: nat, key: nat, w: nat, t: nat, h: nat) returns (t': nat, h': nat)
    requires Entries(pt, n) && key < |pt| && 2 * w + 1 < n && AccumulatedAt(pt, w, key, t, h)
    ensures AccumulatedAt(pt, w, key + 1, t', h')
  {
    var p0, p1 := pt[key][2 * w], pt[key][2 * w + 1];
    var a := Pack(p0, p1);
    UpperHalf(p0, p1);
    WordAdded(t, h, ColumnSum(pt, 2 * w, key), ColumnSum(pt, 2 * w + 1, key), p0, p1);
    t', h' := U32(t + a), U32(h + a / 0x1_0000);
  }

  /** One row of the words w0 .. w0 + |T|. */
  method AddRow(pt: seq<seq<nat>>, n: nat, key: nat, w0: nat, T: seq<nat>, H: seq<nat>) returns (T': seq<nat>, H': seq<nat>)
    requires Entries(pt, n) && key < |pt| && w0 + |T| <= n / 2 && Accumulated(pt, w0, key, T, H)
    ensures |T'| == |T| && Accumulated(pt, w0, key + 1, T', H')
  {
    T', H' := T, H;
    var i := 0;
    while i < |T|
      invariant i <= |T| == |T'| == |H'| && forall k :: i <= k < |T| ==> T'[k] == T[k] && H'[k] == H[k]
      invariant forall k :: 0 <= k < i ==> AccumulatedAt(pt, w0 + k, key + 1, T'[k], H'[k])
    {
      var t, h := AddWord(pt, n, key, w0 + i, T[i], H[i]);
      T', H' := T'[i := t], H'[i := h];
      i := i + 1;
    }
  }

  lemma WordAdded(t: nat, h: nat, s0: nat, s1: nat, p0: nat, p1: nat)
    requires t == U32(Pack(s0, s1)) && h == U32(s1)
    ensures U32(t + Pack(p0, p1)) == U32(Pack(s0 + p0, s1 + p1)) && U32(h + p1) == U32(s1 + p1)
  {
    var x, y := Pack(s0, s1), Pack(p0, p1);
    assert x + y == Pack(s0 + p0, s1 + p1);
    AddedAfter(x, y);
    AddedAfter(s1, p1);
  }

  lemma UpperHalf(p0: nat, p1: nat)
    requires p0 < 0x1_0000
    ensures Pack(p0, p1) / 0x1_0000 == p1
  {}

  // ---------------------------------------------------------------- normalisation

  /** The reciprocal of a column sum, and an entry divided by the sum. */
  function Inverse(sum: nat): nat { (0x8000_0000 - 0x1_0000) / if sum == 0 then 1 else sum }
  function Scaled(p: nat, inv: nat): nat { (p * inv + 0x8000) / 0x1_0000 }

  /** No entry exceeds 32767, without a clamp, and the product stays below 2^31. */
  lemma ScaledFits(p: nat, sum: nat)
    requires p <= sum
    ensures p * Inverse(sum) + 0x8000 < 0x8000_0000 && Scaled(p, Inverse(sum)) <= 32767
  {
    if sum > 0 {
      Below(p, sum, Inverse(sum));
      InverseNear(sum);
    }
  }

  function Total(s: seq<nat>): nat { if s == [] then 0 else s[0] + Total(s[1..]) }

  function ScaledRow(p: seq<nat>, inv: nat): (r: seq<nat>)
    ensures |r| == |p| && forall i :: 0 <= i < |p| ==> r[i] == Scaled(p[i], inv)
  {
    seq(|p|, i requires 0 <= i < |p| => Scaled(p[i], inv))
  }

  /** Each entry is rounded to nearest, a half upwards. */
  lemma ScaledNear(p: nat, inv: nat)
    ensures -0x8000 < 0x1_0000 * Scaled(p, inv) - p * inv <= 0x8000
  {}

  lemma {:induction false} TotalScaled(p: seq<nat>, inv: nat)
    ensures -0x8000 * |p| <= 0x1_0000 * Total(ScaledRow(p, inv)) - Total(p) * inv <= 0x8000 * |p|
    decreases |p|
  {
    if p != [] {
      TotalScaled(p[1..], inv);
      assert ScaledRow(p, inv)[1..] == ScaledRow(p[1..], inv);
      ScaledNear(p[0], inv);
      Distributes(p[0], Total(p[1..]), inv);
    }
  }

  lemma Distributes(a: nat, b: nat, c: nat)
    ensures (a + b) * c == a * c + b * c
  {}

  lemma InverseNear(sum: nat)
    requires sum > 0
    ensures 0x7fff_0000 - sum < sum * Inverse(sum) <= 0x7fff_0000
  {
    var inv := Inverse(sum);
    assert inv * sum <= 0x7fff_0000 < (inv + 1) * sum;
    assert (inv + 1) * sum == inv * sum + sum;
  }

  /** A row adds up to 32767, within n / 2 and sum / 2^16. */
  lemma RowTotal(p: seq<nat>, sum: nat)
    requires sum == Total(p) > 0
    ensures var d := Total(ScaledRow(p, Inverse(sum))) - 32767;
      -(0x8000 * |p| + sum) <= 0x1_0000 * d <= 0x8000 * |p|
  {
    TotalScaled(p, Inverse(sum));
    InverseNear(sum);
  }

  /** A row of zeros stays one. */
  lemma {:induction false} ZeroRow(p: seq<nat>, i: nat)
    requires Total(p) == 0 && i < |p|
    ensures p[i] == 0 && Scaled(p[i], Inverse(0)) == 0
  {
    if i > 0 { ZeroRow(p[1..], i - 1); }
  }

  // ---------------------------------------------------------------- context

  /** A sum weighted by probabilities is bounded by their total. */
  lemma {:induction false} WeightedWithin(p: seq<nat>, w: seq<int>, j: nat, k: nat, B: nat, a: seq<int>)
    requires k <= |p| == |a| && j + k <= |w| && (forall i :: 0 <= i < |p| ==> a[i] == p[i])
    requires forall x :: 0 <= x < |w| ==> -(B as int) <= w[x] <= B
    ensures -(Total(p[..k]) * B) <= Dot(a, 0, w, j, k) <= Total(p[..k]) * B
    decreases k
  {
    if k > 0 {
      WeightedWithin(p, w, j, k - 1, B, a);
      TotalLast(p[..k]);
      assert p[..k][..k - 1] == p[..k - 1];
      FactorsWithin(a[k - 1], p[k - 1], w[j + k - 1], B, p[k - 1] * B);
      WeightedStep(Dot(a, 0, w, j, k - 1), Mul(a[k - 1], w[j + k - 1]), Total(p[..k - 1]), p[k - 1], B);
    }
  }

  lemma WeightedStep(x: int, y: int, t: nat, u: nat, B: nat)
    requires -(t * B) <= x <= t * B && -(u * B) <= y <= u * B
    ensures -((t + u) * B) <= x + y <= (t + u) * B
  {}

  lemma {:induction false} TotalLast(p: seq<nat>)
    requires p != []
    ensures Total(p) == Total(p[..|p| - 1]) + p[|p| - 1]
    decreases |p|
  {
    if |p| > 1 {
      TotalLast(p[1..]);
      assert p[1..][..|p| - 2] == p[..|p| - 1][1..];
    } else {
      assert p[..0] == [] && p[1..] == [];
    }
  }

  /** Context: 64 C_hi + C_lo is P . v for a row P of probabilities, and nothing on the way leaves 32 bits. */
  lemma ContextExact(p: seq<nat>, a: seq<int>, w: seq<int>, hi: seq<int>, lo: seq<int>, j: nat)
    requires |a| == |p| && (forall i :: 0 <= i < |p| ==> a[i] == p[i]) && Total(p) <= 0xffff
    requires Parts8(w, hi, lo, 64) && j + |p| <= |w|
    ensures var ch, cl := I32(Dot(a, 0, hi, j, |p|)), I32(Dot(a, 0, lo, j, |p|));
      ch == Dot(a, 0, hi, j, |p|) && cl == Dot(a, 0, lo, j, |p|) && I32(I32(ch * 64) + cl) == Dot(a, 0, w, j, |p|)
  {
    var n := |p|;
    assert p[..n] == p;
    DotParts(a, 0, w, hi, lo, j, 64, n);
    WeightedWithin(p, hi, j, n, 128, a);
    WeightedWithin(p, lo, j, n, 63, a);
    Below(Total(p), 0xffff, 128);
    Below(Total(p), 0xffff, 63);
    Combined(Dot(a, 0, hi, j, n), Dot(a, 0, lo, j, n), 64, Dot(a, 0, w, j, n));
  }

  /** One context value of attn_normalise: rounded to 15 bits less, and clamped. */
  function Context(ch: int, cl: int): int { Rounded(I32(I32(ch * 64) + cl)) }
  function Rounded(c: int): int { Sat(I32(c + 16384) / 0x8000) }

  lemma WithoutWrap(x: int)
    requires -0x7fff_0000 <= x <= 0x7fff_0000
    ensures Rounded(x) == Sat((x + 16384) / 0x8000)
  {}

  lemma ContextBound(p: seq<nat>, a: seq<int>, w: seq<int>, j: nat, t: nat)
    requires |a| == |p| && (forall i :: 0 <= i < |p| ==> a[i] == p[i]) && Total(p) <= t && j + |p| <= |w| && Act(w)
    ensures -8191 * t <= Dot(a, 0, w, j, |p|) <= 8191 * t
  {
    assert p[..|p|] == p;
    WeightedWithin(p, w, j, |p|, 8191, a);
    Below(Total(p), t, 8191);
  }

  /** The context is P . v / 2^15, rounded and clamped, without 32-bit overflow; a row that adds up to at most 2^15 needs no clamp. */
  lemma ContextRounds(p: seq<nat>, a: seq<int>, w: seq<int>, hi: seq<int>, lo: seq<int>, j: nat, x: int)
    requires |a| == |p| && (forall i :: 0 <= i < |p| ==> a[i] == p[i]) && Total(p) <= 0xffff
    requires Parts8(w, hi, lo, 64) && j + |p| <= |w| && Act(w) && x == Dot(a, 0, w, j, |p|)
    ensures Context(I32(Dot(a, 0, hi, j, |p|)), I32(Dot(a, 0, lo, j, |p|))) == Sat((x + 16384) / 0x8000)
    ensures Total(p) <= 0x8000 ==> Sat((x + 16384) / 0x8000) == (x + 16384) / 0x8000
  {
    hide Dot, I32, Total, Parts8, Rounded;
    ContextExact(p, a, w, hi, lo, j);
    ContextBound(p, a, w, j, 0xffff);
    WithoutWrap(x);
    if Total(p) <= 0x8000 { ContextBound(p, a, w, j, 0x8000); }
  }

  // ---------------------------------------------------------------- attn_softmax_accel_norm

  /** Element x of P, for the queries done: the column of P^T scaled by its sum, zeros up to Kp. */
  function Normal(pt: seq<seq<nat>>, n: nat, sum: seq<nat>, Kp: nat, x: nat): nat
    requires Kp > 0
  {
    var q, key := RowOf(Kp, x), ColOf(Kp, x);
    if key < n && key < |pt| && q < |pt[key]| && q < |sum| then Scaled(pt[key][q], Inverse(sum[q])) else 0
  }

  /** Column q of the first k rows of P^T: what query q makes of the keys. */
  function Column(pt: seq<seq<nat>>, q: nat, k: nat): (c: seq<nat>)
    requires k <= |pt|
    ensures |c| == k
  {
    if k == 0 then [] else Column(pt, q, k - 1) + [if q < |pt[k - 1]| then pt[k - 1][q] else 0]
  }

  lemma {:induction false} ColumnAt(pt: seq<seq<nat>>, q: nat, k: nat, i: nat)
    requires i < k <= |pt|
    ensures Column(pt, q, k)[i] == if q < |pt[i]| then pt[i][q] else 0
    decreases k
  {
    if i < k - 1 { ColumnAt(pt, q, k - 1, i); }
  }

  /** Its total is the sum that was computed. */
  lemma {:induction false} ColumnTotal(pt: seq<seq<nat>>, q: nat, k: nat)
    requires k <= |pt|
    ensures Total(Column(pt, q, k)) == ColumnSum(pt, q, k)
    decreases k
  {
    if k > 0 {
      ColumnTotal(pt, q, k - 1);
      var c := Column(pt, q, k);
      TotalLast(c);
      assert c[..k - 1] == Column(pt, q, k - 1);
    }
  }

  /** Row q of P, with its padding. */
  function Row(p: seq<nat>, Kp: nat, q: nat): seq<nat>
    requires (q + 1) * Kp <= |p|
  {
    RowBound(Kp, q);
    p[q * Kp..(q + 1) * Kp]
  }

  lemma RowBound(Kp: nat, q: nat)
    ensures 0 <= q * Kp <= (q + 1) * Kp == q * Kp + Kp
  {}

  /** The rows lo .. hi of P are normalised, as Norm leaves them. */
  ghost predicate Normalised(p: seq<nat>, pt: seq<seq<nat>>, n: nat, sum: seq<nat>, Kp: nat, lo: nat, hi: nat)
    requires Kp > 0
  {
    && Entries(pt, n) && |pt| == n <= Kp && |sum| >= n && |p| == n * Kp && lo <= hi <= n
    && (forall q :: 0 <= q < n ==> sum[q] == ColumnSum(pt, q, n))
    && (forall x :: 0 <= x < |p| && lo <= RowOf(Kp, x) < hi ==> p[x] == Normal(pt, n, sum, Kp, x))
  }

  function Zeros(k: nat): (z: seq<nat>)
    ensures |z| == k && forall i :: 0 <= i < k ==> z[i] == 0
  {
    seq(k, i => 0)
  }

  /** A stored row is the scaled column of its query, and zeros. */
  lemma StoredRow(p: seq<nat>, pt: seq<seq<nat>>, n: nat, sum: seq<nat>, Kp: nat, lo: nat, hi: nat, q: nat)
    requires Kp > 0 && Normalised(p, pt, n, sum, Kp, lo, hi) && lo <= q < hi
    ensures (q + 1) * Kp <= |p|
    ensures Row(p, Kp, q) == ScaledRow(Column(pt, q, n), Inverse(sum[q])) + Zeros(Kp - n)
  {
    Below(q + 1, n, Kp);
    RowBound(Kp, q);
    var c := Column(pt, q, n);
    var r := ScaledRow(c, Inverse(sum[q])) + Zeros(Kp - n);
    forall i | 0 <= i < Kp ensures Row(p, Kp, q)[i] == r[i] { StoredAt(p, pt, n, sum, Kp, lo, hi, q, i); }
  }

  lemma StoredAt(p: seq<nat>, pt: seq<seq<nat>>, n: nat, sum: seq<nat>, Kp: nat, lo: nat, hi: nat, q: nat, i: nat)
    requires Kp > 0 && Normalised(p, pt, n, sum, Kp, lo, hi) && lo <= q < hi && i < Kp
    ensures q * Kp + i < |p|
    ensures p[q * Kp + i] == if i < n then Scaled(Column(pt, q, n)[i], Inverse(sum[q])) else 0
  {
    Parts(q, Kp, i, n);
    assert Kp * n == n * Kp;
    if i < n { ColumnAt(pt, q, n, i); }
  }

  lemma {:induction false} TotalPadded(s: seq<nat>, k: nat)
    ensures Total(s + Zeros(k)) == Total(s)
    decreases |s| + k
  {
    if s != [] {
      assert (s + Zeros(k))[1..] == s[1..] + Zeros(k);
      TotalPadded(s[1..], k);
    } else if k > 0 {
      assert s + Zeros(k) == Zeros(k) && Zeros(k)[1..] == Zeros(k - 1) == [] + Zeros(k - 1);
      TotalPadded(s, k - 1);
    }
  }

  /** Every row that is stored totals 32767, within n / 2 and sum / 2^16, and a row of sum 0 is zero; both fit 16 bits. */
  lemma StoredTotal(p: seq<nat>, pt: seq<seq<nat>>, n: nat, sum: seq<nat>, Kp: nat, lo: nat, hi: nat, q: nat)
    requires Kp > 0 && Normalised(p, pt, n, sum, Kp, lo, hi) && lo <= q < hi && n < 0x1_0000
    ensures (q + 1) * Kp <= |p|
    ensures var t := Total(Row(p, Kp, q));
      t <= 0xffff && if sum[q] == 0 then t == 0 else -(0x8000 * n + sum[q]) <= 0x1_0000 * (t - 32767) <= 0x8000 * n
  {
    hide Normalised, Row, Total, Inverse, Scaled, ColumnSum;
    SumIs(p, pt, n, sum, Kp, lo, hi, q);
    var c := Column(pt, q, n);
    StoredRow(p, pt, n, sum, Kp, lo, hi, q);
    ColumnTotal(pt, q, n);
    TotalPadded(ScaledRow(c, Inverse(sum[q])), Kp - n);
    if sum[q] == 0 { ZeroTotal(c); } else { RowTotal(c, sum[q]); }
  }

  lemma SumIs(p: seq<nat>, pt: seq<seq<nat>>, n: nat, sum: seq<nat>, Kp: nat, lo: nat, hi: nat, q: nat)
    requires Kp > 0 && Normalised(p, pt, n, sum, Kp, lo, hi) && lo <= q < hi
    ensures q < |sum| && n <= |pt| && n <= Kp && sum[q] == ColumnSum(pt, q, n)
  {}

  lemma {:induction false} ZeroTotal(p: seq<nat>)
    requires Total(p) == 0
    ensures Total(ScaledRow(p, Inverse(0))) == 0
    decreases |p|
  {
    if p != [] {
      ZeroTotal(p[1..]);
      assert ScaledRow(p, Inverse(0))[1..] == ScaledRow(p[1..], Inverse(0));
    }
  }

  /** So the context of every stored row is P . v / 2^15, rounded and clamped, with every step in 32 bits exact. */
  lemma StoredContext(p: seq<nat>, pt: seq<seq<nat>>, n: nat, sum: seq<nat>, Kp: nat, lo: nat, hi: nat, q: nat,
                      w: seq<int>, vh: seq<int>, vl: seq<int>, d: nat)
    requires Kp > 0 && Normalised(p, pt, n, sum, Kp, lo, hi) && lo <= q < hi && n < 0x1_0000
    requires |w| == HEAD * Kp && Parts8(w, vh, vl, 64) && Act(w) && d < HEAD
    ensures var i, j := q * Kp, d * Kp;
      var ch, cl := I32(Dot(p, i, vh, j, Kp)), I32(Dot(p, i, vl, j, Kp));
      && ch == Dot(p, i, vh, j, Kp) && cl == Dot(p, i, vl, j, Kp)
      && I32(I32(ch * 64) + cl) == Dot(p, i, w, j, Kp)
      && Context(ch, cl) == Sat((Dot(p, i, w, j, Kp) + 16384) / 0x8000)
  {
    hide Normalised, Total, Dot, I32, Parts8, Act, Context, Rounded, Sat;
    StoredTotal(p, pt, n, sum, Kp, lo, hi, q);
    var i, j, r := q * Kp, d * Kp, Row(p, Kp, q);
    RowBound(Kp, q);
    Below(d + 1, HEAD, Kp);
    RowBound(Kp, d);
    RowDot(p, Kp, q, vh, j);
    RowDot(p, Kp, q, vl, j);
    RowDot(p, Kp, q, w, j);
    ContextExact(r, r, w, vh, vl, j);
    ContextRounds(r, r, w, vh, vl, j, Dot(r, 0, w, j, Kp));
  }

  lemma RowDot(p: seq<nat>, Kp: nat, q: nat, w: seq<int>, j: nat)
    requires (q + 1) * Kp <= |p|
    ensures Dot(p, q * Kp, w, j, Kp) == Dot(Row(p, Kp, q), 0, w, j, Kp)
  {
    RowBound(Kp, q);
    forall t | 0 <= t < Kp ensures Same(p, q * Kp, Row(p, Kp, q), 0, t) {}
    DotSame(p, q * Kp, Row(p, Kp, q), 0, w, j, Kp);
  }

  /** Queries lo .. hi of P. */
  method Norm(pt: seq<seq<nat>>, n: nat, sum: seq<nat>, Kp: nat, lo: nat, hi: nat, p16: array<nat>)
    requires Entries(pt, n) && |pt| == n <= Kp && Kp > 0 && |sum| >= n && lo <= hi <= n && p16.Length == n * Kp
    requires forall q :: 0 <= q < n ==> sum[q] == ColumnSum(pt, q, n)
    modifies p16
    ensures forall x :: 0 <= x < p16.Length ==>
      p16[x] == if lo <= RowOf(Kp, x) < hi then Normal(pt, n, sum, Kp, x) else old(p16[x])
    ensures forall x :: 0 <= x < p16.Length && lo <= RowOf(Kp, x) < hi ==> p16[x] <= 32767
    ensures Normalised(p16[..], pt, n, sum, Kp, lo, hi)
  {
    var q := lo;
    while q < hi
      invariant lo <= q <= hi
      invariant forall x :: 0 <= x < p16.Length ==>
        p16[x] == if lo <= RowOf(Kp, x) < q then Normal(pt, n, sum, Kp, x) else old(p16[x])
      invariant forall x :: 0 <= x < p16.Length && lo <= RowOf(Kp, x) < q ==> p16[x] <= 32767
    {
      NormRow(pt, n, sum, Kp, q, p16);
      q := q + 1;
    }
  }

  lemma {:induction false} EntryBelowSum(pt: seq<seq<nat>>, n: nat, q: nat, key: nat, k: nat)
    requires Entries(pt, n) && key < k <= |pt| && q < n
    ensures pt[key][q] <= ColumnSum(pt, q, k)
    decreases k
  {
    if key < k - 1 { EntryBelowSum(pt, n, q, key, k - 1); }
  }

  /** One query's row. */
  method NormRow(pt: seq<seq<nat>>, n: nat, sum: seq<nat>, Kp: nat, q: nat, p16: array<nat>)
    requires Entries(pt, n) && |pt| == n <= Kp && Kp > 0 && |sum| >= n && q < n && p16.Length == n * Kp
    requires sum[q] == ColumnSum(pt, q, n)
    modifies p16
    ensures forall x :: 0 <= x < p16.Length ==>
      p16[x] == if RowOf(Kp, x) == q then Normal(pt, n, sum, Kp, x) else old(p16[x])
    ensures forall x :: 0 <= x < p16.Length && RowOf(Kp, x) == q ==> p16[x] <= 32767
  {
    var key := 0;
    while key < Kp
      invariant key <= Kp
      invariant forall x :: 0 <= x < p16.Length ==>
        p16[x] == if RowOf(Kp, x) == q && ColOf(Kp, x) < key then Normal(pt, n, sum, Kp, x) else old(p16[x])
      invariant forall x :: 0 <= x < p16.Length && RowOf(Kp, x) == q && ColOf(Kp, x) < key ==> p16[x] <= 32767
    {
      Parts(q, Kp, key, n);
      OneCell(Kp, q * Kp + key);
      assert Kp * n == n * Kp;
      if key < n {
        EntryBelowSum(pt, n, q, key, n);
        ScaledFits(pt[key][q], sum[q]);
      }
      p16[q * Kp + key] := if key < n then Scaled(pt[key][q], Inverse(sum[q])) else 0;
      key := key + 1;
    }
  }
}
