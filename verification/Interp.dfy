/** The bilinear resize as a producer (dav2_ops.c:511-565, 2246-2518): what it computes, and the two-row cache. */
module Interp {
  import opened Arith

  // ---------------------------------------------------------------- what is computed

  /** An image src of h x w pixels of C channels, and the size oh x ow of the result. */
  datatype Resize = Resize(src: seq<int>, h: nat, w: nat, C: nat, oh: nat, ow: nat)

  predicate Int16(v: int) { -32768 <= v <= 32767 }
  function I16(v: int): int { (v + 32768) % 65536 - 32768 }

  ghost predicate Proper(z: Resize) {
    && z.h > 0 && z.w > 0 && z.C > 0 && z.oh > 0 && z.ow > 0
    && |z.src| == z.h * z.w * z.C && forall i :: 0 <= i < |z.src| ==> Int16(z.src[i])
  }

  /** Output place i of n lies at or after source place Upper of m, by Weight 256ths of the way to Lower. */
  function Upper(i: nat, n: nat, m: nat): nat
    requires i < n && m > 0
  {
    if n > 1 then RowOf(n - 1, i * (m - 1)) else 0
  }

  function Lower(i: nat, n: nat, m: nat): nat
    requires i < n && m > 0
  {
    if Upper(i, n, m) + 1 < m then Upper(i, n, m) + 1 else m - 1
  }

  function Weight(i: nat, n: nat, m: nat): nat
    requires i < n && m > 0
  {
    if n > 1 then (ColOf(n - 1, i * (m - 1)) * 512 + (n - 1)) / (2 * (n - 1)) else 0
  }

  lemma WeightRange(i: nat, n: nat, m: nat)
    requires i < n && m > 0
    ensures Upper(i, n, m) < m && Weight(i, n, m) <= 256
    ensures Upper(i, n, m) == m - 1 ==> Weight(i, n, m) == 0
  {
    if n > 1 {
      var p, d := i * (m - 1), n - 1;
      var u, r := RowOf(d, p), ColOf(d, p);
      assert p == u * d + r;
      Below(i, d, m - 1);
      assert d * (m - 1) == (m - 1) * d;
      if u >= m { Below(m, u, d); }
      HalfRound(r, d);
      if u == m - 1 { assert r == 0; }
    }
  }

  /** Later places lie at later source rows. */
  lemma PlacesRise(i: nat, j: nat, n: nat, m: nat)
    requires i <= j < n && m > 0
    ensures Upper(i, n, m) <= Upper(j, n, m) && Lower(i, n, m) <= Lower(j, n, m)
  {
    if n > 1 {
      Below(i, j, m - 1);
      RowsRise(n - 1, i * (m - 1), j * (m - 1));
    }
  }

  lemma RowsRise(d: nat, x: nat, y: nat)
    requires d > 0 && x <= y
    ensures RowOf(d, x) <= RowOf(d, y)
  {
    if RowOf(d, y) < RowOf(d, x) { Below(RowOf(d, y) + 1, RowOf(d, x), d); }
  }

  lemma HalfRound(r: nat, d: nat)
    requires r < d
    ensures (r * 512 + d) / (2 * d) <= 256 && (r == 0 ==> (r * 512 + d) / (2 * d) == 0)
  {
    var q := (r * 512 + d) / (2 * d);
    assert q * (2 * d) <= r * 512 + d;
    if q > 256 { Below(257, q, 2 * d); }
    if r == 0 && q > 0 { Below(1, q, 2 * d); }
  }

  lemma NearestFraction(r: nat, d: nat, q: nat, t: nat)
    requires d > 0 && q == (r * 512 + d) / (2 * d) && t == q * d
    ensures -(d as int) <= 2 * (256 * r - t) < d
  {
    assert q * (2 * d) <= r * 512 + d < (q + 1) * (2 * d);
    assert q * (2 * d) == 2 * t && (q + 1) * (2 * d) == 2 * t + 2 * d;
  }

  /** The weight is the fraction rounded to 256ths: within half a 256th of the exact position i (m - 1) / (n - 1). */
  lemma WeightRounds(i: nat, n: nat, m: nat)
    requires i < n && m > 0 && n > 1
    ensures var d: int := n - 1;
      -d <= 2 * (256 * (i * (m - 1)) - 256 * (Upper(i, n, m) * d) - Weight(i, n, m) * d) < d
  {
    hide RowOf, ColOf;
    var p, d := i * (m - 1), n - 1;
    var u, r, w := RowOf(d, p), ColOf(d, p), Weight(i, n, m);
    Recompose(p, d);
    NearestFraction(r, d, w, w * d);
    FractionOf(p, u * d, r, w * d, d);
    assert Upper(i, n, m) == u;
  }

  lemma Recompose(p: nat, d: nat)
    requires d > 0
    ensures p == RowOf(d, p) * d + ColOf(d, p)
  {}

  lemma FractionOf(p: int, x: int, r: int, t: int, d: int)
    requires p == x + r && -d <= 2 * (256 * r - t) < d
    ensures -d <= 2 * (256 * p - 256 * x - t) < d
  {}

  /** (a (256 - w) + b w) >> 8 */
  function Mix(a: int, b: int, w: int): int { (a * (256 - w) + b * w) / 256 }

  /** a + ((b - a) w >> 8), the form with one product. */
  function Mix1(a: int, b: int, w: int): int { a + (b - a) * w / 256 }

  /** Both forms are the weighted mean in 256ths, rounded down. */
  lemma MixForms(a: int, b: int, w: int)
    ensures Mix1(a, b, w) == Mix(a, b, w)
    ensures 256 * Mix(a, b, w) <= a * (256 - w) + b * w < 256 * Mix(a, b, w) + 256
  {
    var p := (b - a) * w;
    assert a * (256 - w) + b * w == 256 * a + p;
  }

  lemma MixRange(a: int, b: int, w: nat)
    requires Int16(a) && Int16(b) && w <= 256
    ensures Int16(Mix(a, b, w)) && I16(Mix(a, b, w)) == Mix(a, b, w)
  {
    var v := 256 - w;
    Below(-32768, a, v);
    Below(a, 32767, v);
    Below(-32768, b, w);
    Below(b, 32767, w);
    assert a * (256 - w) == a * v;
    assert -32768 * v + -32768 * w == -32768 * 256 && 32767 * v + 32767 * w == 32767 * 256;
  }

  lemma MixZero(a: int, b: int)
    ensures Mix(a, b, 0) == a
  {}

  /** Channel c of source pixel (r, x). */
  function Pixel(z: Resize, r: nat, x: nat, c: nat): int { At(z.src, (r * z.w + x) * z.C + c) }

  /** Element e of source row r after its horizontal pass. */
  function Across(z: Resize, r: nat, e: nat): int
    requires z.w > 0 && z.C > 0 && e < z.ow * z.C
  {
    RowsBelow(z.C, z.ow);
    assert z.C * z.ow == z.ow * z.C;
    AcrossAt(z, r, RowOf(z.C, e), ColOf(z.C, e))
  }

  function AcrossAt(z: Resize, r: nat, j: nat, c: nat): int
    requires z.w > 0 && j < z.ow
  {
    Mix(Pixel(z, r, Upper(j, z.ow, z.w), c), Pixel(z, r, Lower(j, z.ow, z.w), c), Weight(j, z.ow, z.w))
  }

  function RowLen(z: Resize): nat { z.ow * z.C }

  /** Element e of output row i: the plain separable formula, horizontally first. */
  function Down(z: Resize, i: nat, e: nat): int
    requires z.h > 0 && z.w > 0 && z.C > 0 && i < z.oh && e < RowLen(z)
  {
    Mix(Across(z, Upper(i, z.oh, z.h), e), Across(z, Lower(i, z.oh, z.h), e), Weight(i, z.oh, z.h))
  }

  lemma PixelInside(z: Resize, r: nat, x: nat, c: nat)
    requires Proper(z) && r < z.h && x < z.w && c < z.C
    ensures (r * z.w + x) * z.C + c < |z.src| && Int16(Pixel(z, r, x, c))
  {
    Parts(r, z.w, x, z.h);
    var p := r * z.w + x;
    assert z.w * z.h == z.h * z.w;
    Below(p + 1, z.h * z.w, z.C);
    assert (p + 1) * z.C == p * z.C + z.C;
  }

  lemma AcrossRange(z: Resize, r: nat, j: nat, c: nat)
    requires Proper(z) && r < z.h && j < z.ow && c < z.C
    ensures Int16(AcrossAt(z, r, j, c)) && I16(AcrossAt(z, r, j, c)) == AcrossAt(z, r, j, c)
  {
    WeightRange(j, z.ow, z.w);
    PixelInside(z, r, Upper(j, z.ow, z.w), c);
    PixelInside(z, r, Lower(j, z.ow, z.w), c);
    MixRange(Pixel(z, r, Upper(j, z.ow, z.w), c), Pixel(z, r, Lower(j, z.ow, z.w), c), Weight(j, z.ow, z.w));
  }

  lemma AcrossInt16(z: Resize, r: nat, e: nat)
    requires Proper(z) && r < z.h && e < RowLen(z)
    ensures Int16(Across(z, r, e))
  {
    RowsBelow(z.C, z.ow);
    assert z.C * z.ow == z.ow * z.C;
    AcrossRange(z, r, RowOf(z.C, e), ColOf(z.C, e));
  }

  /** The vertical pass in either form stays in 16 bits. */
  lemma DownRange(z: Resize, i: nat, e: nat)
    requires Proper(z) && i < z.oh && e < RowLen(z)
    ensures I16(Down(z, i, e)) == Down(z, i, e)
    ensures var t, b, w := Across(z, Upper(i, z.oh, z.h), e), Across(z, Lower(i, z.oh, z.h), e), Weight(i, z.oh, z.h);
      I16(Mix1(t, b, w)) == Down(z, i, e) && (w == 0 ==> t == Down(z, i, e))
  {
    WeightRange(i, z.oh, z.h);
    var t, b, w := Across(z, Upper(i, z.oh, z.h), e), Across(z, Lower(i, z.oh, z.h), e), Weight(i, z.oh, z.h);
    AcrossInt16(z, Upper(i, z.oh, z.h), e);
    AcrossInt16(z, Lower(i, z.oh, z.h), e);
    MixRange(t, b, w);
    MixForms(t, b, w);
    MixZero(t, b);
  }
}
