/** Convolutions as products: the im2col matrix, and the rows the accelerator gathers from the image instead. */
module AccelConv {
  import opened AccelMath
  import opened Arith
  import opened Words

  /** An image of h x w pixels of C channels and a kernel of kh x kw positions. */
  datatype Geom = Geom(h: nat, w: nat, C: nat, kh: nat, kw: nat, stride: nat, pad: nat)

  predicate Proper(g: Geom) {
    g.C > 0 && 0 < g.kh <= g.h + 2 * g.pad && 0 < g.kw <= g.w + 2 * g.pad && g.stride > 0
  }

  function OutH(g: Geom): nat
    requires Proper(g)
  {
    (g.h + 2 * g.pad - g.kh) / g.stride + 1
  }

  function OutW(g: Geom): nat
    requires Proper(g)
  {
    (g.w + 2 * g.pad - g.kw) / g.stride + 1
  }

  /** Exactly the placements of the kernel inside the padded image have an output pixel. */
  lemma OutputSize(g: Geom, oy: nat, ox: nat)
    requires Proper(g)
    ensures oy < OutH(g) <==> oy * g.stride + g.kh <= g.h + 2 * g.pad
    ensures ox < OutW(g) <==> ox * g.stride + g.kw <= g.w + 2 * g.pad
  {
    Placements(g.h + 2 * g.pad - g.kh, g.stride, oy);
    Placements(g.w + 2 * g.pad - g.kw, g.stride, ox);
  }

  lemma Placements(room: nat, stride: nat, k: nat)
    requires stride > 0
    ensures k < room / stride + 1 <==> k * stride <= room
  {
    var q := room / stride;
    assert q * stride <= room < (q + 1) * stride;
    if k <= q { Below(k, q, stride); } else { Below(q + 1, k, stride); }
  }

  function Positions(g: Geom): nat { g.kh * g.kw }
  function Columns(g: Geom): nat { Positions(g) * g.C }

  /** Channel c of the image under kernel position (ky, kx) of output pixel (oy, ox); zero outside the image. */
  function Pix(img: seq<int>, g: Geom, oy: nat, ox: nat, ky: nat, kx: nat, c: nat): int {
    var iy, ix := oy * g.stride + ky - g.pad, ox * g.stride + kx - g.pad;
    if iy < 0 || iy >= g.h || ix < 0 || ix >= g.w then 0 else At(img, (iy * g.w + ix) * g.C + c)
  }

  /** Column q of the im2col row of output pixel n. */
  function Tap(img: seq<int>, g: Geom, n: nat, q: nat): int
    requires Proper(g)
  {
    var p := RowOf(g.C, q);
    Pix(img, g, RowOf(OutW(g), n), ColOf(OutW(g), n), RowOf(g.kw, p), ColOf(g.kw, p), ColOf(g.C, q))
  }

  lemma ColumnsPositive(g: Geom)
    requires Proper(g)
    ensures Columns(g) > 0
  {
    Below(1, g.kh, g.kw);
    Below(1, g.kh * g.kw, g.C);
  }

  /** Element i of the im2col matrix. */
  function Element(img: seq<int>, g: Geom, i: nat): int
    requires Proper(g)
  {
    ColumnsPositive(g);
    Tap(img, g, RowOf(Columns(g), i), ColOf(Columns(g), i))
  }

  ghost predicate IsIm2col(cols: seq<int>, img: seq<int>, g: Geom)
    requires Proper(g)
  {
    |cols| == OutH(g) * OutW(g) * Columns(g) && forall i :: 0 <= i < |cols| ==> cols[i] == Element(img, g, i)
  }

  // ---------------------------------------------------------------- dav2_im2col

  /** The parts of index (n * P + p) * C + c of the matrix, with P positions. */
  lemma ElementAt(img: seq<int>, g: Geom, oy: nat, ox: nat, ky: nat, kx: nat, c: nat, n: nat, p: nat)
    requires Proper(g) && ox < OutW(g) && ky < g.kh && kx < g.kw && c < g.C
    requires n == oy * OutW(g) + ox && p == ky * g.kw + kx
    ensures Element(img, g, n * Columns(g) + p * g.C + c) == Pix(img, g, oy, ox, ky, kx, c)
  {
    ColumnsPositive(g);
    Parts(oy, OutW(g), ox, oy + 1);
    Parts(ky, g.kw, kx, g.kh);
    Parts(p, g.C, c, g.kh * g.kw);
    assert g.C * (g.kh * g.kw) == Columns(g);
    Parts(n, Columns(g), p * g.C + c, n + 1);
  }

  /** The first d elements are made. */
  ghost predicate Filled(cols: seq<int>, img: seq<int>, g: Geom, d: nat)
    requires Proper(g)
  {
    d <= |cols| && forall i :: 0 <= i < d ==> cols[i] == Element(img, g, i)
  }

  /** Where the rows of output line oy start. */
  function LineStart(g: Geom, oy: nat): nat
    requires Proper(g)
  {
    (oy * OutW(g)) * Columns(g)
  }

  lemma FirstLine(img: seq<int>, g: Geom, cols: seq<int>)
    requires Proper(g)
    ensures LineStart(g, 0) == 0 && Filled(cols, img, g, 0)
  {}

  lemma LastLine(img: seq<int>, g: Geom, cols: seq<int>)
    requires Proper(g) && |cols| == LineStart(g, OutH(g)) && Filled(cols, img, g, LineStart(g, OutH(g)))
    ensures IsIm2col(cols, img, g)
  {}

  lemma PixelInside(g: Geom, iy: nat, ix: nat)
    requires iy < g.h && ix < g.w
    ensures (iy * g.w + ix) * g.C + g.C <= g.h * g.w * g.C
  {
    Parts(iy, g.w, ix, g.h);
    var p := iy * g.w + ix;
    Below(p + 1, g.h * g.w, g.C);
    assert (p + 1) * g.C == p * g.C + g.C;
  }

  /** The pixel under a kernel position, if it is inside the image, and the place of its values. */
  method Under(g: Geom, oy: nat, ox: nat, ky: nat, kx: nat, ghost img: seq<int>) returns (inside: bool, s: nat)
    requires |img| == g.h * g.w * g.C
    ensures inside ==> s + g.C <= |img|
    ensures forall c :: 0 <= c < g.C ==> Pix(img, g, oy, ox, ky, kx, c) == if inside then img[s + c] else 0
  {
    var iy, ix := oy * g.stride + ky - g.pad, ox * g.stride + kx - g.pad;
    if iy < 0 || iy >= g.h || ix < 0 || ix >= g.w { return false, 0; }
    PixelInside(g, iy, ix);
    return true, (iy * g.w + ix) * g.C;
  }

  /** The C values of one kernel position, at d. */
  method CopyPixel(img: seq<int>, g: Geom, oy: nat, ox: nat, ky: nat, kx: nat, cols: array<int>, d: nat)
    requires |img| == g.h * g.w * g.C && d + g.C <= cols.Length
    modifies cols
    ensures forall i :: 0 <= i < cols.Length ==>
      cols[i] == if d <= i < d + g.C then Pix(img, g, oy, ox, ky, kx, i - d) else old(cols[i])
  {
    var inside, s := Under(g, oy, ox, ky, kx, img);
    var c := 0;
    while c < g.C
      invariant c <= g.C && forall i :: 0 <= i < cols.Length ==>
        cols[i] == if d <= i < d + c then Pix(img, g, oy, ox, ky, kx, i - d) else old(cols[i])
    {
      cols[d + c] := if inside then img[s + c] else 0;
      c := c + 1;
    }
  }

  /** Where the values of kernel position (ky, kx) of output pixel n go. */
  function Place(g: Geom, n: nat, ky: nat, kx: nat): nat { n * Columns(g) + (ky * g.kw + kx) * g.C }

  lemma OnePosition(img: seq<int>, g: Geom, oy: nat, ox: nat, ky: nat, kx: nat, n: nat, before: seq<int>, after: seq<int>)
    requires Proper(g) && ox < OutW(g) && ky < g.kh && kx < g.kw && n == oy * OutW(g) + ox
    requires Filled(before, img, g, Place(g, n, ky, kx)) && |after| == |before|
    requires Place(g, n, ky, kx) + g.C <= |before|
    requires forall i :: 0 <= i < |before| ==> var d := Place(g, n, ky, kx);
      after[i] == if d <= i < d + g.C then Pix(img, g, oy, ox, ky, kx, i - d) else before[i]
    ensures Filled(after, img, g, Place(g, n, ky, kx + 1))
  {
    var d := Place(g, n, ky, kx);
    assert Place(g, n, ky, kx + 1) == d + g.C;
    forall i | d <= i < d + g.C ensures after[i] == Element(img, g, i) {
      ElementAt(img, g, oy, ox, ky, kx, i - d, n, ky * g.kw + kx);
    }
  }

  /** All positions of an output pixel lie inside the matrix. */
  lemma PlaceFits(g: Geom, n: nat, N: nat, ky: nat, kx: nat)
    requires Proper(g) && n < N && ky < g.kh && kx < g.kw
    ensures Place(g, n, ky, kx) + g.C <= N * Columns(g)
  {
    Parts(ky, g.kw, kx, g.kh);
    Below(ky * g.kw + kx + 1, g.kh * g.kw, g.C);
    Below(n + 1, N, Columns(g));
  }

  lemma NextPlaces(g: Geom, n: nat, ky: nat)
    ensures Place(g, n, ky, g.kw) == Place(g, n, ky + 1, 0)
    ensures Place(g, n, g.kh, 0) == (n + 1) * Columns(g) && Place(g, n, 0, 0) == n * Columns(g)
  {
    assert g.kh * g.kw * g.C == Columns(g);
  }

  /** The row of output pixel n = (oy, ox). */
  method PixelRow(img: seq<int>, g: Geom, oy: nat, ox: nat, cols: array<int>, ghost n: nat, dst: nat, ghost N: nat)
    requires Proper(g) && |img| == g.h * g.w * g.C && ox < OutW(g) && n == oy * OutW(g) + ox < N
    requires dst == n * Columns(g) && cols.Length == N * Columns(g) && Filled(cols[..], img, g, dst)
    modifies cols
    ensures Filled(cols[..], img, g, (n + 1) * Columns(g))
  {
    var d := dst;
    var ky := 0;
    NextPlaces(g, n, 0);
    while ky < g.kh
      invariant ky <= g.kh && d == Place(g, n, ky, 0) && Filled(cols[..], img, g, d)
    {
      var kx := 0;
      while kx < g.kw
        invariant kx <= g.kw && d == Place(g, n, ky, kx) && Filled(cols[..], img, g, d)
      {
        PlaceFits(g, n, N, ky, kx);
        ghost var before := cols[..];
        CopyPixel(img, g, oy, ox, ky, kx, cols, d);
        OnePosition(img, g, oy, ox, ky, kx, n, before, cols[..]);
        d := d + g.C;
        kx := kx + 1;
      }
      NextPlaces(g, n, ky);
      ky := ky + 1;
    }
  }

  /** The rows of one line of output pixels. */
  method LineRows(img: seq<int>, g: Geom, oy: nat, cols: array<int>, dst: nat, ghost N: nat) returns (d: nat)
    requires Proper(g) && |img| == g.h * g.w * g.C && oy < OutH(g) && N == OutH(g) * OutW(g)
    requires dst == LineStart(g, oy) && cols.Length == N * Columns(g) && Filled(cols[..], img, g, dst)
    modifies cols
    ensures d == LineStart(g, oy + 1) && Filled(cols[..], img, g, d)
  {
    var ox := 0;
    ghost var n := oy * OutW(g);
    d := dst;
    while ox < OutW(g)
      invariant ox <= OutW(g) && n == oy * OutW(g) + ox && d == n * Columns(g) && Filled(cols[..], img, g, d)
    {
      Parts(oy, OutW(g), ox, OutH(g));
      PixelRow(img, g, oy, ox, cols, n, d, N);
      n := n + 1;
      d := d + Columns(g);
      ox := ox + 1;
    }
    assert n == (oy + 1) * OutW(g);
  }

  method Im2col(img: seq<int>, g: Geom) returns (cols: array<int>)
    requires Proper(g) && |img| == g.h * g.w * g.C
    ensures fresh(cols) && IsIm2col(cols[..], img, g)
  {
    hide Filled, IsIm2col, OutH, OutW, Columns;
    ghost var N := OutH(g) * OutW(g);
    cols := new int[OutH(g) * OutW(g) * Columns(g)];
    var oy, dst := 0, 0;
    FirstLine(img, g, cols[..]);
    while oy < OutH(g)
      invariant oy <= OutH(g) && dst == LineStart(g, oy) && Filled(cols[..], img, g, dst)
    {
      dst := LineRows(img, g, oy, cols, dst, N);
      oy := oy + 1;
    }
    LastLine(img, g, cols[..]);
  }

  // ---------------------------------------------------------------- what the accelerator gathers

  /** The kernel position after (ky, kx), in the order of the weights. */
  function NextPosition(g: Geom, ky: nat, kx: nat): (nat, nat) { if kx + 1 == g.kw then (ky + 1, 0) else (ky, kx + 1) }

  /** A gathered row: the values of pc kernel positions from (ky, kx) on. */
  function Gathered(img: seq<int>, g: Geom, oy: nat, ox: nat, ky: nat, kx: nat, pc: nat): (r: seq<int>)
    ensures |r| == pc * g.C
    decreases pc
  {
    if pc == 0 then []
    else
      assert (pc - 1) * g.C + g.C == pc * g.C;
      var (ky', kx') := NextPosition(g, ky, kx);
      seq(g.C, c requires 0 <= c < g.C => Pix(img, g, oy, ox, ky, kx, c)) + Gathered(img, g, oy, ox, ky', kx', pc - 1)
  }

  /** The output pixel t places after (oy, ox). */
  function PixelAfter(g: Geom, oy: nat, ox: nat, t: nat): (nat, nat)
    requires Proper(g)
    decreases t
  {
    if t == 0 then (oy, ox)
    else if ox + 1 == OutW(g) then PixelAfter(g, oy + 1, 0, t - 1) else PixelAfter(g, oy, ox + 1, t - 1)
  }

  /** Counting in rows of N: the number after (q, r). */
  lemma NextParts(x: nat, N: nat)
    requires N > 0
    ensures RowOf(N, x + 1) == (if ColOf(N, x) + 1 == N then RowOf(N, x) + 1 else RowOf(N, x))
    ensures ColOf(N, x + 1) == (if ColOf(N, x) + 1 == N then 0 else ColOf(N, x) + 1)
  {
    var q, r := RowOf(N, x), ColOf(N, x);
    assert x == q * N + r;
    if r + 1 == N {
      assert x + 1 == (q + 1) * N;
      DivUnique(x + 1, N, q + 1, 0);
    } else {
      DivUnique(x + 1, N, q, r + 1);
    }
  }

  lemma {:induction false} PixelAfterIs(g: Geom, n0: nat, t: nat)
    requires Proper(g)
    ensures PixelAfter(g, RowOf(OutW(g), n0), ColOf(OutW(g), n0), t) == (RowOf(OutW(g), n0 + t), ColOf(OutW(g), n0 + t))
    decreases t
  {
    if t > 0 {
      NextParts(n0, OutW(g));
      PixelAfterIs(g, n0 + 1, t - 1);
    }
  }

  /** The gathered row is the stretch of the im2col row from position p0 on. */
  lemma {:induction false} GatheredIs(img: seq<int>, g: Geom, n: nat, p0: nat, pc: nat, j: nat)
    requires Proper(g) && j < pc * g.C
    ensures Gathered(img, g, RowOf(OutW(g), n), ColOf(OutW(g), n), RowOf(g.kw, p0), ColOf(g.kw, p0), pc)[j]
      == Tap(img, g, n, p0 * g.C + j)
    decreases pc
  {
    var C := g.C;
    NextParts(p0, g.kw);
    if j < C {
      Parts(p0, C, j, p0 + 1);
    } else {
      assert (pc - 1) * C + C == pc * C && (p0 + 1) * C == p0 * C + C;
      GatheredIs(img, g, n, p0 + 1, pc - 1, j - C);
    }
  }
}
