/** interp_row_h and interp_step (dav2_ops.c:2250-2368): rows made on demand through a cache of two source rows. */
module InterpProducer {
  import opened Arith
  import opened Interp

  /** dst is source row r after its horizontal pass. */
  ghost predicate IsRow(dst: seq<int>, z: Resize, r: int) {
    Proper(z) && |dst| == RowLen(z) && 0 <= r < z.h && forall e :: 0 <= e < |dst| ==> dst[e] == Across(z, r, e)
  }

  /** The first j pixels of it are made. */
  ghost predicate RowMade(dst: seq<int>, z: Resize, r: nat, j: nat) {
    (Proper(z) && r < z.h && |dst| == RowLen(z) && j <= z.ow
    && forall e :: 0 <= e < |dst| && e < j * z.C ==> dst[e] == Across(z, r, e)) == true  // kept whole in proofs
  }

  ghost predicate OutIs(out: seq<int>, z: Resize, x: nat)
    requires Proper(z) && x < |out| == z.oh * RowLen(z)
  {
    RowLenPositive(z);
    RowsBelow(RowLen(z), z.oh);
    assert RowLen(z) * z.oh == z.oh * RowLen(z);
    out[x] == Down(z, RowOf(RowLen(z), x), ColOf(RowLen(z), x))
  }

  lemma RowLenPositive(z: Resize)
    requires Proper(z)
    ensures RowLen(z) > 0
  {
    Below(1, z.ow, z.C);
  }

  // ---------------------------------------------------------------- index arrays

  /** The index arrays of one direction (dav2_interp_begin). */
  method Places(n: nat, m: nat) returns (lo: seq<nat>, hi: seq<nat>, wt: seq<nat>)
    requires n > 0 && m > 0
    ensures |lo| == |hi| == |wt| == n
    ensures forall i :: 0 <= i < n ==> lo[i] == Upper(i, n, m) && hi[i] == Lower(i, n, m) && wt[i] == Weight(i, n, m)
  {
    lo, hi, wt := [], [], [];
    var i := 0;
    while i < n
      invariant i <= n && |lo| == |hi| == |wt| == i
      invariant forall k :: 0 <= k < i ==> lo[k] == Upper(k, n, m) && hi[k] == Lower(k, n, m) && wt[k] == Weight(k, n, m)
    {
      var i0, wq := 0, 0;
      if n > 1 {
        var num, den := i * (m - 1), n - 1;
        i0 := num / den;
        wq := (num % den * 512 + den) / (2 * den);
      }
      WeightRange(i, n, m);
      if i0 > m - 1 { i0 := m - 1; }
      lo := lo + [i0];
      hi := hi + [if i0 + 1 < m then i0 + 1 else m - 1];
      wt := wt + [wq];
      i := i + 1;
    }
  }

  // ---------------------------------------------------------------- one source row

  /** Where the values of source pixel (r, x) start. */
  function Place(z: Resize, r: nat, x: nat): nat { (r * z.w + x) * z.C }

  /** The values from a and from b on are those of the source pixels that output pixel j lies between. */
  ghost predicate Between(z: Resize, r: nat, j: nat, a: nat, b: nat, w: nat) {
    (Proper(z) && r < z.h && j < z.ow && a + z.C <= |z.src| && b + z.C <= |z.src|
    && a == Place(z, r, Upper(j, z.ow, z.w)) && b == Place(z, r, Lower(j, z.ow, z.w))
    && w == Weight(j, z.ow, z.w)) == true  // kept whole in proofs
  }

  /** What each of the three ways of mixing stores. */
  lemma Mixed(z: Resize, r: nat, j: nat, c: nat, a: nat, b: nat, w: nat)
    requires Between(z, r, j, a, b, w) && c < z.C
    ensures j * z.C + c < RowLen(z)
    ensures var v := Across(z, r, j * z.C + c);
      I16(Mix(z.src[a + c], z.src[b + c], w)) == v && I16(Mix1(z.src[a + c], z.src[b + c], w)) == v && (w == 0 ==> z.src[a + c] == v)
  {
    AcrossRange(z, r, j, c);
    MixForms(z.src[a + c], z.src[b + c], w);
    MixZero(z.src[a + c], z.src[b + c]);
    Parts(j, z.C, c, z.ow);
    assert z.C * z.ow == z.ow * z.C;
  }

  /** The C values of pixel j: a copy for weight 0. */
  method MixPixel(z: Resize, r: nat, j: nat, a: nat, b: nat, w: nat, dst: array<int>)
    requires RowMade(dst[..], z, r, j) && Between(z, r, j, a, b, w)
    modifies dst
    ensures RowMade(dst[..], z, r, j + 1)
  {
    hide Across, Mix, Mix1, I16;
    var o := j * z.C;
    assert (j + 1) * z.C == o + z.C;
    var c := 0;
    while c < z.C
      invariant c <= z.C && forall e :: 0 <= e < o + c && e < dst.Length ==> dst[e] == Across(z, r, e)
    {
      Mixed(z, r, j, c, a, b, w);
      dst[o + c] := if w == 0 then z.src[a + c] else I16(Mix(z.src[a + c], z.src[b + c], w));
      c := c + 1;
    }
  }

  /** A pair of output pixels that share their two source pixels. */
  method MixPair(z: Resize, r: nat, j: nat, a: nat, b: nat, w1: nat, w2: nat, dst: array<int>)
    requires RowMade(dst[..], z, r, j) && Between(z, r, j, a, b, w1) && Between(z, r, j + 1, a, b, w2)
    modifies dst
    ensures RowMade(dst[..], z, r, j + 2)
  {
    hide Across, Mix, Mix1, I16;
    var o := j * z.C;
    var p := o + z.C;
    assert (j + 1) * z.C == p && (j + 2) * z.C == p + z.C;
    var c := 0;
    while c < z.C
      invariant c <= z.C
      invariant forall e :: 0 <= e < dst.Length && (e < o + c || p <= e < p + c) ==> dst[e] == Across(z, r, e)
    {
      Mixed(z, r, j, c, a, b, w1);
      Mixed(z, r, j + 1, c, a, b, w2);
      dst[o + c] := I16(Mix1(z.src[a + c], z.src[b + c], w1));
      dst[p + c] := I16(Mix1(z.src[a + c], z.src[b + c], w2));
      c := c + 1;
    }
  }

  /** Where the source values of output pixel j are. */
  lemma PixelPlaces(z: Resize, r: nat, j: nat)
    requires Proper(z) && r < z.h && j < z.ow
    ensures Between(z, r, j, Place(z, r, Upper(j, z.ow, z.w)), Place(z, r, Lower(j, z.ow, z.w)), Weight(j, z.ow, z.w))
  {
    WeightRange(j, z.ow, z.w);
    PixelInside(z, r, Upper(j, z.ow, z.w), z.C - 1);
    PixelInside(z, r, Lower(j, z.ow, z.w), z.C - 1);
  }

  /** interp_row_h: source row r resampled horizontally; wide allows two pixels at a time. */
  method RowAcross(z: Resize, r: nat, x0: seq<nat>, x1: seq<nat>, wx: seq<nat>, wide: bool, dst: array<int>)
    requires Proper(z) && r < z.h && dst.Length == RowLen(z) && |x0| == |x1| == |wx| == z.ow
    requires forall j :: 0 <= j < z.ow ==>
      x0[j] == Upper(j, z.ow, z.w) && x1[j] == Lower(j, z.ow, z.w) && wx[j] == Weight(j, z.ow, z.w)
    modifies dst
    ensures IsRow(dst[..], z, r)
  {
    var j := 0;
    while j < z.ow
      invariant RowMade(dst[..], z, r, j)
    {
      var a, b, w := Place(z, r, x0[j]), Place(z, r, x1[j]), wx[j];
      PixelPlaces(z, r, j);
      if wide && w != 0 && j + 1 < z.ow && wx[j + 1] != 0 && x0[j + 1] == x0[j] && x1[j + 1] == x1[j] {
        PixelPlaces(z, r, j + 1);
        MixPair(z, r, j, a, b, w, wx[j + 1], dst);
        j := j + 1;
      } else {
        MixPixel(z, r, j, a, b, w, dst);
      }
      j := j + 1;
    }
  }

  // ---------------------------------------------------------------- one or two output rows

  /** What both ways of mixing two rows store at element e of output row i. */
  lemma MixedDown(z: Resize, i: nat, e: nat, t: int, b: int, w: nat)
    requires Proper(z) && i < z.oh && e < RowLen(z) && w == Weight(i, z.oh, z.h)
    requires t == Across(z, Upper(i, z.oh, z.h), e) && b == Across(z, Lower(i, z.oh, z.h), e)
    ensures var v := Down(z, i, e); I16(Mix(t, b, w)) == v && I16(Mix1(t, b, w)) == v && (w == 0 ==> t == v)
  {
    DownRange(z, i, e);
  }

  /** The rows that output row i lies between. */
  ghost predicate Around(z: Resize, i: nat, top: seq<int>, bot: seq<int>, w: nat) {
    (Proper(z) && i < z.oh && IsRow(top, z, Upper(i, z.oh, z.h)) && IsRow(bot, z, Lower(i, z.oh, z.h))
    && w == Weight(i, z.oh, z.h)) == true  // kept whole in proofs
  }

  /** The elements lo .. hi of out are made. */
  ghost predicate Span(out: seq<int>, z: Resize, lo: nat, hi: nat) {
    (Proper(z) && |out| == z.oh * RowLen(z)
    && forall x :: lo <= x < hi && x < |out| ==> OutIs(out, z, x)) == true  // kept whole in proofs
  }

  /** Element e of output row i is stored. */
  lemma Store(out: seq<int>, z: Resize, i: nat, e: nat, v: int, lo: nat, hi: nat)
    requires Span(out, z, lo, hi) && i < z.oh && e < RowLen(z) && v == Down(z, i, e)
    ensures var x := i * RowLen(z) + e; x < |out| && Span(out[x := v], z, lo, if x == hi then hi + 1 else hi)
  {
    RowLenPositive(z);
    Parts(i, RowLen(z), e, z.oh);
    assert RowLen(z) * z.oh == z.oh * RowLen(z);
    var p, after := i * RowLen(z) + e, out[i * RowLen(z) + e := v];
    forall x | lo <= x < (if p == hi then hi + 1 else hi) && x < |after| ensures OutIs(after, z, x) {
      if x != p { assert OutIs(out, z, x); }
    }
  }

  method RowDown(z: Resize, i: nat, top: array<int>, bot: array<int>, w: nat, out: array<int>)
    requires Around(z, i, top[..], bot[..], w) && out != top && out != bot
    requires Span(out[..], z, 0, i * RowLen(z))
    modifies out
    ensures Span(out[..], z, 0, (i + 1) * RowLen(z))
  {
    var n := RowLen(z);
    var o := i * n;
    assert (i + 1) * n == o + n;
    var e := 0;
    while e < n
      invariant e <= n && Span(out[..], z, 0, o + e)
    {
      MixedDown(z, i, e, top[e], bot[e], w);
      var v := if w == 0 then top[e] else I16(Mix(top[e], bot[e], w));
      Store(out[..], z, i, e, v, 0, o + e);
      ghost var after := out[..][o + e := v];
      out[o + e] := v;
      assert out[..] == after;
      e := e + 1;
    }
  }

  /** A pair of output rows that share their two source rows. */
  method TwoRowsDown(z: Resize, i: nat, top: array<int>, bot: array<int>, w1: nat, w2: nat, out: array<int>)
    requires Around(z, i, top[..], bot[..], w1) && Around(z, i + 1, top[..], bot[..], w2) && out != top && out != bot
    requires Span(out[..], z, 0, i * RowLen(z))
    modifies out
    ensures Span(out[..], z, 0, (i + 2) * RowLen(z))
  {
    var n := RowLen(z);
    var o := i * n;
    var q := o + n;
    assert (i + 1) * n == q && (i + 2) * n == q + n;
    var e := 0;
    while e < n
      invariant e <= n && Span(out[..], z, 0, o + e) && Span(out[..], z, q, q + e)
    {
      TwoElementsDown(z, i, e, top[e], bot[e], w1, w2, out, o, q);
      e := e + 1;
    }
    SpanJoin(out[..], z, q, q + n);
  }

  lemma SpanJoin(out: seq<int>, z: Resize, p: nat, q: nat)
    requires Span(out, z, 0, p) && Span(out, z, p, q)
    ensures Span(out, z, 0, q)
  {}

  /** The body of the loop over two rows. */
  method TwoElementsDown(z: Resize, i: nat, e: nat, t: int, b: int, w1: nat, w2: nat, out: array<int>, o: nat, q: nat)
    requires Proper(z) && i + 1 < z.oh && e < RowLen(z) && w1 == Weight(i, z.oh, z.h) && w2 == Weight(i + 1, z.oh, z.h)
    requires t == Across(z, Upper(i, z.oh, z.h), e) && b == Across(z, Lower(i, z.oh, z.h), e)
    requires t == Across(z, Upper(i + 1, z.oh, z.h), e) && b == Across(z, Lower(i + 1, z.oh, z.h), e)
    requires o == i * RowLen(z) && q == (i + 1) * RowLen(z) == o + RowLen(z)
    requires Span(out[..], z, 0, o + e) && Span(out[..], z, q, q + e)
    modifies out
    ensures Span(out[..], z, 0, o + e + 1) && Span(out[..], z, q, q + e + 1)
  {
    MixedDown(z, i, e, t, b, w1);
    MixedDown(z, i + 1, e, t, b, w2);
    var v1, v2 := I16(Mix1(t, b, w1)), I16(Mix1(t, b, w2));
    Store(out[..], z, i, e, v1, 0, o + e);
    Store(out[..], z, i, e, v1, q, q + e);
    ghost var after1 := out[..][o + e := v1];
    out[o + e] := v1;
    assert out[..] == after1;
    Store(out[..], z, i + 1, e, v2, 0, o + e + 1);
    Store(out[..], z, i + 1, e, v2, q, q + e);
    ghost var after2 := out[..][q + e := v2];
    out[q + e] := v2;
    assert out[..] == after2;
  }

  // ---------------------------------------------------------------- the producer

  class Producer {
    const z: Resize
    const wide: bool
    const y0: seq<nat>
    const y1: seq<nat>
    const wy: seq<nat>
    const x0: seq<nat>
    const x1: seq<nat>
    const wx: seq<nat>
    const out: array<int>
    const b0: array<int>                   // hbuf
    const b1: array<int>
    var r0: int                            // hrow: the source row each buffer holds, or -1
    var r1: int
    var i: nat                             // the next output row
    var done: nat                          // done_pix
    ghost var newest: int                  // the last source row whose horizontal pass was made, or -1

    ghost predicate Holds(n: nat)
      reads this`r0, this`r1
    {
      r0 == n || r1 == n
    }

    /** The rows of the last output row are still there, and no later one has been made. */
    ghost predicate Kept()
      reads this
    {
      if i == 0 then newest == -1 else i <= |y0| == |y1| && Holds(y0[i - 1]) && Holds(y1[i - 1]) && newest == y1[i - 1]
    }

    /** Each buffer holds the row its tag names, made no later than the newest; the output rows below i are final. */
    ghost predicate Valid()
      reads this, b0, b1, out
    {
      && Proper(z) && b0.Length == b1.Length == RowLen(z) && b0 != b1 && out != b0 && out != b1
      && Indexed(y0, y1, wy, z.oh, z.h) && Indexed(x0, x1, wx, z.ow, z.w)
      && (r0 != -1 ==> IsRow(b0[..], z, r0)) && (r1 != -1 ==> IsRow(b1[..], z, r1))
      && i <= z.oh && Span(out[..], z, 0, i * RowLen(z)) && done == i * z.ow
      && r0 <= newest && r1 <= newest
    }

    /** The index arrays of one direction. */
    static ghost predicate Indexed(lo: seq<nat>, hi: seq<nat>, wt: seq<nat>, n: nat, m: nat)
      requires m > 0
    {
      && |lo| == |hi| == |wt| == n
      && forall k :: 0 <= k < n ==> lo[k] == Upper(k, n, m) && hi[k] == Lower(k, n, m) && wt[k] == Weight(k, n, m)
    }

    /** dav2_interp_begin, without the LERP job. */
    constructor (z: Resize, wide: bool, y0: seq<nat>, y1: seq<nat>, wy: seq<nat>, x0: seq<nat>, x1: seq<nat>, wx: seq<nat>)
      requires Proper(z) && Indexed(y0, y1, wy, z.oh, z.h) && Indexed(x0, x1, wx, z.ow, z.w)
      ensures Valid() && Kept() && this.z == z && i == 0 && fresh(out) && fresh(b0) && fresh(b1)
    {
      this.z, this.wide := z, wide;
      this.y0, this.y1, this.wy, this.x0, this.x1, this.wx := y0, y1, wy, x0, x1, wx;
      out := new int[z.oh * RowLen(z)];
      b0, b1 := new int[RowLen(z)], new int[RowLen(z)];
      r0, r1, i, done, newest := -1, -1, 0, 0, -1;
    }

    /** The buffer that holds row need[k] of the two rows needed; made now if neither does, in the place of a row that is not
        the other one. */
    method Fetch(k: nat, need0: nat, need1: nat) returns (slot: nat)
      requires Valid() && k < 2 && need0 < z.h && need1 < z.h && (k == 1 ==> Holds(need0))
      requires var n := if k == 0 then need0 else need1; Holds(n) || n > newest
      modifies this`r0, this`r1, this`newest, b0, b1
      ensures Valid() && slot < 2 && (if slot == 0 then r0 else r1) == (if k == 0 then need0 else need1)
      ensures k == 0 && slot == 1 ==> r0 != need0
      // filling a buffer leaves the other needed row
      ensures k == 1 ==> if old(r0) == need0 then r0 == need0 else r1 == need0
      ensures k == 0 && old(Holds(need1)) ==> Holds(need1)
      // only a row that is in no buffer is made, and only if it comes after all made so far: so none is made twice
      ensures var n := if k == 0 then need0 else need1;
        if old(Holds(n)) then r0 == old(r0) && r1 == old(r1) && newest == old(newest) else newest == n > old(newest)
    {
      var n, other := if k == 0 then need0 else need1, if k == 0 then need1 else need0;
      if r0 == n { return 0; }
      if r1 == n { return 1; }
      slot := if k == 1 && r0 == need0 then 1 else if k == 1 && r1 == need0 then 0 else if r0 == other then 1 else 0;
      newest := n;
      if slot == 0 {
        RowAcross(z, n, x0, x1, wx, wide, b0);
        r0 := n;
      } else {
        RowAcross(z, n, x0, x1, wx, wide, b1);
        r1 := n;
      }
    }

    /** A row that the next output row needs and that is in no buffer is a later one than any made so far. */
    lemma NeedsAhead()
      requires Valid() && Kept() && i < z.oh
      ensures Holds(y0[i]) || y0[i] > newest
      ensures Holds(y1[i]) || y1[i] > newest
      ensures y0[i] <= y1[i] <= y0[i] + 1 && newest <= y1[i] < z.h
    {
      WeightRange(i, z.oh, z.h);
      if i > 0 { PlacesRise(i - 1, i, z.oh, z.h); }
    }

    /** Both rows that the next output row needs. */
    method FetchRows() returns (s0: nat, s1: nat)
      requires Valid() && Kept() && i < z.oh
      modifies this`r0, this`r1, this`newest, b0, b1
      ensures Valid() && s0 < 2 && s1 < 2 && (if s0 == 0 then r0 else r1) == y0[i] && (if s1 == 0 then r0 else r1) == y1[i]
      ensures newest == y1[i] && y0[i] < z.h && y1[i] < z.h
    {
      hide Span, IsRow;
      NeedsAhead();
      var need0, need1 := y0[i], y1[i];
      s0 := Fetch(0, need0, need1);
      s1 := Fetch(1, need0, need1);
    }

    /** interp_step: the next output row, or two; false when all are made. */
    method Step() returns (more: bool)
      requires Valid() && Kept()
      modifies this`r0, this`r1, this`i, this`done, this`newest, b0, b1, out
      ensures Valid() && Kept() && more == (i < z.oh)
      ensures if old(i) < z.oh then i > old(i) else i == old(i)
      // rows below done_pix are final
      ensures forall x :: 0 <= x < out.Length && x < old(i) * RowLen(z) ==> out[x] == old(out[x])
    {
      if i >= z.oh { return false; }
      var s0, s1 := FetchRows();
      Output(if s0 == 0 then b0 else b1, if s1 == 0 then b0 else b1);
      done := i * z.ow;
      return i < z.oh;
    }

    /** The rows of the output between top and bot: one, or two that share them. */
    method Output(top: array<int>, bot: array<int>)
      requires Valid() && i < z.oh && Around(z, i, top[..], bot[..], wy[i]) && out != top && out != bot
      modifies this`i, out
      ensures i > old(i) && i <= z.oh && Span(out[..], z, 0, i * RowLen(z))
      ensures y0[i - 1] == y0[old(i)] && y1[i - 1] == y1[old(i)]
      ensures forall x :: 0 <= x < out.Length && x < old(i) * RowLen(z) ==> out[x] == old(out[x])
    {
      ghost var before := out[..];
      if wide && wy[i] != 0 && i + 1 < z.oh && wy[i + 1] != 0 && y0[i + 1] == y0[i] && y1[i + 1] == y1[i] {
        TwoRowsDown(z, i, top, bot, wy[i], wy[i + 1], out);
        SameRows(before, out[..], z, i, i + 2);
        i := i + 2;
      } else {
        RowDown(z, i, top, bot, wy[i], out);
        SameRows(before, out[..], z, i, i + 1);
        i := i + 1;
      }
    }
  }

  /** dav2_interpolate: begin, and every step. */
  method Interpolate(z: Resize, wide: bool) returns (out: array<int>)
    requires Proper(z)
    ensures IsResized(out[..], z)
  {
    var y0, y1, wy := Places(z.oh, z.h);
    var x0, x1, wx := Places(z.ow, z.w);
    var p := new Producer(z, wide, y0, y1, wy, x0, x1, wx);
    Serve(p, []);
    out := p.out;
  }

  /** What a driver asks of a producer: at least so many pixels, or a step while it waits. */
  datatype Call = Need(npix: int) | Idle

  /** dav2_producer_need */
  method NeedPixels(p: Producer, npix: int)
    requires p.Valid() && p.Kept()
    modifies p`r0, p`r1, p`i, p`done, p`newest, p.b0, p.b1, p.out
    ensures p.Valid() && p.Kept() && p.i >= old(p.i) && (p.done >= npix || p.i == p.z.oh)
    ensures forall x :: 0 <= x < p.out.Length && x < old(p.i) * RowLen(p.z) ==> p.out[x] == old(p.out[x])
  {
    hide Producer.Kept;
    var total := p.z.oh * p.z.ow;
    var n := if npix > total then total else npix;
    var more := true;
    ghost var before, i0 := p.out[..], p.i;
    while p.done < n && more
      invariant p.Valid() && p.Kept() && p.i >= i0 && (more || p.i == p.z.oh)
      decreases p.z.oh - p.i, more
    {
      more := p.Step();
    }
    Below(p.i, p.z.oh, p.z.ow);
    if p.i < p.z.oh { Below(p.i + 1, p.z.oh, p.z.ow); }
    SameRows(before, p.out[..], p.z, i0, p.i);
  }

  /** Any calls in any order, and then dav2_producer_complete: the plain formula at every element. */
  method Serve(p: Producer, calls: seq<Call>)
    requires p.Valid() && p.Kept()
    modifies p`r0, p`r1, p`i, p`done, p`newest, p.b0, p.b1, p.out
    ensures p.Valid() && IsResized(p.out[..], p.z)
  {
    var k := 0;
    while k < |calls|
      invariant p.Valid() && p.Kept()
    {
      match calls[k] {
        case Need(npix) => NeedPixels(p, npix);
        case Idle => var more := p.Step();
      }
      k := k + 1;
    }
    var more := true;
    while p.i < p.z.oh && more
      invariant p.Valid() && p.Kept() && (more || p.i == p.z.oh)
      decreases p.z.oh - p.i, more
    {
      more := p.Step();
    }
    WholeSpan(p.out[..], p.z);
  }

  /** Every element has its value. */
  ghost predicate IsResized(out: seq<int>, z: Resize) {
    && Proper(z) && |out| == z.oh * RowLen(z)
    && forall i, e :: 0 <= i < z.oh && 0 <= e < RowLen(z) ==> Element(out, z, i, e) == Down(z, i, e)
  }

  ghost function Element(out: seq<int>, z: Resize, i: nat, e: nat): int { At(out, i * RowLen(z) + e) }

  lemma WholeSpan(out: seq<int>, z: Resize)
    requires Span(out, z, 0, z.oh * RowLen(z))
    ensures IsResized(out, z)
  {
    RowLenPositive(z);
    forall i, e | 0 <= i < z.oh && 0 <= e < RowLen(z) ensures Element(out, z, i, e) == Down(z, i, e) {
      Parts(i, RowLen(z), e, z.oh);
      assert RowLen(z) * z.oh == z.oh * RowLen(z);
      assert OutIs(out, z, i * RowLen(z) + e);
    }
  }

  /** Rows made stay as they are. */
  lemma SameRows(before: seq<int>, after: seq<int>, z: Resize, i: nat, k: nat)
    requires i <= k && Span(before, z, 0, i * RowLen(z)) && Span(after, z, 0, k * RowLen(z))
    ensures forall x :: 0 <= x < |before| && x < i * RowLen(z) ==> after[x] == before[x]
  {
    Below(i, k, RowLen(z));
    forall x | 0 <= x < |before| && x < i * RowLen(z) ensures after[x] == before[x] {
      assert OutIs(before, z, x) && OutIs(after, z, x);
    }
  }
}
