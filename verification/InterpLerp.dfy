/** interp_lerp_step and interp_lerp_need (dav2_ops.c:2370-2416): the vertical pass as jobs of the accelerator. */
module InterpLerp {
  import opened Arith
  import A = Accel
  import opened Interp
  import opened InterpProducer

  /** Where output row i starts. */
  function RowStart(z: Resize, i: nat): nat { i * RowLen(z) }

  /** Source rows below n of H have had their horizontal pass. */
  ghost predicate RowsAcross(H: seq<int>, z: Resize, n: nat) {
    (Proper(z) && n <= z.h && |H| == (z.h + 1) * RowLen(z)
    && forall r :: 0 <= r < n ==> RowAcrossAt(H, z, r)) == true  // kept whole in proofs
  }

  ghost predicate RowAcrossAt(H: seq<int>, z: Resize, r: nat)
    requires Proper(z) && r < z.h
  {
    (r + 1) * RowLen(z) <= |H| && IsRow(H[r * RowLen(z)..(r + 1) * RowLen(z)], z, r)
  }

  /** What the job computes for element e of output row i, from H, whatever its spare row holds. */
  function Lerp(H: seq<int>, z: Resize, y0: nat, w: nat, e: nat): int {
    I16(Mix1(At(H, y0 * RowLen(z) + e), At(H, (y0 + 1) * RowLen(z) + e), w))
  }

  /** The row below is read with a weight only where it has been made; the spare row only with weight 0. */
  lemma LerpIs(H: seq<int>, z: Resize, n: nat, i: nat, e: nat)
    requires RowsAcross(H, z, n) && i < z.oh && e < RowLen(z) && Lower(i, z.oh, z.h) < n
    ensures var y0, w := Upper(i, z.oh, z.h), Weight(i, z.oh, z.h);
      y0 < z.h && Lerp(H, z, y0, w, e) == Down(z, i, e) && (y0 + 1 == z.h ==> w == 0)
    ensures var y0, w := Upper(i, z.oh, z.h), Weight(i, z.oh, z.h);
      I16(Mix(At(H, y0 * RowLen(z) + e), At(H, (y0 + 1) * RowLen(z) + e), w)) == Down(z, i, e)
  {
    var y0, w := Upper(i, z.oh, z.h), Weight(i, z.oh, z.h);
    WeightRange(i, z.oh, z.h);
    HAt(H, z, n, y0, e);
    var t, b := Across(z, y0, e), At(H, (y0 + 1) * RowLen(z) + e);
    DownRange(z, i, e);
    MixForms(t, b, w);
    if y0 + 1 < z.h {
      HAt(H, z, n, y0 + 1, e);
    } else {
      MixZero(t, b);
      MixZero(t, Across(z, Lower(i, z.oh, z.h), e));
    }
  }

  lemma HAt(H: seq<int>, z: Resize, n: nat, r: nat, e: nat)
    requires RowsAcross(H, z, n) && r < n && e < RowLen(z)
    ensures At(H, r * RowLen(z) + e) == Across(z, r, e)
  {
    assert RowAcrossAt(H, z, r);
    assert (r + 1) * RowLen(z) == r * RowLen(z) + RowLen(z);
    assert H[r * RowLen(z)..(r + 1) * RowLen(z)][e] == H[r * RowLen(z) + e];
  }

  class LerpProducer {
    const z: Resize
    const wide: bool
    const y0: seq<nat>
    const y1: seq<nat>
    const wy: seq<nat>
    const x0: seq<nat>
    const x1: seq<nat>
    const wx: seq<nat>
    const out: array<int>
    const H: array<int>                    // all horizontal rows, and one spare row
    const chunk: nat                       // values per job
    const driver: A.Driver
    var hs: nat                            // the next horizontal row
    var i: nat                             // the next output row
    var done: nat                          // done_pix

    ghost predicate Valid()
      reads this, H, out, driver, driver.block
    {
      && Fixed() && RowsAcross(H[..], z, hs)
      && i <= z.oh && Span(out[..], z, 0, RowStart(z, i)) && done == i * z.ow
      && driver.Valid()
    }

    ghost predicate Fixed() {
      (Proper(z) && out != H && chunk > 0
      && Producer.Indexed(y0, y1, wy, z.oh, z.h) && Producer.Indexed(x0, x1, wx, z.ow, z.w)) == true  // kept whole in proofs
    }

    /** The rows that output row i needs have been made. */
    ghost predicate Ready()
      reads this
    {
      (Proper(z) && i < z.oh && Lower(i, z.oh, z.h) < hs) == true  // kept whole in proofs
    }

    lemma RowIndices()
      requires Fixed() && i < z.oh
      ensures i < |y0| == |y1| == |wy| && z.h > 0
      ensures y0[i] == Upper(i, z.oh, z.h) < z.h && y1[i] == Lower(i, z.oh, z.h) < z.h && wy[i] == Weight(i, z.oh, z.h)
    {
      WeightRange(i, z.oh, z.h);
    }

    constructor (z: Resize, wide: bool, y0: seq<nat>, y1: seq<nat>, wy: seq<nat>, x0: seq<nat>, x1: seq<nat>, wx: seq<nat>,
                 chunk: nat, driver: A.Driver)
      requires Proper(z) && chunk > 0 && driver.Valid()
      requires Producer.Indexed(y0, y1, wy, z.oh, z.h) && Producer.Indexed(x0, x1, wx, z.ow, z.w)
      ensures Valid() && this.z == z && this.driver == driver && i == 0 && fresh(out) && fresh(H)
    {
      this.z, this.wide, this.chunk, this.driver := z, wide, chunk, driver;
      this.y0, this.y1, this.wy, this.x0, this.x1, this.wx := y0, y1, wy, x0, x1, wx;
      out := new int[z.oh * RowLen(z)];
      H := new int[(z.h + 1) * RowLen(z)];
      hs, i, done := 0, 0, 0;
    }

    /** interp_lerp_step: one more horizontal row; it runs in the waits. */
    method StepAcross() returns (more: bool)
      requires Valid()
      modifies this`hs, H
      ensures Valid() && (if old(hs) < z.h then more && hs == old(hs) + 1 else !more && hs == old(hs))
      ensures RowsAcross(H[..], z, old(hs)) && SameFirst(old(H[..]), H[..], RowStart(z, old(hs)))
    {
      if hs >= z.h { return false; }
      var row := new int[RowLen(z)];
      RowAcross(z, hs, x0, x1, wx, wide, row);
      ghost var before := H[..];
      InH(z, hs);
      CopyTo(row, H, RowStart(z, hs));
      MoreRows(before, H[..], z, hs, row[..]);
      hs := hs + 1;
      return true;
    }

    /** dav2_producer_idle, any number of times, while a job runs. */
    method Wait()
      requires Valid()
      modifies this`hs, H
      ensures Valid() && hs >= old(hs)
    {
      var go: bool := *;
      while hs < z.h && go
        invariant Valid() && hs >= old(hs)
        decreases z.h - hs
      {
        var more := StepAcross();
        go := *;
      }
    }

    /** n values of output row i from element e on: by a job, or on the CPU if it is declined or fails. */
    method Chunk(e: nat, n: nat)
      requires Valid() && !driver.pending && Ready() && e + n <= RowLen(z)
      requires Span(out[..], z, 0, RowStart(z, i) + e)
      modifies this`hs, H, out, driver`ok, driver`defer, driver`pending, driver.block
      ensures Valid() && !driver.pending && hs >= old(hs) && Span(out[..], z, 0, RowStart(z, i) + e + n)
    {
      ghost var before := out[..];
      RowIndices();
      var vals := JobValues(H[..], z, i, y0[i], wy[i], e, n);
      JobValuesAre(H[..], z, hs, i, y0[i], wy[i], e, n);
      var able: bool := *;                 // the block has this job, the operands are aligned
      var r := driver.LerpAsync(out, vals, n, wy[i], able);
      SpanKeeps(before, out[..], z, RowStart(z, i), RowStart(z, i) + e);
      if r == 2 {
        Wait();
        var d := driver.FinishQuiet();
        SpanKeeps(before, out[..], z, RowStart(z, i), RowStart(z, i) + e);
        if d {
          SpanFilled(out[..], z, i, e, n);
          return;
        }
      }
      OnCpu(e, n);
    }

    /** The loop for a chunk that the block did not make. */
    method OnCpu(e: nat, n: nat)
      requires Valid() && Ready() && e + n <= RowLen(z)
      requires Span(out[..], z, 0, RowStart(z, i) + e)
      modifies out
      ensures Valid() && Span(out[..], z, 0, RowStart(z, i) + e + n)
    {
      hide Mix, I16, Across, Down;
      RowIndices();
      var len := RowLen(z);
      var o := RowStart(z, i);
      var t := RowStart(z, y0[i]);
      Below(y0[i] + 2, z.h + 1, len);
      assert (y0[i] + 1) * len == t + len && (y0[i] + 2) * len == t + len + len;
      var k := 0;
      while k < n
        invariant k <= n && Span(out[..], z, 0, o + e + k)
      {
        LerpIs(H[..], z, hs, i, e + k);
        var v := I16(Mix(H[t + e + k], H[t + len + e + k], wy[i]));
        Store(out[..], z, i, e + k, v, 0, o + e + k);
        ghost var after := out[..][o + e + k := v];
        out[o + (e + k)] := v;
        assert out[..] == after;
        k := k + 1;
      }
      SpanShorter(out[..], z, o, o + e + n);
    }

    /** Output row i, in chunks. */
    method Row()
      requires Valid() && !driver.pending && Ready()
      modifies this`hs, H, out, driver`ok, driver`defer, driver`pending, driver.block
      ensures Valid() && !driver.pending && hs >= old(hs) && Span(out[..], z, 0, RowStart(z, i) + RowLen(z))
    {
      var off := 0;
      while off < RowLen(z)
        invariant off <= RowLen(z) && Valid() && !driver.pending && Ready() && hs >= old(hs)
        invariant Span(out[..], z, 0, RowStart(z, i) + off)
      {
        var n := if RowLen(z) - off < chunk then RowLen(z) - off else chunk;
        Chunk(off, n);
        off := off + n;
      }
    }

    /** interp_lerp_need: enough rows for npix pixels, chunk after chunk by jobs. */
    method Need(npix: nat)
      requires Valid() && !driver.pending
      modifies this`hs, this`i, this`done, H, out, driver`ok, driver`defer, driver`pending, driver.block
      ensures Valid() && !driver.pending && hs >= old(hs) && i >= old(i) && (done >= npix || i == z.oh)
      // rows below done_pix are final
      ensures forall x :: 0 <= x < out.Length && x < RowStart(z, old(i)) ==> out[x] == old(out[x])
    {
      ghost var before, i0 := out[..], i;
      var rows := (npix + z.ow - 1) / z.ow;
      if rows > z.oh { rows := z.oh; }
      while i < rows
        invariant Valid() && !driver.pending && hs >= old(hs) && i0 <= i && (i <= rows || i == i0)
      {
        NextRow();
      }
      EnoughRows(npix, z.ow, rows, i, z.oh);
      SameRows(before, out[..], z, i0, i);
    }

    /** One turn of that loop: the horizontal rows that output row i needs, and the row itself. */
    method NextRow()
      requires Valid() && !driver.pending && i < z.oh
      modifies this`hs, this`i, this`done, H, out, driver`ok, driver`defer, driver`pending, driver.block
      ensures Valid() && !driver.pending && hs >= old(hs) && i == old(i) + 1
    {
      RowIndices();
      MakeAcross(y1[i]);
      Row();
      NextStart(z, i);
      i := i + 1;
      done := i * z.ow;
    }

    /** Horizontal rows up to row y. */
    method MakeAcross(y: nat)
      requires Valid() && y < z.h
      modifies this`hs, H
      ensures Valid() && hs > y && hs >= old(hs)
    {
      var more := true;
      while hs <= y && more
        invariant Valid() && hs >= old(hs) && (more || hs == z.h)
        decreases z.h - hs, more
      {
        more := StepAcross();
      }
    }

    /** dav2_producer_complete: the same numbers as without the jobs. */
    method Complete()
      requires Valid() && !driver.pending
      modifies this`hs, this`i, this`done, H, out, driver`ok, driver`defer, driver`pending, driver.block
      ensures Valid() && !driver.pending && IsResized(out[..], z)
    {
      Need(z.oh * z.ow);
      AllRows(i, z.oh, z.ow);
      WholeSpan(out[..], z);
    }
  }

  /** Any calls in any order, with jobs that are declined, done or failed, and then dav2_producer_complete. */
  method Serve(p: LerpProducer, calls: seq<Call>)
    requires p.Valid() && !p.driver.pending
    modifies p`hs, p`i, p`done, p.H, p.out, p.driver`ok, p.driver`defer, p.driver`pending, p.driver.block
    ensures p.Valid() && !p.driver.pending && IsResized(p.out[..], p.z)
  {
    var k := 0;
    while k < |calls|
      invariant p.Valid() && !p.driver.pending
    {
      match calls[k] {
        case Need(npix) =>
          var total := p.z.oh * p.z.ow;
          if npix > 0 { p.Need(if npix > total then total else npix); }
        case Idle => var more := p.StepAcross();
      }
      k := k + 1;
    }
    p.Complete();
  }

  /** dav2_interpolate: with jobs if the block, the buffers and the row length allow it, else step by step. */
  method Interpolate(z: Resize, wide: bool, able: bool, chunk: nat, driver: A.Driver) returns (out: array<int>)
    requires Proper(z) && chunk > 0 && driver.Valid() && !driver.pending
    modifies driver`ok, driver`defer, driver`pending, driver.block
    ensures IsResized(out[..], z) && driver.Valid() && !driver.pending
  {
    if able && wide && RowLen(z) % 4 == 0 {
      var y0, y1, wy := Places(z.oh, z.h);
      var x0, x1, wx := Places(z.ow, z.w);
      var p := new LerpProducer(z, wide, y0, y1, wy, x0, x1, wx, chunk, driver);
      p.Complete();
      return p.out;
    }
    out := InterpProducer.Interpolate(z, wide);
  }

  lemma NextStart(z: Resize, i: nat)
    ensures RowStart(z, i) + RowLen(z) == RowStart(z, i + 1)
  {}

  lemma AllRows(i: nat, oh: nat, ow: nat)
    requires i <= oh && ow > 0 && (i * ow >= oh * ow || i == oh)
    ensures i == oh
  {
    if i < oh { Below(i + 1, oh, ow); }
  }

  /** Enough rows for npix pixels. */
  lemma EnoughRows(npix: nat, ow: nat, rows: nat, i: nat, oh: nat)
    requires ow > 0 && i >= rows && (rows == (npix + ow - 1) / ow || rows == oh) && i <= oh
    ensures i * ow >= npix || i == oh
  {
    if rows == (npix + ow - 1) / ow {
      assert rows * ow + ow > npix + ow - 1;
      Below(rows, i, ow);
    }
  }

  /** The cells and values of a job for n elements of output row i. */
  function JobValues(H: seq<int>, z: Resize, i: nat, y0: nat, w: nat, e: nat, n: nat): map<int, int> {
    map x | RowStart(z, i) + e <= x < RowStart(z, i) + e + n :: LerpTo(H, z, i, y0, w, x)
  }

  function LerpTo(H: seq<int>, z: Resize, i: nat, y0: nat, w: nat, x: nat): int {
    if x >= RowStart(z, i) then Lerp(H, z, y0, w, x - RowStart(z, i)) else 0
  }

  /** v is the value of element x of the output, in row i. */
  ghost predicate ValueAt(z: Resize, i: nat, x: int, v: int)
    requires Proper(z) && i < z.oh
  {
    var e := x - RowStart(z, i);
    0 <= e < RowLen(z) && v == Down(z, i, e)
  }

  lemma JobValuesAre(H: seq<int>, z: Resize, hs: nat, i: nat, y0: nat, w: nat, e: nat, n: nat)
    requires RowsAcross(H, z, hs) && i < z.oh && e + n <= RowLen(z) && Lower(i, z.oh, z.h) < hs
    requires y0 == Upper(i, z.oh, z.h) && w == Weight(i, z.oh, z.h)
    ensures forall x :: x in JobValues(H, z, i, y0, w, e, n) ==> ValueAt(z, i, x, JobValues(H, z, i, y0, w, e, n)[x])
  {
    var vals, o := JobValues(H, z, i, y0, w, e, n), RowStart(z, i);
    forall x | x in vals ensures ValueAt(z, i, x, vals[x]) {
      LerpIs(H, z, hs, i, x - o);
    }
  }

  /** Elements written above a span leave it. */
  lemma SpanKeeps(before: seq<int>, after: seq<int>, z: Resize, lo: nat, hi: nat)
    requires Span(before, z, 0, hi) && lo <= hi && |after| == |before| && forall x :: 0 <= x < |before| && x < hi ==> after[x] == before[x]
    ensures Span(after, z, 0, hi) && Span(after, z, 0, lo)
  {
    forall x | 0 <= x < hi && x < |after| ensures OutIs(after, z, x) { assert OutIs(before, z, x); }
  }

  lemma SpanShorter(out: seq<int>, z: Resize, lo: nat, hi: nat)
    requires Span(out, z, 0, hi) && lo <= hi
    ensures Span(out, z, 0, lo)
  {}

  /** Elements with their values extend a span. */
  lemma SpanFilled(out: seq<int>, z: Resize, i: nat, e: nat, n: nat)
    requires Span(out, z, 0, RowStart(z, i) + e) && i < z.oh && e + n <= RowLen(z)
    requires forall x :: RowStart(z, i) + e <= x < RowStart(z, i) + e + n && x < |out| ==> ValueAt(z, i, x, out[x])
    ensures Span(out, z, 0, RowStart(z, i) + e + n)
  {
    var o := RowStart(z, i);
    RowLenPositive(z);
    assert RowLen(z) * z.oh == z.oh * RowLen(z);
    forall x | 0 <= x < o + e + n && x < |out| ensures OutIs(out, z, x) {
      if x >= o + e { Parts(i, RowLen(z), x - o, z.oh); } else { assert OutIs(out, z, x); }
    }
  }

  lemma InH(z: Resize, r: nat)
    requires r < z.h
    ensures RowStart(z, r) + RowLen(z) <= z.h * RowLen(z) <= (z.h + 1) * RowLen(z)
  {
    Below(r + 1, z.h, RowLen(z));
  }

  method CopyTo(row: array<int>, dst: array<int>, o: nat)
    requires row != dst && o + row.Length <= dst.Length
    modifies dst
    ensures forall x :: 0 <= x < dst.Length ==> dst[x] == if o <= x < o + row.Length then row[x - o] else old(dst[x])
  {
    var e := 0;
    while e < row.Length
      invariant e <= row.Length
      invariant forall x :: 0 <= x < dst.Length ==> dst[x] == if o <= x < o + e then row[x - o] else old(dst[x])
    {
      dst[o + e] := row[e];
      e := e + 1;
    }
  }

  /** The first n elements are the same. */
  ghost predicate SameFirst(a: seq<int>, b: seq<int>, n: nat) {
    |a| == |b| && forall x :: 0 <= x < |a| && x < n ==> b[x] == a[x]
  }

  /** One row more in H leaves the others. */
  lemma SameStretch(a: seq<int>, b: seq<int>, p: nat, len: nat)
    requires p + len <= |a| == |b| && forall x :: p <= x < p + len ==> a[x] == b[x]
    ensures a[p..p + len] == b[p..p + len]
  {}

  lemma MoreRows(before: seq<int>, after: seq<int>, z: Resize, n: nat, row: seq<int>)
    requires RowsAcross(before, z, n) && n < z.h && |after| == |before| && IsRow(row, z, n)
    requires forall x :: 0 <= x < |after| ==>
      after[x] == if RowStart(z, n) <= x < RowStart(z, n) + RowLen(z) then At(row, x - RowStart(z, n)) else before[x]
    ensures RowsAcross(after, z, n + 1) && RowsAcross(after, z, n)
  {
    var len := RowLen(z);
    forall r | 0 <= r < n + 1 ensures RowAcrossAt(after, z, r) {
      Below(r + 1, z.h + 1, len);
      assert (r + 1) * len == r * len + len;
      if r < n {
        assert RowAcrossAt(before, z, r);
        Below(r + 1, n, len);
        SameStretch(before, after, r * len, len);
      } else {
        assert after[r * len..(r + 1) * len] == row;
      }
    }
  }
}
