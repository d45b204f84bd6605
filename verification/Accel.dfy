/** The accelerator driver (dav2_accel.c): jobs, producers, tiles, chunks of a long reduction, and jobs left running. */
module Accel {
  import opened AccelMath
  import opened Arith
  import opened Words
  import opened AccelConv

  datatype Option<T> = None | Some(value: T)

  /** A job writes these values into these cells of out; until it is collected the cells hold anything. */
  datatype Job = Job(out: array<int>, vals: map<int, int>)

  /** The block: it runs one job, and may fail. */
  class Block {
    var running: Option<Job>

    constructor ()
      ensures running == None
    {
      running := None;
    }

    function Outs(): set<object>
      reads this
    {
      if running.Some? then {running.value.out} else {}
    }

    /** CTRL_START: only for an idle block. */
    method Start(j: Job)
      requires running == None
      modifies this, j.out
      ensures running == Some(j)
      ensures forall i :: 0 <= i < j.out.Length && i !in j.vals ==> j.out[i] == old(j.out[i])
    {
      running := Some(j);
      Scribble(j);
    }

    /** What a job in progress, or one that failed, leaves in its cells. */
    method Scribble(j: Job)
      modifies j.out
      ensures forall i :: 0 <= i < j.out.Length && i !in j.vals ==> j.out[i] == old(j.out[i])
    {
      var n := 0;
      while n < j.out.Length
        invariant forall i :: 0 <= i < j.out.Length && i !in j.vals ==> j.out[i] == old(j.out[i])
      {
        if n in j.vals {
          var x: int := *;
          j.out[n] := x;
        }
        n := n + 1;
      }
    }

    /** The end of the running job: done, or failed. */
    method End() returns (done: bool)
      requires running.Some?
      modifies this, running.value.out
      ensures running == None
      ensures var j := old(running.value); forall i :: 0 <= i < j.out.Length ==>
        (i !in j.vals ==> j.out[i] == old(j.out[i])) && (done && i in j.vals ==> j.out[i] == j.vals[i])
    {
      var j := running.value;
      running := None;
      done := *;
      if done {
        var n := 0;
        while n < j.out.Length
          modifies j.out
          invariant n <= j.out.Length
          invariant forall i :: 0 <= i < j.out.Length ==>
            (i !in j.vals ==> j.out[i] == old(j.out[i])) && (i < n && i in j.vals ==> j.out[i] == j.vals[i])
        {
          if n in j.vals { j.out[n] := j.vals[n]; }
          n := n + 1;
        }
      } else {
        Scribble(j);
      }
    }
  }

  /**
   * The input of a GEMM, perhaps still being made by a producer: v becomes final, pixel after pixel (ch values each).
   * A producer with lerp set makes its output by jobs of its own, when asked to, and only other work in the waits.
   */
  class Source {
    const final: seq<int>
    const ch: nat
    const total: nat
    const lerp: bool
    var v: array<int>
    var done: nat

    ghost predicate Valid()
      reads this, v
    {
      && |final| == v.Length == total * ch
      && done <= total
      && Made(done)
    }

    /** The first n pixels are final. */
    ghost predicate Made(n: nat)
      reads this, v
    {
      forall i :: 0 <= i < v.Length && i < |final| && i < n * ch ==> v[i] == final[i]
    }

    constructor (final: seq<int>, ch: nat, total: nat, lerp: bool)
      requires |final| == total * ch
      ensures Valid() && this.final == final && this.ch == ch && this.total == total && this.lerp == lerp && done == 0 && fresh(v)
    {
      this.final, this.ch, this.total, this.lerp := final, ch, total, lerp;
      v := new int[|final|];
      done := 0;
    }

    /** An input that is there. */
    constructor Whole(final: seq<int>, ch: nat, total: nat)
      requires |final| == total * ch
      ensures Valid() && this.final == final && this.ch == ch && this.total == total && !lerp && done == total && fresh(v)
    {
      this.final, this.ch, this.total, this.lerp := final, ch, total, false;
      v := new int[|final|](i requires 0 <= i < |final| => final[i]);
      done := total;
    }

    /** dav2_producer_step of a producer that needs no jobs: the next part of the input. */
    method Step()
      requires Valid() && done < total
      modifies this`done, v
      ensures Valid() && done > old(done)
    {
      var n: nat :| done < n <= total;
      Below(done, n, ch);
      Below(n, total, ch);
      forall i | done * ch <= i < n * ch { v[i] := final[i]; }
      done := n;
    }

    /** dav2_producer_idle, any number of times: what a wait does with a producer. */
    method Idle()
      requires Valid()
      modifies this`done, v
      ensures Valid() && done >= old(done)
    {
      var more: bool := *;
      while !lerp && done < total && more
        invariant Valid() && done >= old(done)
        decreases total - done
      {
        Step();
        more := *;
      }
    }
  }

  // ---------------------------------------------------------------- jobs of a product

  /** The cells of the rows n0 .. n0 + nt of A. */
  function Tile(o: Operands, K: nat, n0: nat, nt: nat, len: nat): map<int, int>
    requires o.N > 0
  {
    map i | 0 <= i < len && n0 <= ColOf(o.N, i) < n0 + nt :: Cell(o, K, i)
  }

  /** Every cell holds its value, or gets it from the job. */
  ghost predicate Pending(acc: seq<int>, vals: map<int, int>, o: Operands, K: nat)
    requires o.N > 0
  {
    forall i :: 0 <= i < |acc| ==> (if i in vals then vals[i] else acc[i]) == Cell(o, K, i)
  }

  /** The rows read for the rows of A below n are final. */
  ghost predicate RowsFinal(o: Operands, K: nat, v: seq<int>, n: nat) {
    forall r :: 0 <= r < n ==> RowFinal(o, K, v, r)
  }

  ghost predicate RowFinal(o: Operands, K: nat, v: seq<int>, r: nat) {
    SameRow(v, o.aoff + r * o.ar, o.a, o.aoff + r * o.ar, K)
  }

  /** A job that reads final rows has the values of the product of the final matrix. */
  lemma TileFinal(o: Operands, K: nat, v: seq<int>, n0: nat, nt: nat, len: nat)
    requires o.N > 0 && RowsFinal(o, K, v, n0 + nt)
    ensures Tile(o.(a := v), K, n0, nt, len) == Tile(o, K, n0, nt, len)
  {
    forall i | 0 <= i < len && n0 <= ColOf(o.N, i) < n0 + nt ensures Cell(o.(a := v), K, i) == Cell(o, K, i) {
      assert RowFinal(o, K, v, ColOf(o.N, i));
      DotSame(v, RowA(o, i), o.a, RowA(o, i), o.w, RowW(o, i), K);
    }
  }

  /** The operand is whole, or each of its rows is part of one pixel of the producer. */
  ghost predicate Reads(src: Source, o: Operands, K: nat)
    reads src
  {
    o.a == src.final && (src.done == src.total || (o.ar == src.ch && o.aoff + K <= o.ar && o.N <= src.total))
  }

  /** The rows of the pixels made are final. */
  lemma MadeFinal(src: Source, o: Operands, K: nat, n: nat)
    requires src.Valid() && Reads(src, o, K) && (n <= src.done || src.done == src.total)
    ensures RowsFinal(o, K, src.v[..], n)
  {
    var v := src.v[..];
    if src.done == src.total {
      assert v == src.final;
    } else {
      forall r | 0 <= r < n ensures RowFinal(o, K, v, r) {
        var p := r * o.ar;
        Below(r + 1, src.done, src.ch);
        assert (r + 1) * o.ar == p + o.ar;
        assert SameRow(v, o.aoff + p, o.a, o.aoff + p, K);
      }
    }
  }

  // ---------------------------------------------------------------- jobs of a convolution

  /** The im2col matrix of a convolution. */
  function Cols(img: seq<int>, g: Geom): (cols: seq<int>)
    requires Proper(g)
    ensures IsIm2col(cols, img, g)
  {
    seq(OutH(g) * OutW(g) * Columns(g), i requires 0 <= i < OutH(g) * OutW(g) * Columns(g) => Element(img, g, i))
  }

  /** A convolution as a product. */
  function ConvOperands(img: seq<int>, g: Geom, wt: seq<int>): Operands
    requires Proper(g)
  {
    Plain(Cols(img, g), wt, OutH(g) * OutW(g), Columns(g))
  }

  lemma PixelsPositive(g: Geom)
    requires Proper(g)
    ensures OutH(g) * OutW(g) > 0
  {
    Below(1, OutH(g), OutW(g));
  }

  /** The row gathered for output pixel n: pixel and kernel position count on from where the job starts. */
  function GatherRow(v: seq<int>, g: Geom, n0: nat, n: nat, p0: nat, pc: nat): seq<int>
    requires Proper(g) && n0 <= n
  {
    var (oy, ox) := PixelAfter(g, RowOf(OutW(g), n0), ColOf(OutW(g), n0), n - n0);
    Gathered(v, g, oy, ox, RowOf(g.kw, p0), ColOf(g.kw, p0), pc)
  }

  /** The cells of a gather job: nt output pixels from n0 on, pc kernel positions from p0 on. */
  function GatherTile(v: seq<int>, g: Geom, wt: seq<int>, p0: nat, pc: nat, n0: nat, nt: nat, len: nat): map<int, int>
    requires Proper(g)
  {
    PixelsPositive(g);
    var N := OutH(g) * OutW(g);
    map i | 0 <= i < len && n0 <= ColOf(N, i) < n0 + nt ::
      I32(Dot(GatherRow(v, g, n0, ColOf(N, i), p0, pc), 0, wt, p0 * g.C + RowOf(N, i) * Columns(g), pc * g.C))
  }

  /** The lowest image row that the output pixels below n read. */
  function LowestRow(g: Geom, n: nat): int
    requires Proper(g) && n > 0
  {
    var iy := RowOf(OutW(g), n - 1) * g.stride - g.pad + g.kh - 1;
    if iy > g.h - 1 then g.h - 1 else iy
  }

  /** And no lower than they must: some of these pixels read it, or would if the image went on below its last row. */
  lemma LowestRowRead(g: Geom, n: nat) returns (p: nat, ky: nat)
    requires Proper(g) && n > 0
    ensures p < n && ky < g.kh
    ensures var iy := RowOf(OutW(g), p) * g.stride + ky - g.pad; LowestRow(g, n) == if iy < g.h then iy else g.h - 1
  {
    p, ky := n - 1, g.kh - 1;
  }

  lemma RowMono(N: nat, x: nat, y: nat)
    requires N > 0 && x <= y
    ensures RowOf(N, x) <= RowOf(N, y)
  {
    if RowOf(N, y) < RowOf(N, x) { Below(RowOf(N, y) + 1, RowOf(N, x), N); }
  }

  /** The first made pixels of v are those of the image. */
  ghost predicate MadeAs(v: seq<int>, img: seq<int>, g: Geom, made: nat) {
    |v| == |img| == g.h * g.w * g.C && forall i :: 0 <= i < |v| && i < made * g.C ==> v[i] == img[i]
  }

  /** Output pixels below n read only image rows up to the lowest one. */
  lemma ReadsUpTo(g: Geom, n: nat, last: nat, ky: nat)
    requires Proper(g) && n < last && ky < g.kh
    ensures var iy := RowOf(OutW(g), n) * g.stride + ky - g.pad; iy < g.h ==> iy <= LowestRow(g, last)
  {
    RowMono(OutW(g), n, last - 1);
    Below(RowOf(OutW(g), n), RowOf(OutW(g), last - 1), g.stride);
  }

  lemma PixelFinal(v: seq<int>, img: seq<int>, g: Geom, iy: nat, ix: nat, c: nat, made: nat)
    requires MadeAs(v, img, g, made) && ix < g.w && c < g.C && (iy + 1) * g.w <= made
    ensures At(v, (iy * g.w + ix) * g.C + c) == At(img, (iy * g.w + ix) * g.C + c)
  {
    var p := iy * g.w + ix;
    assert (iy + 1) * g.w == iy * g.w + g.w;
    Below(p + 1, made, g.C);
    assert (p + 1) * g.C == p * g.C + g.C;
  }

  lemma TapFinal(v: seq<int>, img: seq<int>, g: Geom, n: nat, last: nat, q: nat, made: nat)
    requires Proper(g) && n < last && q < Columns(g) && MadeAs(v, img, g, made)
    requires (LowestRow(g, last) + 1) * g.w <= made
    ensures Tap(v, g, n, q) == Tap(img, g, n, q)
  {
    var p := RowOf(g.C, q);
    PositionRow(g, q);
    var iy := RowOf(OutW(g), n) * g.stride + RowOf(g.kw, p) - g.pad;
    var ix := ColOf(OutW(g), n) * g.stride + ColOf(g.kw, p) - g.pad;
    ReadsUpTo(g, n, last, RowOf(g.kw, p));
    if 0 <= iy < g.h && 0 <= ix < g.w {
      Below(iy + 1, LowestRow(g, last) + 1, g.w);
      PixelFinal(v, img, g, iy, ix, ColOf(g.C, q), made);
    }
  }

  lemma PositionRow(g: Geom, q: nat)
    requires Proper(g) && q < Columns(g)
    ensures RowOf(g.kw, RowOf(g.C, q)) < g.kh
  {
    assert g.kh * g.kw * g.C == g.C * (g.kh * g.kw);
    RowsBelow(g.C, g.kh * g.kw);
    assert RowOf(g.C, q) < g.kh * g.kw;
    assert g.kh * g.kw == g.kw * g.kh;
    RowsBelow(g.kw, g.kh);
  }

  lemma ColsAt(img: seq<int>, g: Geom, n: nat, q: nat)
    requires Proper(g) && n < OutH(g) * OutW(g) && q < Columns(g)
    ensures At(Cols(img, g), n * Columns(g) + q) == Tap(img, g, n, q)
  {
    var N, K := OutH(g) * OutW(g), Columns(g);
    Parts(n, K, q, N);
    assert K * N == N * K;
  }

  /** An element of a gathered row is one of the im2col row. */
  lemma GatherElement(v: seq<int>, img: seq<int>, g: Geom, n0: nat, n: nat, last: nat, p0: nat, pc: nat, made: nat, j: nat)
    requires Proper(g) && n0 <= n < last && n < OutH(g) * OutW(g) && p0 * g.C + pc * g.C <= Columns(g) && j < pc * g.C
    requires MadeAs(v, img, g, made) && (LowestRow(g, last) + 1) * g.w <= made
    ensures At(GatherRow(v, g, n0, n, p0, pc), j) == At(Cols(img, g), n * Columns(g) + (p0 * g.C + j))
  {
    var q := p0 * g.C + j;
    TapFinal(v, img, g, n, last, q, made);
    ColsAt(img, g, n, q);
    GatheredTap(v, g, n0, n, p0, pc, j);
  }

  lemma GatheredTap(v: seq<int>, g: Geom, n0: nat, n: nat, p0: nat, pc: nat, j: nat)
    requires Proper(g) && n0 <= n && j < pc * g.C
    ensures At(GatherRow(v, g, n0, n, p0, pc), j) == Tap(v, g, n, p0 * g.C + j)
  {
    PixelAfterIs(g, n0, n - n0);
    GatheredIs(v, g, n, p0, pc, j);
  }

  /** The gathered row is a stretch of the im2col row. */
  lemma GatherRowIs(v: seq<int>, img: seq<int>, g: Geom, n0: nat, n: nat, last: nat, p0: nat, pc: nat, made: nat)
    requires Proper(g) && n0 <= n < last && n < OutH(g) * OutW(g) && p0 + pc <= Positions(g)
    requires MadeAs(v, img, g, made) && (LowestRow(g, last) + 1) * g.w <= made
    ensures SameRow(GatherRow(v, g, n0, n, p0, pc), 0, Cols(img, g), n * Columns(g) + p0 * g.C, pc * g.C)
  {
    var row, base := GatherRow(v, g, n0, n, p0, pc), n * Columns(g) + p0 * g.C;
    Below(p0 + pc, g.kh * g.kw, g.C);
    assert (p0 + pc) * g.C == p0 * g.C + pc * g.C;
    forall j | 0 <= j < pc * g.C ensures Same(row, 0, Cols(img, g), base, j) {
      GatherElement(v, img, g, n0, n, last, p0, pc, made, j);
    }
  }

  lemma GatherCellIs(v: seq<int>, img: seq<int>, g: Geom, wt: seq<int>, p0: nat, pc: nat, n0: nat, last: nat, made: nat,
                     o: Operands, i: nat)
    requires Proper(g) && last <= OutH(g) * OutW(g) && p0 + pc <= Positions(g) && OutH(g) * OutW(g) > 0
    requires MadeAs(v, img, g, made) && last > 0 && (LowestRow(g, last) + 1) * g.w <= made
    requires o == From(ConvOperands(img, g, wt), p0 * g.C) && n0 <= ColOf(o.N, i) < last
    ensures Dot(GatherRow(v, g, n0, ColOf(o.N, i), p0, pc), 0, wt, p0 * g.C + RowOf(o.N, i) * Columns(g), pc * g.C)
      == Exact(o, pc * g.C, i)
  {
    var n := ColOf(o.N, i);
    GatherRowIs(v, img, g, n0, n, last, p0, pc, made);
    DotSame(GatherRow(v, g, n0, n, p0, pc), 0, o.a, RowA(o, i), wt, RowW(o, i), pc * g.C);
  }

  /** A gather job computes the product of the im2col matrix over its columns. */
  lemma GatherTileIs(v: seq<int>, img: seq<int>, g: Geom, wt: seq<int>, p0: nat, pc: nat, n0: nat, nt: nat, len: nat, made: nat)
    requires Proper(g) && nt > 0 && n0 + nt <= OutH(g) * OutW(g) && p0 + pc <= Positions(g)
    requires MadeAs(v, img, g, made) && (LowestRow(g, n0 + nt) + 1) * g.w <= made
    ensures GatherTile(v, g, wt, p0, pc, n0, nt, len) ==
      Tile(From(ConvOperands(img, g, wt), p0 * g.C), pc * g.C, n0, nt, len)
  {
    var o := From(ConvOperands(img, g, wt), p0 * g.C);
    forall i | 0 <= i < len && n0 <= ColOf(o.N, i) < n0 + nt
      ensures GatherTile(v, g, wt, p0, pc, n0, nt, len)[i] == Cell(o, pc * g.C, i)
    {
      GatherCellIs(v, img, g, wt, p0, pc, n0, n0 + nt, made, o, i);
    }
  }

  /** The sums over the first p kernel positions. */
  ghost predicate Convolved(acc: seq<int>, img: seq<int>, g: Geom, wt: seq<int>, p: nat)
    requires Proper(g)
  {
    (OutH(g) * OutW(g) > 0 && IsProduct(acc, ConvOperands(img, g, wt), p * g.C)) == true  // kept whole in proofs
  }

  class Driver {
    const nrows: nat                       // rows per job (CAPS)
    const kmax: nat                        // columns per job (CAPS)
    const block: Block
    var ok: bool                           // accel_ok
    var defer: bool                        // accel_defer
    var pending: bool                      // pend.active

    constructor (nrows: nat, kmax: nat)
      requires nrows > 0 && kmax >= 4
      ensures Valid() && !pending && ok && !defer && fresh(block) && this.nrows == nrows && this.kmax == kmax
    {
      this.nrows, this.kmax := nrows, kmax;
      block := new Block();
      ok, defer, pending := true, false, false;
    }

    /** The driver's flag says whether the block has a job. */
    ghost predicate Valid()
      reads this, block
    {
      nrows > 0 && kmax >= 4 && pending == block.running.Some?
    }

    /** The end of the running job; a failure disables the block. */
    method Collect() returns (r: bool)
      requires block.running.Some?
      modifies this`ok, block, block.Outs()
      ensures block.running == None && ok == (old(ok) && r)
      ensures var j := old(block.running.value); forall i :: 0 <= i < j.out.Length ==>
        (i !in j.vals ==> j.out[i] == old(j.out[i])) && (r && i in j.vals ==> j.out[i] == j.vals[i])
    {
      r := block.End();
      if !r { ok := false; }
    }

    /** accel_wait_simple: the producer works on while the job runs. */
    method Wait(src: Source) returns (r: bool)
      requires block.running.Some? && src.Valid() && block.running.value.out != src.v
      modifies this`ok, block, block.Outs(), src`done, src.v
      ensures block.running == None && ok == (old(ok) && r) && src.Valid() && src.done >= old(src.done)
      ensures var j := old(block.running.value); forall i :: 0 <= i < j.out.Length ==>
        (i !in j.vals ==> j.out[i] == old(j.out[i])) && (r && i in j.vals ==> j.out[i] == j.vals[i])
    {
      src.Idle();
      r := Collect();
    }

    /** dav2_accel_finish: true if nothing was left running. */
    method Finish(src: Source) returns (r: bool)
      requires Valid() && src.Valid() && src.v !in block.Outs()
      modifies this`ok, this`pending, block, block.Outs(), src`done, src.v
      ensures Valid() && !pending && src.Valid() && src.done >= old(src.done)
      ensures if old(pending) then ok == (old(ok) && r) else r && ok == old(ok) && src.done == old(src.done)
      ensures !old(pending) ==> src.v[..] == old(src.v[..])
      ensures old(pending) ==> var j := old(block.running.value); forall i :: 0 <= i < j.out.Length ==>
        (i !in j.vals ==> j.out[i] == old(j.out[i])) && (r && i in j.vals ==> j.out[i] == j.vals[i])
    {
      if !pending { return true; }
      pending := false;
      r := Wait(src);
    }

    /** Nothing has happened to the block, its job, the input and acc. */
    twostate predicate Untouched(acc: array<int>, src: Source)
      reads this, block, acc, src, src.v
    {
      && block.running == old(block.running) && ok == old(ok) && pending == old(pending)
      && acc[..] == old(acc[..]) && src.v[..] == old(src.v[..]) && src.done == old(src.done)
    }

    /** accel_maybe_defer */
    method MaybeDefer(last: bool) returns (r: bool)
      requires block.running.Some? && !pending
      modifies this`pending
      ensures r == (defer && last) && pending == r
    {
      if !defer || !last { return false; }
      pending := true;
      return true;
    }

    /** dav2_accel_lerp_async with weight w on n values of out: 0 declined, or the job before it failed; 2 running.
        able: the block has this job and the operands are aligned. */
    method LerpAsync(out: array<int>, vals: map<int, int>, n: nat, w: nat, able: bool) returns (r: int)
      requires Valid() && out !in block.Outs()
      modifies this`ok, this`defer, this`pending, block, block.Outs(), out
      ensures Valid() && r in {0, 2} && (r == 2 ==> !defer) && (r == 0 ==> defer == old(defer)) && (ok ==> old(ok))
      ensures r == 2 ==> old(ok) && able && 4 <= n <= kmax && n % 4 == 0 && w <= 255
      ensures r == 0 ==> !ok || !able || n < 4 || n % 4 != 0 || n > kmax || w > 255
      ensures if r == 2 then pending && block.running == Some(Job(out, vals)) else pending ==> block.running == old(block.running)
      ensures r == 0 && pending ==> old(pending)
      ensures forall i :: 0 <= i < out.Length && i !in vals ==> out[i] == old(out[i])
      // the job that was pending is collected
      ensures r == 2 && old(pending) ==> var j := old(block.running.value);
        forall i :: 0 <= i < j.out.Length ==> j.out[i] == if i in j.vals then j.vals[i] else old(j.out[i])
    {
      if !ok || !able || n < 4 || n % 4 != 0 || n > kmax || w > 255 { return 0; }
      if pending {
        var f := FinishQuiet();
        if !f { return 0; }
      }
      block.Start(Job(out, vals));
      defer := true;
      var d := MaybeDefer(true);
      defer := false;
      return 2;
    }

    /** dav2_accel_finish of a job whose operands no producer is working on. */
    method FinishQuiet() returns (r: bool)
      requires Valid() && pending
      modifies this`ok, this`pending, block, block.Outs()
      ensures Valid() && !pending && ok == (old(ok) && r)
      ensures var j := old(block.running.value); forall i :: 0 <= i < j.out.Length ==>
        (i !in j.vals ==> j.out[i] == old(j.out[i])) && (r && i in j.vals ==> j.out[i] == j.vals[i])
    {
      pending := false;
      r := Collect();
    }

    /** The next n values of a producer's output, from off on, by a job or on the CPU (interp_lerp_need). */
    method LerpChunk(src: Source, off: nat, n: nat)
      requires Valid() && !pending && src.v.Length == |src.final| && off + n <= src.v.Length
      modifies this`ok, this`defer, this`pending, block, src.v
      ensures Valid() && !pending && (defer ==> old(defer)) && (ok ==> old(ok))
      ensures forall i :: 0 <= i < src.v.Length ==>
        src.v[i] == if off <= i < off + n then src.final[i] else old(src.v[i])
    {
      var vals := map i | off <= i < off + n :: src.final[i];
      var w: nat, able: bool := *, *;
      var r := LerpAsync(src.v, vals, n, w, able);
      if r == 2 {
        var done := FinishQuiet();
        if done { return; }
      }
      forall i | off <= i < off + n { src.v[i] := src.final[i]; }
    }

    /** dav2_producer_need */
    method Need(src: Source, npix: int)
      requires Valid() && !pending && src.Valid()
      modifies this`ok, this`defer, this`pending, block, src`done, src.v
      ensures Valid() && !pending && (defer ==> old(defer)) && (ok ==> old(ok)) && (!src.lerp ==> defer == old(defer) && ok == old(ok))
      ensures src.Valid() && src.done >= old(src.done) && (src.done >= npix || src.done == src.total)
    {
      var n := if npix > src.total then src.total else npix;
      while src.done < n
        invariant Valid() && !pending && (defer ==> old(defer)) && (ok ==> old(ok)) && src.Valid() && src.done >= old(src.done)
        invariant !src.lerp ==> defer == old(defer) && ok == old(ok)
        decreases src.total - src.done
      {
        if src.lerp {
          NeedRow(src);
        } else {
          src.Step();
        }
      }
    }

    /** One output row of a producer with jobs of its own, in chunks. */
    method NeedRow(src: Source)
      requires Valid() && !pending && src.Valid() && src.done < src.total
      modifies this`ok, this`defer, this`pending, block, src`done, src.v
      ensures Valid() && !pending && (defer ==> old(defer)) && (ok ==> old(ok)) && src.Valid() && src.done > old(src.done)
    {
      var n: nat :| src.done < n <= src.total;             // the end of the row
      var off, end := src.done * src.ch, n * src.ch;
      Below(src.done, n, src.ch);
      Below(n, src.total, src.ch);
      while off < end
        invariant src.done * src.ch <= off <= end && Valid() && !pending && (defer ==> old(defer)) && (ok ==> old(ok))
        invariant forall i :: 0 <= i < off ==> src.v[i] == src.final[i]
      {
        var chunk: nat :| 0 < chunk <= end - off;
        LerpChunk(src, off, chunk);
        off := off + chunk;
      }
      src.done := n;
    }

    /** The product is left running: its last job gives the cells that are not there yet. */
    ghost predicate LeftRunning(acc: array<int>, o: Operands, K: nat)
      requires o.N > 0
      reads this, block, acc
    {
      && pending && block.running.Some? && block.running.value.out == acc
      && Pending(acc[..], block.running.value.vals, o, K)
    }

    /** What a job can hold: whole words of A, and no more columns than the block has room for. */
    predicate JobHolds(K: nat) { 4 <= K <= kmax && K % 4 == 0 }

    /** One job of accel_run: made, started, and waited for unless it is left running. */
    method RunTile(src: Source, ghost o: Operands, ghost K: nat, acc: array<int>, n0: nat, nt: nat, job: Job, last: bool)
      returns (r: int)
      requires Valid() && !pending && src.Valid() && acc != src.v && o.N > 0 && 0 < nt <= nrows && n0 + nt <= o.N
      requires JobHolds(K)
      requires (last ==> n0 + nt == o.N) && job == Job(acc, Tile(o, K, n0, nt, acc.Length))
      requires forall i :: 0 <= i < acc.Length && ColOf(o.N, i) < n0 ==> acc[i] == Cell(o, K, i)
      modifies this`ok, this`pending, block, acc, src`done, src.v
      ensures Valid() && src.Valid() && src.done >= old(src.done)
      ensures r == 2 <==> old(defer) && last
      ensures r == 2 ==> LeftRunning(acc, o, K)
      ensures r != 2 ==> !pending && r in {0, 1}
      ensures ok == (old(ok) && r != 0)
      ensures r == 1 ==> forall i :: 0 <= i < acc.Length && ColOf(o.N, i) < n0 + nt ==> acc[i] == Cell(o, K, i)
      ensures forall i :: 0 <= i < acc.Length && ColOf(o.N, i) < n0 ==> acc[i] == Cell(o, K, i)
    {
      block.Start(job);
      var d := MaybeDefer(last);
      if d {
        assert forall i :: 0 <= i < acc.Length ==> ColOf(o.N, i) < o.N;
        return 2;
      }
      var w := Wait(src);
      return if w then 1 else 0;
    }

    /** accel_run: 1 done, 2 done but for the last job, which is left running, 0 failed. */
    method Run(src: Source, o: Operands, K: nat, acc: array<int>) returns (r: int)
      requires Valid() && src.Valid() && acc != src.v && src.v !in block.Outs() && o.N > 0 && Reads(src, o, K) && JobHolds(K)
      modifies this`ok, this`defer, this`pending, block, block.Outs(), acc, src`done, src.v
      ensures Valid() && src.Valid() && src.done >= old(src.done) && r in {0, 1, 2} && (defer ==> old(defer))
      ensures r == 1 ==> !pending && IsProduct(acc[..], o, K) && (old(defer) ==> src.lerp)
      ensures r == 2 ==> old(defer) && LeftRunning(acc, o, K)
      // 0 exactly when a job has failed, the pending one included, but for jobs of a producer
      ensures (ok ==> old(ok)) && (r == 0 ==> !pending && !ok) && (!src.lerp ==> defer == old(defer) && (r != 0 ==> ok == old(ok)))
    {
      var f := Finish(src);
      if !f { return 0; }
      var n0 := 0;
      while n0 < o.N
        modifies this`ok, this`defer, this`pending, block, acc, src`done, src.v
        invariant Valid() && !pending && src.Valid() && src.done >= old(src.done) && Reads(src, o, K) && (defer ==> old(defer))
        invariant (ok ==> old(ok)) && (!src.lerp ==> defer == old(defer) && ok == old(ok)) && (old(defer) && n0 >= o.N ==> src.lerp)
        invariant forall i :: 0 <= i < acc.Length && ColOf(o.N, i) < n0 ==> acc[i] == Cell(o, K, i)
      {
        var nt := if o.N - n0 > nrows then nrows else o.N - n0;
        Need(src, n0 + nt);
        MadeFinal(src, o, K, n0 + nt);
        TileFinal(o, K, src.v[..], n0, nt, acc.Length);
        r := RunTile(src, o, K, acc, n0, nt, Job(acc, Tile(o.(a := src.v[..]), K, n0, nt, acc.Length)),
                     n0 + nt >= o.N);
        if r != 1 { return; }
        n0 := n0 + nrows;
      }
      return 1;
    }

    // -------------------------------------------------------------- long reductions

    /** acc += part, in 32 bits */
    method AddPart(acc: array<int>, part: array<int>)
      requires acc != part && acc.Length == part.Length
      modifies acc
      ensures forall i :: 0 <= i < acc.Length ==> acc[i] == I32(old(acc[i]) + part[i])
    {
      var n := 0;
      while n < acc.Length
        invariant n <= acc.Length
        invariant forall i :: 0 <= i < acc.Length ==> acc[i] == if i < n then I32(old(acc[i]) + part[i]) else old(acc[i])
      {
        acc[n] := I32(acc[n] + part[n]);
        n := n + 1;
      }
    }

    /** The product over the first k columns and the next l, added. */
    method Extend(acc: array<int>, part: array<int>, ghost o: Operands, ghost k: nat, ghost l: nat)
      requires acc != part && acc.Length == part.Length && o.N > 0
      requires IsProduct(acc[..], o, k) && IsProduct(part[..], From(o, k), l)
      modifies acc
      ensures IsProduct(acc[..], o, k + l)
    {
      ghost var a, p := acc[..], part[..];
      AddPart(acc, part);
      forall i | 0 <= i < |a| ensures acc[i] == Cell(o, k + l, i) {
        assert a[i] == Cell(o, k, i) && p[i] == Cell(From(o, k), l, i);
        CellSplit(o, k, l, i);
      }
    }

    /** One chunk of columns: into acc if it is the first, else into part and added. */
    method Chunk(src: Source, o: Operands, k0: nat, kc: nat, acc: array<int>, part: array<int>) returns (r: bool)
      requires Valid() && src.Valid() && o.N > 0 && Reads(src, From(o, k0), kc) && !defer && JobHolds(kc)
      requires acc != src.v && part != src.v && acc != part && acc.Length == part.Length && src.v !in block.Outs()
      requires k0 > 0 ==> !pending && IsProduct(acc[..], o, k0)
      modifies this`ok, this`defer, this`pending, block, block.Outs(), acc, part, src`done, src.v
      ensures Valid() && !pending && src.Valid() && src.done >= old(src.done) && !defer
      ensures (ok ==> old(ok)) && if r then IsProduct(acc[..], o, k0 + kc) && (!src.lerp ==> ok == old(ok)) else !ok
    {
      if k0 == 0 {
        var x := Run(src, From(o, k0), kc, acc);
        assert From(o, 0) == o;
        return x == 1;
      }
      var x := Run(src, From(o, k0), kc, part);
      if x == 1 { Extend(acc, part, o, k0, kc); }
      return x == 1;
    }

    /** dav2_accel_qgemm; aligned: the operands start at whole words; room: the partial sums can be stored. */
    method Qgemm(src: Source, w: seq<int>, acc: array<int>, M: nat, aligned: bool, room: bool) returns (r: int)
      requires Valid() && src.Valid() && |w| == M * src.ch && acc.Length == src.total * M
      requires acc != src.v && src.v !in block.Outs()
      modifies this`ok, this`defer, this`pending, block, block.Outs(), acc, src`done, src.v
      ensures Valid() && src.Valid() && src.done >= old(src.done) && r in {0, 1, 2}
      ensures r != 0 ==> src.total > 0
      ensures r == 1 ==> !pending && IsProduct(acc[..], Plain(src.final, w, src.total, src.ch), src.ch)
      ensures r == 1 && old(defer) ==> src.lerp || src.ch > kmax
      ensures r == 2 ==> old(defer) && src.ch <= kmax && LeftRunning(acc, Plain(src.final, w, src.total, src.ch), src.ch)
      // declined: a job that was pending still is, and nothing has changed
      ensures r == 0 && pending ==> old(pending) && Untouched(acc, src)
      ensures !old(ok) || src.ch < 4 || src.ch % 4 != 0 || src.total < 1 || M < 1 || !aligned || (src.ch > kmax && !room) ==>
        r == 0 && Untouched(acc, src)
      // otherwise 0 means that a job has failed
      ensures (ok ==> old(ok)) && (r == 0 ==>
        !ok || src.ch < 4 || src.ch % 4 != 0 || src.total < 1 || M < 1 || !aligned || (src.ch > kmax && !room))
      ensures r != 0 && !src.lerp ==> ok == old(ok)
      ensures !src.lerp || src.ch > kmax ==> defer == old(defer)
    {
      var N, K := src.total, src.ch;
      if !ok || K < 4 || K % 4 != 0 || N < 1 || M < 1 || !aligned { return 0; }
      var o := Plain(src.final, w, N, K);
      if K <= kmax {
        r := Run(src, o, K, acc);
        return;
      }
      if !room { return 0; }
      var part := new int[N * M];
      var saved := defer;
      defer := false;
      var done := QgemmChunks(src, o, K, acc, part);
      defer := saved;
      return if done then 1 else 0;
    }

    /** Columns that fill whole words. */
    predicate WholeWords(k: nat) { k % 4 == 0 }

    lemma MostColumns(K: nat)
      requires Valid() && K % 4 == 0
      ensures var most := kmax - kmax % 4; WholeWords(K) && WholeWords(0) && WholeWords(most) && 0 < most <= kmax
    {}

    lemma ColumnsHeld(K: nat, k0: nat, most: nat, kc: nat)
      requires WholeWords(K) && WholeWords(k0) && k0 < K && 0 < most <= kmax && WholeWords(most)
      requires kc == if K - k0 > most then most else K - k0
      ensures JobHolds(kc) && WholeWords(k0 + kc)
    {}

    /** The loop of dav2_accel_qgemm over the chunks of a long reduction. */
    method QgemmChunks(src: Source, o: Operands, K: nat, acc: array<int>, part: array<int>) returns (r: bool)
      requires Valid() && src.Valid() && o.N == src.total > 0 && o.a == src.final && o.aoff == 0 && o.ar == src.ch == K && !defer
      requires acc != src.v && part != src.v && acc != part && acc.Length == part.Length && src.v !in block.Outs() && K > 0 && K % 4 == 0
      modifies this`ok, this`defer, this`pending, block, block.Outs(), acc, part, src`done, src.v
      ensures Valid() && src.Valid() && src.done >= old(src.done) && !pending
      ensures (ok ==> old(ok)) && if r then IsProduct(acc[..], o, K) && (!src.lerp ==> ok == old(ok)) else !ok
    {
      hide Driver.JobHolds, Driver.WholeWords;
      var most := kmax - kmax % 4;
      MostColumns(K);
      var k0 := 0;
      r := true;
      while k0 < K && r
        invariant k0 <= K && Valid() && src.Valid() && src.done >= old(src.done) && !defer && (ok ==> old(ok)) && (r || !ok)
        invariant WholeWords(k0) && (r && !src.lerp ==> ok == old(ok))
        invariant if k0 == 0 then block.running == old(block.running) && r else !pending && (r ==> IsProduct(acc[..], o, k0))
      {
        var kc := if K - k0 > most then most else K - k0;
        ColumnsHeld(K, k0, most, kc);
        r := Chunk(src, o, k0, kc, acc, part);
        k0 := k0 + kc;
      }
    }

    /** dav2_accel_qgemm_async: 2 if the last job is left running. */
    method QgemmAsync(src: Source, w: seq<int>, acc: array<int>, M: nat, aligned: bool, room: bool) returns (r: int)
      requires Valid() && src.Valid() && |w| == M * src.ch && acc.Length == src.total * M
      requires acc != src.v && src.v !in block.Outs()
      modifies this`ok, this`defer, this`pending, block, block.Outs(), acc, src`done, src.v
      ensures Valid() && src.Valid() && r in {0, 1, 2} && !defer && (r != 0 ==> src.total > 0)
      ensures r == 1 ==> !pending && IsProduct(acc[..], Plain(src.final, w, src.total, src.ch), src.ch) && (src.lerp || src.ch > kmax)
      ensures r == 2 ==> src.ch <= kmax && LeftRunning(acc, Plain(src.final, w, src.total, src.ch), src.ch)
      // declined: a job that was pending still is, and nothing has changed
      ensures r == 0 && pending ==> old(pending) && Untouched(acc, src)
      ensures !old(ok) || src.ch < 4 || src.ch % 4 != 0 || src.total < 1 || M < 1 || !aligned || (src.ch > kmax && !room) ==>
        r == 0 && Untouched(acc, src)
      // otherwise 0 means that a job has failed
      ensures (ok ==> old(ok)) && (r == 0 ==>
        !ok || src.ch < 4 || src.ch % 4 != 0 || src.total < 1 || M < 1 || !aligned || (src.ch > kmax && !room))
      ensures r != 0 && !src.lerp ==> ok == old(ok)
    {
      defer := true;
      r := Qgemm(src, w, acc, M, aligned, room);
      defer := false;
    }

    /** dav2_accel_gemm_raw on an operand that is whole. */
    method GemmRaw(src: Source, o: Operands, K: nat, M: nat, acc: array<int>, aligned: bool) returns (r: int)
      requires Valid() && src.Valid() && acc != src.v && src.v !in block.Outs() && o.a == src.final && src.done == src.total
      requires o.N > 0
      modifies this`ok, this`defer, this`pending, block, block.Outs(), acc, src`done, src.v
      ensures Valid() && src.Valid() && src.done == src.total && r in {0, 1, 2} && (defer ==> old(defer))
      ensures r == 1 ==> !pending && IsProduct(acc[..], o, K) && (old(defer) ==> src.lerp)
      ensures r == 2 ==> old(defer) && LeftRunning(acc, o, K)
      // declined: a job that was pending still is, and nothing has changed
      ensures r == 0 && pending ==> old(pending) && Untouched(acc, src)
      ensures !old(ok) || K < 4 || K % 4 != 0 || K > kmax || M < 1 || !aligned ==> r == 0 && Untouched(acc, src)
      // otherwise 0 means that a job has failed
      ensures (ok ==> old(ok)) && (r == 0 ==> !ok || K < 4 || K % 4 != 0 || K > kmax || M < 1 || !aligned)
      ensures r != 0 && !src.lerp ==> ok == old(ok)
    {
      if !ok || K < 4 || K % 4 != 0 || K > kmax || M < 1 || !aligned { return 0; }
      r := Run(src, o, K, acc);
    }

    method GemmRawAsync(src: Source, o: Operands, K: nat, M: nat, acc: array<int>, aligned: bool) returns (r: int)
      requires Valid() && src.Valid() && acc != src.v && src.v !in block.Outs() && o.a == src.final && src.done == src.total
      requires o.N > 0
      modifies this`ok, this`defer, this`pending, block, block.Outs(), acc, src`done, src.v
      ensures Valid() && src.Valid() && src.done == src.total && r in {0, 1, 2} && !defer
      ensures r == 1 ==> !pending && IsProduct(acc[..], o, K) && src.lerp
      ensures r == 2 ==> LeftRunning(acc, o, K)
      // declined: a job that was pending still is, and nothing has changed
      ensures r == 0 && pending ==> old(pending) && Untouched(acc, src)
      ensures !old(ok) || K < 4 || K % 4 != 0 || K > kmax || M < 1 || !aligned ==> r == 0 && Untouched(acc, src)
      // otherwise 0 means that a job has failed
      ensures (ok ==> old(ok)) && (r == 0 ==> !ok || K < 4 || K % 4 != 0 || K > kmax || M < 1 || !aligned)
      ensures r != 0 && !src.lerp ==> ok == old(ok)
    {
      defer := true;
      r := GemmRaw(src, o, K, M, acc, aligned);
      defer := false;
    }

    // -------------------------------------------------------------- convolutions

    /** The gather jobs of one chunk of kernel positions. */
    method ConvChunk(src: Source, g: Geom, wt: seq<int>, p0: nat, pc: nat, dst: array<int>, single: bool) returns (r: int)
      requires Valid() && !pending && src.Valid() && dst != src.v && Proper(g) && p0 + pc <= Positions(g)
      requires JobHolds(pc * g.C) && pc <= 255
      requires src.ch == g.C && src.total == g.h * g.w
      modifies this`ok, this`defer, this`pending, block, dst, src`done, src.v
      ensures Valid() && src.Valid() && src.done >= old(src.done) && r in {0, 1, 2} && (defer ==> old(defer))
      ensures OutH(g) * OutW(g) > 0
      ensures r == 1 ==> !pending && IsProduct(dst[..], From(ConvOperands(src.final, g, wt), p0 * g.C), pc * g.C)
      ensures r == 2 ==> single && old(defer) && LeftRunning(dst, From(ConvOperands(src.final, g, wt), p0 * g.C), pc * g.C)
      ensures (ok ==> old(ok)) && (r == 0 ==> !pending && !ok) && (r == 1 && single && old(defer) ==> src.lerp)
      ensures r != 0 && !src.lerp ==> ok == old(ok)
    {
      PixelsPositive(g);
      var N := OutH(g) * OutW(g);
      ghost var o := From(ConvOperands(src.final, g, wt), p0 * g.C);
      var n0 := 0;
      while n0 < N
        invariant Valid() && !pending && src.Valid() && src.done >= old(src.done) && (defer ==> old(defer))
        invariant (ok ==> old(ok)) && (!src.lerp ==> defer == old(defer) && ok == old(ok)) && (single && old(defer) && n0 >= N ==> src.lerp)
        invariant forall i :: 0 <= i < dst.Length && ColOf(N, i) < n0 ==> dst[i] == Cell(o, pc * g.C, i)
      {
        var nt := if N - n0 > nrows then nrows else N - n0;
        Need(src, (LowestRow(g, n0 + nt) + 1) * g.w);
        GatherReady(src, g, wt, p0, pc, n0, nt, dst.Length);
        r := RunTile(src, o, pc * g.C, dst, n0, nt, Job(dst, GatherTile(src.v[..], g, wt, p0, pc, n0, nt, dst.Length)),
                     single && n0 + nt >= N);
        if r != 1 { return; }
        n0 := n0 + nrows;
      }
      return 1;
    }

    /** The rows the tile reads have been made. */
    lemma GatherReady(src: Source, g: Geom, wt: seq<int>, p0: nat, pc: nat, n0: nat, nt: nat, len: nat)
      requires src.Valid() && Proper(g) && p0 + pc <= Positions(g) && src.ch == g.C && src.total == g.h * g.w
      requires nt > 0 && n0 + nt <= OutH(g) * OutW(g)
      requires src.done >= (LowestRow(g, n0 + nt) + 1) * g.w || src.done == src.total
      ensures GatherTile(src.v[..], g, wt, p0, pc, n0, nt, len) ==
        Tile(From(ConvOperands(src.final, g, wt), p0 * g.C), pc * g.C, n0, nt, len)
    {
      Below(LowestRow(g, n0 + nt) + 1, g.h, g.w);
      GatherTileIs(src.v[..], src.final, g, wt, p0, pc, n0, nt, len, src.done);
    }

    /** One chunk of kernel positions: into acc if it is the first, else into part and added. */
    method ConvPart(src: Source, g: Geom, wt: seq<int>, p0: nat, pc: nat, acc: array<int>, part: array<int>, single: bool)
      returns (r: int)
      requires Valid() && !pending && src.Valid() && Proper(g) && p0 + pc <= Positions(g) && (single ==> p0 == 0)
      requires JobHolds(pc * g.C) && pc <= 255
      requires src.ch == g.C && src.total == g.h * g.w && acc != src.v && part != src.v
      requires p0 > 0 ==> acc != part && acc.Length == part.Length
      requires OutH(g) * OutW(g) > 0 && (p0 > 0 ==> Convolved(acc[..], src.final, g, wt, p0))
      modifies this`ok, this`defer, this`pending, block, acc, part, src`done, src.v
      ensures Valid() && src.Valid() && src.done >= old(src.done) && r in {0, 1, 2} && (defer ==> old(defer))
      ensures r == 1 ==> !pending && Convolved(acc[..], src.final, g, wt, p0 + pc)
      ensures r == 2 ==> single && old(defer) && LeftRunning(acc, ConvOperands(src.final, g, wt), pc * g.C)
      ensures (ok ==> old(ok)) && (r == 0 ==> !pending && !ok) && (r == 1 && single && old(defer) ==> src.lerp)
      ensures r != 0 && !src.lerp ==> ok == old(ok)
    {
      hide IsProduct, Driver.LeftRunning, Driver.JobHolds;
      ghost var o := ConvOperands(src.final, g, wt);
      assert (p0 + pc) * g.C == p0 * g.C + pc * g.C;
      if p0 == 0 {
        assert From(o, 0) == o;
        r := ConvChunk(src, g, wt, 0, pc, acc, single);
      } else {
        r := ConvChunk(src, g, wt, p0, pc, part, single);
        if r == 1 { Extend(acc, part, o, p0 * g.C, pc * g.C); }
      }
    }

    /** The registers can hold the sizes, and a job one kernel position. */
    predicate Takes(g: Geom, M: nat)
      requires Proper(g)
    {
      && g.C % 4 == 0 && g.kh <= 15 && g.stride <= 15 && g.pad <= 15 && M >= 1
      && g.h <= 65535 && g.w <= 65535 && OutW(g) <= 65535 && g.C <= kmax
    }

    /** A job can hold all kernel positions. */
    predicate InOneJob(g: Geom) { Columns(g) <= kmax }

    /** As many positions as a job can hold are all of them exactly when that is so. */
    lemma MostPositions(g: Geom)
      requires Proper(g)
      ensures kmax / g.C >= 1 <==> g.C <= kmax
      ensures kmax / g.C >= Positions(g) <==> InOneJob(g)
    {
      var q := kmax / g.C;
      if q >= Positions(g) { Below(Positions(g), q, g.C); } else { Below(q + 1, Positions(g), g.C); }
    }

    lemma ChunkHolds(g: Geom, pc: nat, most: nat)
      requires Proper(g) && g.C % 4 == 0 && 0 < pc <= most && most * g.C <= kmax
      ensures JobHolds(pc * g.C)
    {
      Below(pc, most, g.C);
      Below(1, pc, g.C);
      var q := g.C / 4;
      assert g.C == 4 * q;
      assert pc * g.C == 4 * (pc * q);
    }

    /** dav2_accel_conv with a k x k kernel; able: the block can gather and the operands are aligned; room: the partial sums
        can be stored. */
    method Conv(src: Source, g: Geom, wt: seq<int>, M: nat, acc: array<int>, able: bool, room: bool) returns (r: int)
      requires Valid() && src.Valid() && Proper(g) && g.kh == g.kw && src.ch == g.C && src.total == g.h * g.w
      requires acc != src.v && src.v !in block.Outs() && acc.Length == OutH(g) * OutW(g) * M && OutH(g) * OutW(g) > 0
      modifies this`ok, this`defer, this`pending, block, block.Outs(), acc, src`done, src.v
      ensures Valid() && src.Valid() && src.done >= old(src.done) && r in {0, 1, 2} && (defer ==> old(defer))
      ensures r == 1 ==> !pending && IsProduct(acc[..], ConvOperands(src.final, g, wt), Columns(g))
      ensures r == 1 && old(defer) ==> src.lerp || !InOneJob(g)
      ensures r == 2 ==> old(defer) && InOneJob(g) && LeftRunning(acc, ConvOperands(src.final, g, wt), Columns(g))
      // declined: a job that was pending still is, and nothing has changed
      ensures r == 0 && pending ==> old(pending) && Untouched(acc, src)
      ensures !old(ok) || !able || !Takes(g, M) ==> r == 0 && Untouched(acc, src)
      // otherwise 0 means that a job has failed, or that partial sums are needed and cannot be stored
      ensures (ok ==> old(ok)) && (r == 0 ==> !ok || !able || !Takes(g, M) || (!InOneJob(g) && !room))
      ensures (!InOneJob(g) && !room ==> r == 0) && (r != 0 && !src.lerp ==> ok == old(ok))
    {
      hide IsProduct, Driver.LeftRunning, Driver.JobHolds;
      if !ok || !able || g.C % 4 != 0 || g.kh > 15 || g.stride > 15 || g.pad > 15 || M < 1 { return 0; }
      if g.h > 65535 || g.w > 65535 || OutW(g) > 65535 { return 0; }
      MostPositions(g);
      Below(1, g.kh, g.kw);
      Below(g.kh, 15, g.kh);
      var most := kmax / g.C;
      if most < 1 { return 0; }
      var positions := Positions(g);
      if most > positions { most := positions; }
      if most > 255 { most := 255; }
      var f := Finish(src);
      if !f { return 0; }
      var single := most == positions;
      if !single && !room { return 0; }
      var part := new int[if single then 0 else acc.Length];
      r := ConvPositions(src, g, wt, most, acc, part, single);
    }

    /** The loop of dav2_accel_conv over the chunks of kernel positions. */
    method ConvPositions(src: Source, g: Geom, wt: seq<int>, most: nat, acc: array<int>, part: array<int>, single: bool)
      returns (r: int)
      requires Valid() && !pending && src.Valid() && Proper(g) && src.ch == g.C && src.total == g.h * g.w
      requires 0 < most <= Positions(g) && (single <==> most == Positions(g)) && OutH(g) * OutW(g) > 0
      requires g.C % 4 == 0 && most <= 255 && most * g.C <= kmax
      requires acc != src.v && part != src.v && (!single ==> acc != part && acc.Length == part.Length)
      modifies this`ok, this`defer, this`pending, block, acc, part, src`done, src.v
      ensures Valid() && src.Valid() && src.done >= old(src.done) && r in {0, 1, 2} && (defer ==> old(defer))
      ensures r == 1 ==> !pending && Convolved(acc[..], src.final, g, wt, Positions(g))
      ensures r == 2 ==> single && old(defer) && LeftRunning(acc, ConvOperands(src.final, g, wt), Columns(g))
      ensures (ok ==> old(ok)) && (r == 0 ==> !pending && !ok) && (r == 1 && single && old(defer) ==> src.lerp)
      ensures r != 0 && !src.lerp ==> ok == old(ok)
    {
      hide IsProduct;
      var p0 := 0;
      while p0 < Positions(g)
        invariant p0 <= Positions(g) && Valid() && !pending && src.Valid() && src.done >= old(src.done) && (defer ==> old(defer))
        invariant (ok ==> old(ok)) && (p0 == 0 ==> defer == old(defer)) && (single && old(defer) && p0 > 0 ==> src.lerp)
        invariant !src.lerp ==> ok == old(ok)
        invariant p0 > 0 ==> Convolved(acc[..], src.final, g, wt, p0) && (single ==> p0 == Positions(g))
      {
        var pc := if Positions(g) - p0 > most then most else Positions(g) - p0;
        ChunkHolds(g, pc, most);
        r := ConvPart(src, g, wt, p0, pc, acc, part, single);
        if r != 1 { return; }
        p0 := p0 + pc;
      }
      return 1;
    }

    /** dav2_accel_conv_async: 2 if the last job is left running. */
    method ConvAsync(src: Source, g: Geom, wt: seq<int>, M: nat, acc: array<int>, able: bool, room: bool) returns (r: int)
      requires Valid() && src.Valid() && Proper(g) && g.kh == g.kw && src.ch == g.C && src.total == g.h * g.w
      requires acc != src.v && src.v !in block.Outs() && acc.Length == OutH(g) * OutW(g) * M && OutH(g) * OutW(g) > 0
      modifies this`ok, this`defer, this`pending, block, block.Outs(), acc, src`done, src.v
      ensures Valid() && src.Valid() && r in {0, 1, 2} && !defer
      ensures r == 1 ==> !pending && IsProduct(acc[..], ConvOperands(src.final, g, wt), Columns(g))
      ensures r == 1 ==> src.lerp || !InOneJob(g)
      ensures r == 2 ==> InOneJob(g) && LeftRunning(acc, ConvOperands(src.final, g, wt), Columns(g))
      // declined: a job that was pending still is, and nothing has changed
      ensures r == 0 && pending ==> old(pending) && Untouched(acc, src)
      ensures !old(ok) || !able || !Takes(g, M) ==> r == 0 && Untouched(acc, src)
      // otherwise 0 means that a job has failed, or that partial sums are needed and cannot be stored
      ensures (ok ==> old(ok)) && (r == 0 ==> !ok || !able || !Takes(g, M) || (!InOneJob(g) && !room))
      ensures (!InOneJob(g) && !room ==> r == 0) && (r != 0 && !src.lerp ==> ok == old(ok))
    {
      defer := true;
      r := Conv(src, g, wt, M, acc, able, room);
      defer := false;
    }

    /** dav2_accel_bigcheck on a and w: the words in which driver and CPU differ, -1 if the accelerator declines. None ever do. */
    method BigCheck(a: seq<int>, w: seq<int>, N: nat, K: nat, M: nat, aligned: bool, room: bool) returns (bad: int)
      requires Valid() && !defer && K > 0 && |a| == N * K && |w| == M * K
      modifies this`ok, this`defer, this`pending, block, block.Outs()
      ensures Valid() && bad in {-1, 0}
      ensures bad == -1 <==> !ok || K < 4 || K % 4 != 0 || N < 1 || M < 1 || !aligned || (K > kmax && !room)
    {
      var src := new Source.Whole(a, K, N);
      var hw, sw := new int[N * M], new int[N * M];
      var scratch := new int[SCRATCH];
      QgemmCpu(a, w, sw, N, K, M, scratch);
      var r := Qgemm(src, w, hw, M, aligned, room);
      if r == 0 { return -1; }
      OneProduct(hw[..], sw[..], Plain(a, w, N, K), K);
      bad := 0;
      var i := 0;
      while i < N * M
        invariant bad == 0
      {
        assert hw[..][i] == sw[..][i];
        if hw[i] != sw[i] { bad := bad + 1; }
        i := i + 1;
      }
    }
  }

  // ---------------------------------------------------------------- the paths agree

  /** A product is determined by its operands: whichever way it was computed, the cells are the same. */
  lemma OneProduct(x: seq<int>, y: seq<int>, o: Operands, K: nat)
    requires o.N > 0 && |x| == |y| && IsProduct(x, o, K) && IsProduct(y, o, K)
    ensures x == y
  {}

  /** dav2_im2col followed by a product is the convolution the driver computes. */
  lemma ConvAgrees(img: seq<int>, g: Geom, wt: seq<int>, cols: seq<int>, x: seq<int>, y: seq<int>)
    requires Proper(g) && IsIm2col(cols, img, g) && OutH(g) * OutW(g) > 0 && |x| == |y|
    requires IsProduct(x, Plain(cols, wt, OutH(g) * OutW(g), Columns(g)), Columns(g))
    requires IsProduct(y, ConvOperands(img, g, wt), Columns(g))
    ensures x == y
  {
    assert cols == Cols(img, g);
  }
}
