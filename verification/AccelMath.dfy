/** The products the accelerator and the CPU kernels compute: sums of 32-bit products, in the layout acc[m * N + n]. */
module AccelMath {
  import opened Arith
  import opened Words

  function Mul(x: int, y: int): int { x * y }

  /** The sum of a[i + t] * w[j + t] over the first k values of t. */
  function Dot(a: seq<int>, i: int, w: seq<int>, j: int, k: nat): int
    decreases k
  {
    if k == 0 then 0 else Dot(a, i, w, j, k - 1) + Mul(At(a, i + k - 1), At(w, j + k - 1))
  }

  /** A sum over k + l columns is a sum over k and one over the next l. */
  lemma {:induction false} DotSplit(a: seq<int>, i: int, w: seq<int>, j: int, k: nat, l: nat)
    ensures Dot(a, i, w, j, k + l) == Dot(a, i, w, j, k) + Dot(a, i + k, w, j + k, l)
    decreases l
  {
    if l > 0 { DotSplit(a, i, w, j, k, l - 1); }
  }

  predicate Same(a: seq<int>, i: int, b: seq<int>, j: int, t: int) { At(a, i + t) == At(b, j + t) }

  /** k values of a from i on are those of b from j on. */
  ghost predicate SameRow(a: seq<int>, i: int, b: seq<int>, j: int, k: nat) {
    forall t :: 0 <= t < k ==> Same(a, i, b, j, t)
  }

  /** Only the columns read matter. */
  lemma {:induction false} DotSame(a: seq<int>, i: int, b: seq<int>, j: int, w: seq<int>, q: int, k: nat)
    requires SameRow(a, i, b, j, k)
    ensures Dot(a, i, w, q, k) == Dot(b, j, w, q, k)
    decreases k
  {
    if k > 0 {
      DotSame(a, i, b, j, w, q, k - 1);
      assert Same(a, i, b, j, k - 1);
    }
  }

  /** 14-bit activations and 8-bit weights. */
  predicate Small(a: seq<int>, w: seq<int>) {
    (forall i :: 0 <= i < |a| ==> -8191 <= a[i] <= 8191) && (forall i :: 0 <= i < |w| ==> -127 <= w[i] <= 127)
  }

  lemma {:induction false} DotBound(a: seq<int>, i: int, w: seq<int>, j: int, k: nat)
    requires Small(a, w)
    ensures -1040257 * k <= Dot(a, i, w, j, k) <= 1040257 * k
    decreases k
  {
    if k > 0 {
      DotBound(a, i, w, j, k - 1);
      MulBound(At(a, i + k - 1), At(w, j + k - 1));
    }
  }

  lemma MulBound(x: int, y: int)
    requires -8191 <= x <= 8191 && -127 <= y <= 127
    ensures -1040257 <= Mul(x, y) <= 1040257
  {
    var z := if y < 0 then -y else y;
    Below(x, 8191, z);
    Below(-8191, x, z);
    assert x * y == x * z || x * y == -(x * z);
  }

  /** With up to 2064 columns no sum, nor any partial sum, leaves 32 bits. */
  lemma NoWrap(a: seq<int>, i: int, w: seq<int>, j: int, k: nat)
    requires Small(a, w) && k <= 2064
    ensures I32(Dot(a, i, w, j, k)) == Dot(a, i, w, j, k)
  {
    DotBound(a, i, w, j, k);
  }

  // ---------------------------------------------------------------- matrices

  /** The operands of a product: row n of A starts at aoff + n * ar, row m of W at woff + m * wr. */
  datatype Operands = Operands(a: seq<int>, aoff: nat, ar: nat, w: seq<int>, woff: nat, wr: nat, N: nat)

  /** Where the rows of cell i start. */
  function RowA(o: Operands, i: nat): int
    requires o.N > 0
  {
    o.aoff + ColOf(o.N, i) * o.ar
  }

  function RowW(o: Operands, i: nat): int
    requires o.N > 0
  {
    o.woff + RowOf(o.N, i) * o.wr
  }

  /** The exact value of cell i of the product over K columns. */
  function Exact(o: Operands, K: nat, i: nat): int
    requires o.N > 0
  {
    Dot(o.a, RowA(o, i), o.w, RowW(o, i), K)
  }

  /** Cell i as 32 bits. */
  function Cell(o: Operands, K: nat, i: nat): int
    requires o.N > 0
  {
    I32(Exact(o, K, i))
  }

  /** Two whole matrices, row after row. */
  function Plain(a: seq<int>, w: seq<int>, N: nat, K: nat): Operands { Operands(a, 0, K, w, 0, K, N) }

  /** The operands from column k on. */
  function From(o: Operands, k: nat): Operands { o.(aoff := o.aoff + k, woff := o.woff + k) }

  lemma FromRows(o: Operands, k: nat, i: nat)
    requires o.N > 0
    ensures RowA(From(o, k), i) == RowA(o, i) + k && RowW(From(o, k), i) == RowW(o, i) + k
  {}

  lemma DotSplit32(a: seq<int>, i: int, w: seq<int>, j: int, k: nat, l: nat)
    ensures I32(I32(Dot(a, i, w, j, k)) + I32(Dot(a, i + k, w, j + k, l))) == I32(Dot(a, i, w, j, k + l))
  {
    DotSplit(a, i, w, j, k, l);
    var x, y := Dot(a, i, w, j, k), Dot(a, i + k, w, j + k, l);
    I32Add(x, I32(y));
    I32Add(x, y);
  }

  /** Adding the product over the next columns, in 32 bits. */
  lemma CellSplit(o: Operands, k: nat, l: nat, i: nat)
    requires o.N > 0
    ensures I32(Cell(o, k, i) + Cell(From(o, k), l, i)) == Cell(o, k + l, i)
  {
    FromRows(o, k, i);
    DotSplit32(o.a, RowA(o, i), o.w, RowW(o, i), k, l);
  }

  /** The whole product. */
  ghost predicate IsProduct(acc: seq<int>, o: Operands, K: nat)
    requires o.N > 0
  {
    forall i :: 0 <= i < |acc| ==> acc[i] == Cell(o, K, i)
  }

  /** Within the range the format promises, the product is the exact one. */
  lemma ProductExact(acc: seq<int>, o: Operands, K: nat, i: nat)
    requires o.N > 0 && IsProduct(acc, o, K) && Small(o.a, o.w) && K <= 2064 && i < |acc|
    ensures acc[i] == Exact(o, K, i)
  {
    NoWrap(o.a, RowA(o, i), o.w, RowW(o, i), K);
  }

  // ---------------------------------------------------------------- the CPU kernels

  /** The inner loop of both kernels, four products at a time. */
  method DotCpu(a: seq<int>, i: nat, w: seq<int>, j: nat, K: nat) returns (s: int)
    requires i + K <= |a| && j + K <= |w|
    ensures s == I32(Dot(a, i, w, j, K))
  {
    s := 0;
    var k := 0;
    while k + 3 < K
      invariant k <= K && s == I32(Dot(a, i, w, j, k))
    {
      s := Accumulate(a, i, w, j, k, s);
      s := Accumulate(a, i, w, j, k + 1, s);
      s := Accumulate(a, i, w, j, k + 2, s);
      s := Accumulate(a, i, w, j, k + 3, s);
      k := k + 4;
    }
    while k < K
      invariant k <= K && s == I32(Dot(a, i, w, j, k))
    {
      s := Accumulate(a, i, w, j, k, s);
      k := k + 1;
    }
  }

  /** s += a[k] * w[k], in 32 bits */
  method Accumulate(a: seq<int>, i: nat, w: seq<int>, j: nat, k: nat, s: int) returns (r: int)
    requires i + k < |a| && j + k < |w| && s == I32(Dot(a, i, w, j, k))
    ensures r == I32(Dot(a, i, w, j, k + 1))
  {
    r := I32(s + a[i + k] * w[j + k]);
    I32Add(Dot(a, i, w, j, k), a[i + k] * w[j + k]);
  }

  ghost predicate Fits(o: Operands, K: nat, M: nat) {
    && o.N > 0
    && o.aoff + (o.N - 1) * o.ar + K <= |o.a|
    && (M > 0 ==> o.woff + (M - 1) * o.wr + K <= |o.w|)
  }

  /** The rows n0 .. n0 + nt of A are also in rows, from base on. */
  ghost predicate Copied(o: Operands, K: nat, n0: nat, nt: nat, rows: seq<int>, base: nat) {
    forall t :: 0 <= t < nt ==> CopiedRow(o, K, n0, rows, base, t)
  }

  ghost predicate CopiedRow(o: Operands, K: nat, n0: nat, rows: seq<int>, base: nat, t: nat) {
    base + t * o.ar + K <= |rows| && SameRow(rows, base + t * o.ar, o.a, o.aoff + (n0 + t) * o.ar, K)
  }

  /** One cell, from a row of A at i. */
  method StoreCell(o: Operands, acc: array<int>, K: nat, M: nat, m: nat, n: nat, rows: seq<int>, i: nat)
    requires Fits(o, K, M) && acc.Length == o.N * M && m < M && n < o.N
    requires i + K <= |rows| && SameRow(rows, i, o.a, o.aoff + n * o.ar, K)
    modifies acc
    ensures forall j :: 0 <= j < acc.Length ==>
      acc[j] == if RowOf(o.N, j) == m && ColOf(o.N, j) == n then Cell(o, K, j) else old(acc[j])
  {
    Parts(m, o.N, n, M);
    Below(m, M - 1, o.wr);
    var s := DotCpu(rows, i, o.w, o.woff + m * o.wr, K);
    DotSame(rows, i, o.a, o.aoff + n * o.ar, o.w, o.woff + m * o.wr, K);
    OneCell(o.N, m * o.N + n);
    acc[m * o.N + n] := s;
  }

  /** One weight row m over the rows n0 .. n0 + nt of A, which start at base in rows, o.ar apart. */
  method GemmRow(o: Operands, acc: array<int>, K: nat, M: nat, m: nat, n0: nat, nt: nat, rows: seq<int>, base: nat)
    requires Fits(o, K, M) && acc.Length == o.N * M && m < M && n0 + nt <= o.N && Copied(o, K, n0, nt, rows, base)
    modifies acc
    ensures forall i :: 0 <= i < acc.Length ==>
      acc[i] == if RowOf(o.N, i) == m && n0 <= ColOf(o.N, i) < n0 + nt then Cell(o, K, i) else old(acc[i])
  {
    var t := 0;
    while t < nt
      invariant t <= nt
      invariant forall i :: 0 <= i < acc.Length ==>
        acc[i] == if RowOf(o.N, i) == m && n0 <= ColOf(o.N, i) < n0 + t then Cell(o, K, i) else old(acc[i])
    {
      assert CopiedRow(o, K, n0, rows, base, t);
      StoreCell(o, acc, K, M, m, n0 + t, rows, base + t * o.ar);
      t := t + 1;
    }
  }

  /** A is a copy of itself. */
  lemma CopiedSelf(o: Operands, K: nat, M: nat, n0: nat, nt: nat)
    requires Fits(o, K, M) && n0 + nt <= o.N
    ensures Copied(o, K, n0, nt, o.a, o.aoff + n0 * o.ar)
  {
    var base := o.aoff + n0 * o.ar;
    forall t | 0 <= t < nt ensures CopiedRow(o, K, n0, o.a, base, t) {
      Below(n0 + t, o.N - 1, o.ar);
      assert (n0 + t) * o.ar == n0 * o.ar + t * o.ar;
    }
  }

  /** gemm_i32_cpu */
  method GemmCpu(o: Operands, acc: array<int>, K: nat, M: nat)
    requires (o.N > 0 ==> Fits(o, K, M)) && acc.Length == o.N * M
    modifies acc
    ensures o.N > 0 ==> IsProduct(acc[..], o, K)
  {
    if o.N == 0 { return; }                // no column, nothing to do in any row
    CopiedSelf(o, K, M, 0, o.N);
    GemmTile(o, acc, K, M, 0, o.N, o.a, o.aoff);
  }

  /** All weight rows over the rows n0 .. n0 + nt of A. */
  method GemmTile(o: Operands, acc: array<int>, K: nat, M: nat, n0: nat, nt: nat, rows: seq<int>, base: nat)
    requires Fits(o, K, M) && acc.Length == o.N * M && n0 + nt <= o.N && Copied(o, K, n0, nt, rows, base)
    modifies acc
    ensures forall i :: 0 <= i < acc.Length ==>
      acc[i] == if n0 <= ColOf(o.N, i) < n0 + nt then Cell(o, K, i) else old(acc[i])
  {
    var m := 0;
    while m < M
      invariant m <= M
      invariant forall i :: 0 <= i < acc.Length ==>
        acc[i] == if RowOf(o.N, i) < m && n0 <= ColOf(o.N, i) < n0 + nt then Cell(o, K, i) else old(acc[i])
    {
      GemmRow(o, acc, K, M, m, n0, nt, rows, base);
      m := m + 1;
    }
    RowsBelow(o.N, M);
  }

  lemma PlainFits(a: seq<int>, w: seq<int>, N: nat, K: nat, M: nat)
    requires N > 0 && |a| == N * K && |w| == M * K
    ensures Fits(Plain(a, w, N, K), K, M)
  {
    assert (N - 1) * K + K == N * K && (M - 1) * K + K == M * K;
  }

  /** The rows of a tile, in place and cut out. */
  lemma TileSlice(a: seq<int>, w: seq<int>, N: nat, K: nat, n0: nat, nt: nat)
    requires N > 0 && |a| == N * K && n0 + nt <= N
    ensures n0 * K <= (n0 + nt) * K <= |a|
    ensures Copied(Plain(a, w, N, K), K, n0, nt, a, n0 * K)
    ensures Copied(Plain(a, w, N, K), K, n0, nt, a[n0 * K..(n0 + nt) * K], 0)
  {
    var o := Plain(a, w, N, K);
    Below(n0, n0 + nt, K);
    Below(n0 + nt, N, K);
    var p, c := n0 * K, a[n0 * K..(n0 + nt) * K];
    forall t | 0 <= t < nt ensures CopiedRow(o, K, n0, a, p, t) && CopiedRow(o, K, n0, c, 0, t) {
      TileRow(a, w, N, K, n0, nt, t);
    }
  }

  lemma TileRow(a: seq<int>, w: seq<int>, N: nat, K: nat, n0: nat, nt: nat, t: nat)
    requires N > 0 && |a| == N * K && n0 + nt <= N && t < nt && n0 * K <= (n0 + nt) * K <= |a|
    ensures CopiedRow(Plain(a, w, N, K), K, n0, a, n0 * K, t)
    ensures CopiedRow(Plain(a, w, N, K), K, n0, a[n0 * K..(n0 + nt) * K], 0, t)
  {
    var p, q := n0 * K, t * K;
    assert (n0 + t) * K == p + q;
    assert (n0 + nt) * K == p + nt * K;
    Below(t + 1, nt, K);
    var c := a[p..p + nt * K];
    assert c == a[n0 * K..(n0 + nt) * K];
    assert SameRow(c, q, a, p + q, K);
  }

  const SCRATCH: nat := 20480

  /** The elements of a from lo on, as many as there are asked for, into the scratch memory. */
  method Stage(a: seq<int>, lo: nat, n: nat, scratch: array<int>)
    requires lo + n <= |a| && n <= scratch.Length
    modifies scratch
    ensures scratch[..n] == a[lo..lo + n]
  {
    var i := 0;
    while i < n
      invariant i <= n && forall k :: 0 <= k < i ==> scratch[k] == a[lo + k]
    {
      scratch[i] := a[lo + i];
      i := i + 1;
    }
  }

  /** dav2_qgemm_cpu: tiles of as many rows as the scratch memory holds, copied there if they fit. */
  method QgemmCpu(a: seq<int>, w: seq<int>, acc: array<int>, N: nat, K: nat, M: nat, scratch: array<int>)
    requires K > 0 && |a| == N * K && |w| == M * K && acc.Length == N * M && scratch.Length == SCRATCH && scratch != acc
    modifies acc, scratch
    ensures N > 0 ==> IsProduct(acc[..], Plain(a, w, N, K), K)
  {
    ghost var o := Plain(a, w, N, K);
    if N > 0 { PlainFits(a, w, N, K, M); }
    var tile := SCRATCH / K;
    if tile < 1 { tile := 1; }
    var n0 := 0;
    while n0 < N
      invariant N > 0 ==> forall i :: 0 <= i < acc.Length && ColOf(N, i) < n0 ==> acc[i] == Cell(o, K, i)
    {
      var nt := if N - n0 > tile then tile else N - n0;
      TileSlice(a, w, N, K, n0, nt);
      if nt * K <= SCRATCH {
        assert (n0 + nt) * K == n0 * K + nt * K;
        Stage(a, n0 * K, nt * K, scratch);
        GemmTile(Plain(a, w, N, K), acc, K, M, n0, nt, scratch[..nt * K], 0);
      } else {
        GemmTile(Plain(a, w, N, K), acc, K, M, n0, nt, a, n0 * K);
      }
      n0 := n0 + tile;
    }
  }
}
