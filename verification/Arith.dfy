/** Rows of equal length laid out one after the other, and the few facts about products and quotients this needs. */
module Arith {

  function At(s: seq<int>, i: int): int { if 0 <= i < |s| then s[i] else 0 }

  /** Cell i = m * N + n belongs to row m, at place n. */
  function RowOf(N: nat, i: nat): nat
    requires N > 0
  {
    i / N
  }

  function ColOf(N: nat, i: nat): nat
    requires N > 0
  {
    i % N
  }

  /** m * N + n and its parts. */
  lemma Parts(m: nat, N: nat, n: nat, M: nat)
    requires n < N && m < M
    ensures RowOf(N, m * N + n) == m && ColOf(N, m * N + n) == n && m * N + n < N * M
  {
    var p := m * N;
    Below(m + 1, M, N);
    assert (m + 1) * N == p + N;
    DivUnique(p + n, N, m, n);
  }

  lemma DivUnique(x: int, N: int, q: int, r: int)
    requires N > 0 && x == q * N + r && 0 <= r < N
    ensures x / N == q && x % N == r
  {
    var p := x / N;
    if p < q { Below(p + 1, q, N); } else if q < p { Below(q + 1, p, N); }
  }

  lemma Below(a: int, b: int, c: int)
    requires a <= b && c >= 0
    ensures a * c <= b * c
  {}

  lemma RowsBelow(N: nat, M: nat)
    requires N > 0
    ensures forall i :: 0 <= i < N * M ==> RowOf(N, i) < M
  {
    forall i | 0 <= i < N * M ensures RowOf(N, i) < M {
      if i / N >= M { Below(M, i / N, N); }
    }
  }

  lemma OneCell(N: nat, c: nat)
    requires N > 0
    ensures forall i: nat :: RowOf(N, i) == RowOf(N, c) && ColOf(N, i) == ColOf(N, c) ==> i == c
  {}
}
