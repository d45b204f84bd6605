/** The linked list of CoreMark: one cell per list_head, one item per list_data. */
module CoreList {
  import opened StableRuns

  /** The 16 bits of a data16 field: upper byte the backup, bit 7 "cached", bits 0..6 the value. */
  type Word = x: nat | x < 0x10000

  class ListData {
    var data16: Word
    var idx: int

    constructor (d: Word, i: int)
      ensures data16 == d && idx == i
    {
      data16, idx := d, i;
    }
  }

  class ListHead {
    var next: ListHead?
    var info: ListData

    constructor (i: ListData)
      ensures info == i && next == null
    {
      next, info := null, i;
    }
  }

  /** What core_bench_state and core_bench_matrix answer for an item and the dtype they are passed. An item is
      computed at most once in a sort, so one arbitrary answer for each covers every behaviour of the two, whatever
      it depends on. */
  datatype Kernel = Kernel(state: (ListData, nat) -> Word, matrix: (ListData, nat) -> Word)

  /** The comparisons: cmp_complex, and cmp_idx without and with a results structure. */
  datatype Cmp = CmpComplex | CmpIdx | CmpIdxOnly

  predicate Cached(w: Word) { w / 128 % 2 == 1 }

  function Backup(w: Word): nat { w / 256 }

  /** The comparison has written the item: a cached value, or the regenerated low byte. */
  predicate DoneWord(cmp: Cmp, w: Word) {
    match cmp
    case CmpComplex => Cached(w)
    case CmpIdx => w % 256 == w / 256
    case CmpIdxOnly => true
  }

  ghost predicate Done(cmp: Cmp, d: ListData)
    reads d`data16
  {
    DoneWord(cmp, d.data16)
  }

  /** Bits 3..6 in both halves of a byte. */
  function Dtype(w: Word): nat { var low := w / 8 % 16; 16 * low + low }

  /** What the function chosen by bits 0..2 answers for item d with data w: a kernel, or the data themselves. */
  function Computed(kernel: Kernel, d: ListData, w: Word): Word {
    var dtype := Dtype(w);
    match w % 8
    case 0 => kernel.state(d, if dtype < 0x22 then 0x22 else dtype)
    case 1 => kernel.matrix(d, dtype)
    case _ => w
  }

  /** The value of an item: the cached one, or the low seven bits of what is computed. */
  function Value(kernel: Kernel, d: ListData, w: Word): (v: nat)
    ensures v < 128
  {
    if Cached(w) then w % 128 else Computed(kernel, d, w) % 128
  }

  /** The value an item is compared by. It stays the same when the item is written. */
  ghost function Key(cmp: Cmp, kernel: Kernel, d: ListData): int
    reads d`data16, d`idx
  {
    match cmp
    case CmpIdx => d.idx
    case CmpIdxOnly => d.idx
    case CmpComplex => Value(kernel, d, d.data16)
  }

  /** The word calc_func stores: the backup byte, the cached mark and the value. */
  function CachedWord(w: Word, v: int): (r: Word)
    requires 0 <= v < 128
    ensures Cached(r) && r % 128 == v && Backup(r) == Backup(w)
  {
    Backup(w) * 256 + 128 + v
  }

  /** The word cmp_idx stores: the backup byte in both halves. */
  function Regenerated(w: Word): (r: Word)
    ensures DoneWord(CmpIdx, r) && Backup(r) == Backup(w)
    ensures DoneWord(CmpIdx, w) ==> r == w
  {
    Backup(w) * 256 + Backup(w)
  }

  /** Writing an item is idempotent and leaves its key and backup byte alone. */
  twostate predicate Written(cmp: Cmp, kernel: Kernel, d: ListData)
    reads d`data16, d`idx
  {
    && Key(cmp, kernel, d) == old(Key(cmp, kernel, d)) && Done(cmp, d) && Backup(d.data16) == old(Backup(d.data16))
    && (old(Done(cmp, d)) ==> d.data16 == old(d.data16))
  }

  /** calc_func: the cached value, or the low seven bits of what the state or the matrix kernel or the item itself gives,
      which are cached. */
  method CalcFunc(d: ListData, kernel: Kernel) returns (v: int)
    modifies d`data16
    ensures v == Key(CmpComplex, kernel, d) && d.data16 % 128 == v && Written(CmpComplex, kernel, d)
    ensures var w, nibble := old(d.data16), old(d.data16) / 8 % 16;
      v == if Cached(w) || w % 8 >= 2 then w % 128
           else if w % 8 == 1 then kernel.matrix(d, 17 * nibble) % 128
           else kernel.state(d, if nibble < 2 then 34 else 17 * nibble) % 128
  {
    var data := d.data16;
    if Cached(data) {
      return data % 128;
    }
    var retval := Computed(kernel, d, data);
    retval := retval % 128;
    d.data16 := CachedWord(data, retval);
    return retval;
  }

  /** cmp_complex and cmp_idx. */
  method Compare(cmp: Cmp, kernel: Kernel, a: ListData, b: ListData) returns (c: int)
    modifies a`data16, b`data16
    ensures c == Key(cmp, kernel, a) - Key(cmp, kernel, b)
    ensures Written(cmp, kernel, a) && Written(cmp, kernel, b)
  {
    match cmp {
      case CmpComplex =>
        var val1 := CalcFunc(a, kernel);
        var val2 := CalcFunc(b, kernel);
        c := val1 - val2;
      case CmpIdx =>
        a.data16 := Regenerated(a.data16);
        b.data16 := Regenerated(b.data16);
        c := a.idx - b.idx;
      case CmpIdxOnly =>
        c := a.idx - b.idx;
    }
  }

  // ---------------------------------------------------------------- lists

  /** The cells of s follow each other; the last one points to end. */
  ghost predicate Chain(s: seq<ListHead>, end: ListHead?)
    reads (set n | n in s)`next
  {
    s != [] ==> s[0].next == (if |s| > 1 then s[1] else end) && Chain(s[1..], end)
  }

  /** The cells of s follow each other; the last one may point anywhere. */
  ghost predicate OpenChain(s: seq<ListHead>)
    reads (set n | n in s)`next
  {
    |s| > 1 ==> s[0].next == s[1] && OpenChain(s[1..])
  }

  function First(s: seq<ListHead>): ListHead? { if s == [] then null else s[0] }

  ghost predicate IsList(l: ListHead?, s: seq<ListHead>)
    reads (set n | n in s)`next
  {
    l == First(s) && Chain(s, null)
  }

  lemma {:induction false} ChainSnoc(s: seq<ListHead>, e: ListHead, end: ListHead?)
    requires Chain(s, e) && e.next == end
    ensures Chain(s + [e], end)
  {
    if s == [] {
      assert s + [e] == [e];
    } else {
      assert (s + [e])[1..] == s[1..] + [e];
      ChainSnoc(s[1..], e, end);
    }
  }

  lemma {:induction false} ChainSplits(a: seq<ListHead>, b: seq<ListHead>, end: ListHead?)
    requires Chain(a + b, end)
    ensures OpenChain(a) && Chain(b, end) && Chain(a, if b == [] then end else b[0])
  {
    if a == [] {
      assert a + b == b;
    } else {
      assert (a + b)[1..] == a[1..] + b;
      ChainSplits(a[1..], b, end);
    }
  }

  // ---------------------------------------------------------------- merge sort

  /** What a sort works on: its cells and items, the key and backup byte of each cell's item, and the
      cells' places in the list that is sorted. */
  datatype Context = Context(cmp: Cmp, kernel: Kernel, cells: multiset<ListHead>, items: set<ListData>,
                             key: map<ListHead, int>, hi: map<ListHead, int>, pos: map<ListHead, int>)
  {
    ghost predicate WellFormed()
      reads (set n | n in cells)`info
    {
      forall n :: n in cells ==> cells[n] == 1 && n.info in items && n in key && n in hi && n in pos
    }

    /** Every cell's item has its key and backup byte, and was compared if the cell is in t. */
    ghost predicate Items(t: set<ListHead>)
      reads (set n | n in cells)`info, (set n | n in cells :: n.info)`data16, (set n | n in cells :: n.info)`idx
    {
      forall n :: n in cells && n in key && n in hi ==>
        && Key(cmp, kernel, n.info) == key[n]
        && Backup(n.info.data16) == hi[n]
        && (n in t ==> Done(cmp, n.info))
    }
  }

  /** The merged list so far: list is its head, tail its last cell, which may point anywhere. */
  ghost predicate Merged(out: seq<ListHead>, list: ListHead?, tail: ListHead?)
    reads (set n | n in out)`next
  {
    list == First(out) &&
    if out == [] then tail == null else tail == out[|out|-1] && Chain(out[..|out|-1], tail)
  }

  ghost predicate Once(cells: multiset<ListHead>) {
    forall n :: n in cells ==> cells[n] == 1
  }

  lemma OnceApart(cells: multiset<ListHead>, a: seq<ListHead>, b: seq<ListHead>)
    requires Once(cells) && multiset(a) + multiset(b) <= cells
    ensures forall x :: x in a ==> x !in b && multiset(a)[x] == 1 && x in cells
  {
    forall x | x in a ensures x !in b && multiset(a)[x] == 1 && x in cells {
      assert x in multiset(a);
      assert multiset(a)[x] + multiset(b)[x] <= cells[x];
    }
  }

  /** Hang cell e behind the tail. No cell of p and q is touched. */
  method AddNext(e: ListHead, list: ListHead?, tail: ListHead?, ghost out: seq<ListHead>, ghost cells: multiset<ListHead>,
                 ghost p: seq<ListHead>, ghost q: seq<ListHead>)
      returns (list': ListHead?)
    requires Merged(out, list, tail) && Once(cells) && multiset(out) + multiset(p) + multiset(q) <= cells
    requires OpenChain(p) && Chain(q, null)
    modifies (set n | n in cells)`next
    ensures Merged(out + [e], list', e) && OpenChain(p) && Chain(q, null)
  {
    list' := list;
    assert (out + [e])[..|out|] == out;
    if tail != null {
      ghost var front := out[..|out|-1];
      assert out == front + [tail];
      OnceApart(cells, [tail], front);
      OnceApart(cells, [tail], p);
      OnceApart(cells, [tail], q);
      tail.next := e;
      ChainSnoc(front, tail, e);
    } else {
      list' := e;
    }
  }

  /** How the cells are linked while out + m is merged and P and the list Q are to come. */
  ghost predicate Links(c: Context, list: ListHead?, tail: ListHead?, m: seq<ListHead>, P: seq<ListHead>, Q: seq<ListHead>)
    reads (set n | n in m + (P + Q))`next
  {
    ( && Merged(m, list, tail) && OpenChain(P) && Chain(Q, null)
      && multiset(m) + multiset(P) + multiset(Q) == c.cells
    ) == true
  }

  lemma MoveHead(cells: multiset<ListHead>, m: seq<ListHead>, P: seq<ListHead>, Q: seq<ListHead>)
    requires P != [] && multiset(m) + multiset(P) + multiset(Q) == cells
    ensures multiset(m + [P[0]]) + multiset(P[1..]) + multiset(Q) == cells
    ensures multiset(m) + multiset(P[1..]) + multiset(Q) <= cells
    ensures P[0] in cells
  {
    assert P == [P[0]] + P[1..];
    assert P[0] in multiset(P);
  }

  method LinkFromP(p: ListHead, list: ListHead?, tail: ListHead?, ghost c: Context, ghost t: set<ListHead>,
                   ghost m: seq<ListHead>, ghost P: seq<ListHead>, ghost Q: seq<ListHead>)
      returns (list': ListHead?, p': ListHead?)
    requires Once(c.cells) && c.Items(t) && Links(c, list, tail, m, P, Q) && P != [] && p == P[0]
    modifies (set n | n in c.cells)`next
    ensures Links(c, list', p, m + [p], P[1..], Q) && (P[1..] != [] ==> p' == P[1])
    ensures c.Items(t)
  {
    hide Merged;
    MoveHead(c.cells, m, P, Q);
    p' := p.next;
    list' := AddNext(p, list, tail, m, c.cells, P[1..], Q);
  }

  method LinkFromQ(q: ListHead, list: ListHead?, tail: ListHead?, ghost c: Context, ghost t: set<ListHead>,
                   ghost m: seq<ListHead>, ghost P: seq<ListHead>, ghost Q: seq<ListHead>)
      returns (list': ListHead?, q': ListHead?)
    requires Once(c.cells) && c.Items(t) && Links(c, list, tail, m, P, Q) && Q != [] && q == Q[0]
    modifies (set n | n in c.cells)`next
    ensures Links(c, list', q, m + [q], P, Q[1..]) && q' == First(Q[1..])
    ensures c.Items(t)
  {
    hide Merged;
    MoveHead(c.cells, m, Q, P);
    q' := q.next;
    list' := AddNext(q, list, tail, m, c.cells, P, Q[1..]);
  }

  /** A merge under way: out is finished, m is merged, the run at p is P, the run at q is Q, R follows. */
  datatype Merge = Merge(out: seq<ListHead>, m: seq<ListHead>, P: seq<ListHead>, Q: seq<ListHead>, R: seq<ListHead>)
  {
    function Total(): multiset<ListHead> { multiset(m) + multiset(P) + multiset(Q) }
    function FromP(): Merge requires P != [] { this.(m := m + [P[0]], P := P[1..]) }
    function FromQ(): Merge requires Q != [] { this.(m := m + [Q[0]], Q := Q[1..]) }
  }

  ghost predicate MergeInv(c: Context, t: set<ListHead>, g: Merge, list: ListHead?, tail: ListHead?)
    reads (set n | n in c.cells)`info, (set n | n in c.cells :: n.info)`data16, (set n | n in c.cells :: n.info)`idx
    reads (set n | n in g.out + g.m + (g.P + (g.Q + g.R)))`next
  {
    ( && c.Items(t)
      && Links(c, list, tail, g.out + g.m, g.P, g.Q + g.R)
      && Merging(c.key, c.pos, t, g.m, g.P, g.Q) && (g.m != [] || g.P != [])
    ) == true  // kept whole in proofs
  }

  ghost predicate Cursors(g: Merge, p: ListHead?, q: ListHead?, psize: int, qsize: int) {
    ( && psize == |g.P| && (g.P != [] ==> p == g.P[0])
      && q == First(g.Q + g.R) && |g.Q| <= qsize && (|g.Q| == qsize || g.R == [])
    ) == true
  }

  method StepP(p: ListHead, list: ListHead?, tail: ListHead?, ghost c: Context, ghost t: set<ListHead>, ghost g: Merge)
      returns (list': ListHead?, p': ListHead?)
    requires c.WellFormed() && MergeInv(c, t, g, list, tail) && LeadsP(c.key, t, g.m, g.P, g.Q) && p == g.P[0]
    modifies (set n | n in c.cells)`next
    ensures c.WellFormed() && MergeInv(c, t, g.FromP(), list', p) && g.FromP().Total() == g.Total()
    ensures |g.P| > 1 ==> p' == g.P[1]
  {
    Shift(g.out, g.m, g.P, [], g.Q);
    TakeP(c.key, c.pos, t, g.m, g.P, g.Q);
    list', p' := LinkFromP(p, list, tail, c, t, g.out + g.m, g.P, g.Q + g.R);
  }

  method StepQ(q: ListHead, list: ListHead?, tail: ListHead?, ghost c: Context, ghost t: set<ListHead>, ghost g: Merge)
      returns (list': ListHead?, q': ListHead?)
    requires c.WellFormed() && MergeInv(c, t, g, list, tail) && LeadsQ(c.key, t, g.m, g.P, g.Q) && q == g.Q[0]
    modifies (set n | n in c.cells)`next
    ensures c.WellFormed() && MergeInv(c, t, g.FromQ(), list', q) && g.FromQ().Total() == g.Total()
    ensures q' == First(g.Q[1..] + g.R)
  {
    Shift(g.out, g.m, g.Q, g.R, g.P);
    TakeQ(c.key, c.pos, t, g.m, g.P, g.Q);
    list', q' := LinkFromQ(q, list, tail, c, t, g.out + g.m, g.P, g.Q + g.R);
  }

  /** What comparing the two heads does to a merge: nothing but that they are compared. */
  lemma HeadsMerging(c: Context, t: set<ListHead>, g: Merge, list: ListHead?, tail: ListHead?, p: ListHead, q: ListHead, r: int)
    requires MergeInv(c, t, g, list, tail) && g.P != [] && g.Q != [] && p == g.P[0] && q == g.Q[0]
    requires p in c.key && q in c.key && r == c.key[p] - c.key[q]
    ensures c.Items(t) && Merging(c.key, c.pos, t + {p, q}, g.m, g.P, g.Q) && Links(c, list, tail, g.out + g.m, g.P, g.Q + g.R)
    ensures if r <= 0 then LeadsP(c.key, t + {p, q}, g.m, g.P, g.Q) else LeadsQ(c.key, t + {p, q}, g.m, g.P, g.Q)
  {
    HeadsCompared(c.key, c.pos, t, g.m, g.P, g.Q);
  }

  lemma MergeJoin(c: Context, t: set<ListHead>, g: Merge, list: ListHead?, tail: ListHead?)
    requires c.Items(t) && Links(c, list, tail, g.out + g.m, g.P, g.Q + g.R)
    requires Merging(c.key, c.pos, t, g.m, g.P, g.Q) && g.P != []
    ensures MergeInv(c, t, g, list, tail)
  {}

  /** Compare the items of two cells. The links do not depend on the items. */
  method CompareCells(p: ListHead, q: ListHead, cmp: Cmp, kernel: Kernel, ghost c: Context, ghost t: set<ListHead>,
                      ghost list: ListHead?, ghost tail: ListHead?, ghost m: seq<ListHead>, ghost P: seq<ListHead>, ghost Q: seq<ListHead>)
      returns (r: int)
    requires c.cmp == cmp && c.kernel == kernel && c.WellFormed() && c.Items(t) && p in c.cells && q in c.cells
    requires Links(c, list, tail, m, P, Q)
    modifies c.items`data16
    ensures c.WellFormed() && c.Items(t + {p, q}) && r == c.key[p] - c.key[q]
    ensures Links(c, list, tail, m, P, Q)
  {
    hide Links;
    r := Compare(cmp, kernel, p.info, q.info);
  }

  method CompareHeads(p: ListHead, q: ListHead, cmp: Cmp, kernel: Kernel,
                      ghost c: Context, ghost t: set<ListHead>, ghost g: Merge, ghost list: ListHead?, ghost tail: ListHead?)
      returns (r: int, ghost t': set<ListHead>)
    requires c.cmp == cmp && c.kernel == kernel && c.WellFormed() && MergeInv(c, t, g, list, tail)
    requires g.P != [] && g.Q != [] && p == g.P[0] && q == g.Q[0] && p in c.cells && q in c.cells
    modifies c.items`data16
    ensures c.WellFormed() && MergeInv(c, t', g, list, tail) && t <= t'
    ensures if r <= 0 then LeadsP(c.key, t', g.m, g.P, g.Q) else LeadsQ(c.key, t', g.m, g.P, g.Q)
  {
    hide Links, Merging, LeadsP, LeadsQ, MergeInv, Context.Items;
    HeadsMerging(c, t, g, list, tail, p, q, c.key[p] - c.key[q]);
    r := CompareCells(p, q, cmp, kernel, c, t, list, tail, g.out + g.m, g.P, g.Q + g.R);
    t' := t + {p, q};
    MergeJoin(c, t', g, list, tail);
  }

  /** From which of the two runs the merge goes on. */
  method Choose(p: ListHead?, q: ListHead?, psize: int, qsize: int, cmp: Cmp, kernel: Kernel,
                ghost c: Context, ghost t: set<ListHead>, ghost g: Merge, ghost list: ListHead?, ghost tail: ListHead?)
      returns (fromP: bool, ghost t': set<ListHead>)
    requires c.cmp == cmp && c.kernel == kernel && c.WellFormed() && MergeInv(c, t, g, list, tail)
    requires Cursors(g, p, q, psize, qsize) && (psize > 0 || (qsize > 0 && q != null))
    modifies c.items`data16
    ensures c.WellFormed() && MergeInv(c, t', g, list, tail) && t <= t'
    ensures if fromP then LeadsP(c.key, t', g.m, g.P, g.Q) else LeadsQ(c.key, t', g.m, g.P, g.Q)
  {
    InCells(c.cells, g.out + g.m, g.P, g.Q + g.R);
    t' := t;
    if psize == 0 {
      fromP := false;                                   // nothing left of P
    } else if qsize == 0 || q == null {
      fromP := true;                                    // nothing left of Q
    } else {
      var r;
      r, t' := CompareHeads(p, q, cmp, kernel, c, t, g, list, tail);
      fromP := r <= 0;                                  // ties go to P: stability
    }
  }

  lemma NextCursors(g: Merge, p: ListHead?, q: ListHead?, psize: int, qsize: int)
    requires Cursors(g, p, q, psize, qsize)
    ensures g.P != [] ==> Cursors(g.FromP(), if |g.P| > 1 then g.P[1] else null, q, psize - 1, qsize)
    ensures g.Q != [] ==> Cursors(g.FromQ(), p, First(g.Q[1..] + g.R), psize, qsize - 1)
    ensures (g.P != [] ==> p == g.P[0]) && (g.Q != [] ==> q == g.Q[0])
  {}

  lemma Ends(g: Merge, g0: Merge, p: ListHead?, q: ListHead?, psize: int, qsize: int)
    requires Cursors(g, p, q, psize, qsize) && !(psize > 0 || (qsize > 0 && q != null))
    requires g.Total() == g0.Total() && g0.m == []
    ensures g.P == [] && g.Q == [] && g.Q + g.R == g.R
    ensures multiset(g.m) == multiset(g0.P) + multiset(g0.Q)
  {
    assert g.P == [] && g.Q == [];
    assert g.Total() == multiset(g.m) && g0.Total() == multiset(g0.P) + multiset(g0.Q);
  }

  /** One round of the merge loop. */
  method MergeStep(p0: ListHead?, q0: ListHead?, psize0: int, qsize0: int, list0: ListHead?, tail0: ListHead?,
                   cmp: Cmp, kernel: Kernel, ghost c: Context, ghost t0: set<ListHead>, ghost g0: Merge)
      returns (p: ListHead?, q: ListHead?, psize: int, qsize: int, list: ListHead?, tail: ListHead?,
               ghost t: set<ListHead>, ghost g: Merge)
    requires c.cmp == cmp && c.kernel == kernel && c.WellFormed()
    requires MergeInv(c, t0, g0, list0, tail0) && Cursors(g0, p0, q0, psize0, qsize0)
    requires psize0 > 0 || (qsize0 > 0 && q0 != null)
    modifies (set n | n in c.cells)`next, c.items`data16
    ensures c.WellFormed() && MergeInv(c, t, g, list, tail) && Cursors(g, p, q, psize, qsize)
    ensures t0 <= t && g.Total() == g0.Total() && g.out == g0.out && g.R == g0.R && |g.P| + |g.Q| < |g0.P| + |g0.Q|
  {
    p, q, psize, qsize := p0, q0, psize0, qsize0;
    var fromP;
    fromP, t := Choose(p, q, psize, qsize, cmp, kernel, c, t0, g0, list0, tail0);
    NextCursors(g0, p, q, psize, qsize);
    if fromP {
      tail := p;
      list, p := StepP(p, list0, tail0, c, t, g0);
      psize := psize - 1;
      g := g0.FromP();
    } else {
      tail := q;
      list, q := StepQ(q, list0, tail0, c, t, g0);
      qsize := qsize - 1;
      g := g0.FromQ();
    }
  }

  /** Merge the run of psize cells at p with the run of at most insize cells at q. */
  method MergeRuns(p0: ListHead, q0: ListHead?, psize0: int, insize: int, list0: ListHead?, tail0: ListHead?,
                   cmp: Cmp, kernel: Kernel, ghost c: Context, ghost t0: set<ListHead>, ghost g0: Merge)
      returns (list: ListHead?, tail: ListHead?, q: ListHead?, ghost t: set<ListHead>, ghost m: seq<ListHead>)
    requires c.cmp == cmp && c.kernel == kernel && c.WellFormed()
    requires MergeInv(c, t0, g0, list0, tail0) && Cursors(g0, p0, q0, psize0, insize) && g0.m == []
    modifies (set n | n in c.cells)`next, c.items`data16
    ensures c.WellFormed() && c.Items(t) && t0 <= t
    ensures Links(c, list, tail, g0.out + m, [], g0.R) && q == First(g0.R)
    ensures multiset(m) == multiset(g0.P) + multiset(g0.Q)
    ensures Run(c.key, c.pos, t, m)
  {
    list, tail, q, t := list0, tail0, q0, t0;
    var p: ListHead? := p0;
    var psize, qsize := psize0, insize;
    ghost var g := g0;
    while psize > 0 || (qsize > 0 && q != null)
      invariant c.WellFormed() && MergeInv(c, t, g, list, tail) && Cursors(g, p, q, psize, qsize)
      invariant t0 <= t && g.Total() == g0.Total() && g.out == g0.out && g.R == g0.R
      decreases |g.P| + |g.Q|
    {
      p, q, psize, qsize, list, tail, t, g := MergeStep(p, q, psize, qsize, list, tail, cmp, kernel, c, t, g);
    }
    m := g.m;
    Ends(g, g0, p, q, psize, qsize);
    MergingEnds(c.key, c.pos, t, m);
  }

  lemma Shift(out: seq<ListHead>, m: seq<ListHead>, P: seq<ListHead>, R: seq<ListHead>, Z: seq<ListHead>)
    requires P != []
    ensures out + (m + [P[0]]) == out + m + [P[0]]
    ensures (P + R)[0] == P[0] && (P + R)[1..] == P[1..] + R
    ensures multiset(m + [P[0]]) + multiset(P[1..]) + multiset(Z) == multiset(m) + multiset(P) + multiset(Z)
    ensures multiset(m + [P[0]]) + multiset(Z) + multiset(P[1..]) == multiset(m) + multiset(Z) + multiset(P)
    ensures P[1..] != [] ==> P[1] == P[1..][0]
  {
    assert P == [P[0]] + P[1..];
  }

  lemma InCells(cells: multiset<ListHead>, m: seq<ListHead>, P: seq<ListHead>, Q: seq<ListHead>)
    requires multiset(m) + multiset(P) + multiset(Q) == cells
    ensures (P != [] ==> P[0] in cells) && (Q != [] ==> Q[0] in cells)
  {
    assert P != [] ==> P[0] in multiset(P);
    assert Q != [] ==> Q[0] in multiset(Q);
  }

  // ---------------------------------------------------------------- passes

  /** Count up to insize cells from p on; q is the cell behind them. */
  method StepAlong(p: ListHead, insize: int, ghost rest: seq<ListHead>) returns (q: ListHead?, psize: int)
    requires insize > 0 && rest != [] && p == rest[0] && Chain(rest, null)
    ensures psize == Least(|rest|, insize)
    ensures q == First(rest[psize..])
  {
    q := p;
    psize := 0;
    var i := 0;
    while i < insize
      invariant 0 <= i <= insize && psize == i && i <= |rest|
      invariant q == First(rest[i..]) && Chain(rest[i..], null)
      invariant i < |rest|
    {
      psize := psize + 1;
      assert rest[i..][1..] == rest[i+1..];
      q := q.next;
      if q == null {
        return;
      }
      i := i + 1;
    }
  }

  function Least(a: int, b: int): int { if a < b then a else b }

  /** The merge that a pass does next: the first two runs of rest. */
  ghost function NextMerge(out: seq<ListHead>, rest: seq<ListHead>, k: nat): Merge {
    var after := rest[Least(|rest|, k)..];
    Merge(out, [], rest[..Least(|rest|, k)], after[..Least(|after|, k)], after[Least(|after|, k)..])
  }

  ghost predicate InPass(c: Context, t: set<ListHead>, list: ListHead?, tail: ListHead?,
                         out: seq<ListHead>, rest: seq<ListHead>, k: nat, nmerges: int)
    reads (set n | n in c.cells)`info, (set n | n in c.cells :: n.info)`data16, (set n | n in c.cells :: n.info)`idx
    reads (set n | n in out + rest)`next
  {
    ( && c.Items(t) && Merged(out, list, tail) && Chain(rest, null) && multiset(out) + multiset(rest) == c.cells
      && Passing(c.key, c.pos, t, out, rest, k, nmerges)
    ) == true
  }

  lemma NextMergeIs(c: Context, t: set<ListHead>, out: seq<ListHead>, rest: seq<ListHead>, k: nat, nmerges: int)
    requires Passing(c.key, c.pos, t, out, rest, k, nmerges) && k > 0 && rest != []
    ensures var g := NextMerge(out, rest, k);
      && rest == g.P + (g.Q + g.R) && g.P != [] && |g.P| == Least(|rest|, k) && |g.Q| == Least(|g.Q + g.R|, k)
      && g.Q + g.R == rest[Least(|rest|, k)..] && g.out == out && g.m == []
      && Merging(c.key, c.pos, t, [], g.P, g.Q)
  {
    var g := NextMerge(out, rest, k);
    var after := rest[Least(|rest|, k)..];
    assert g.Q + g.R == after && rest == g.P + after;
    SplitRuns(c.key, c.pos, t, rest, k, g.P, g.Q, g.R);
    MergingStarts(c.key, c.pos, t, g.P, g.Q);
  }

  lemma MergeBegins(c: Context, t: set<ListHead>, list: ListHead?, tail: ListHead?,
                    out: seq<ListHead>, rest: seq<ListHead>, k: nat, nmerges: int, g: Merge)
    requires InPass(c, t, list, tail, out, rest, k, nmerges) && k > 0 && rest != [] && g == NextMerge(out, rest, k)
    ensures MergeInv(c, t, g, list, tail) && g.m == [] && |g.R| < |rest|
    ensures Cursors(g, rest[0], First(rest[Least(|rest|, k)..]), Least(|rest|, k), k)
  {
    hide InPass, Passing, Merged, Merging, Chain, OpenChain, NextMerge, MergeInv, Cursors;
    InPassParts(c, t, list, tail, out, rest, k, nmerges);
    NextMergeIs(c, t, out, rest, k, nmerges);
    ChainSplits(g.P, g.Q + g.R, null);
    MergeStarts(c, t, list, tail, out, rest, g);
    CursorsStart(g, rest, k);
  }

  lemma InPassParts(c: Context, t: set<ListHead>, list: ListHead?, tail: ListHead?,
                    out: seq<ListHead>, rest: seq<ListHead>, k: nat, nmerges: int)
    requires InPass(c, t, list, tail, out, rest, k, nmerges)
    ensures c.Items(t) && Merged(out, list, tail) && Chain(rest, null) && multiset(out) + multiset(rest) == c.cells
    ensures Passing(c.key, c.pos, t, out, rest, k, nmerges)
  {}

  lemma MergeStarts(c: Context, t: set<ListHead>, list: ListHead?, tail: ListHead?,
                    out: seq<ListHead>, rest: seq<ListHead>, g: Merge)
    requires c.Items(t) && Merged(out, list, tail) && OpenChain(g.P) && Chain(g.Q + g.R, null) && g.out == out && g.m == [] && g.P != []
    requires rest == g.P + (g.Q + g.R) && multiset(out) + multiset(rest) == c.cells && Merging(c.key, c.pos, t, [], g.P, g.Q)
    ensures MergeInv(c, t, g, list, tail)
  {
    hide Merged, Merging, Chain, OpenChain;
    assert out + [] == out;
  }

  lemma CursorsStart(g: Merge, rest: seq<ListHead>, k: nat)
    requires rest == g.P + (g.Q + g.R) && g.P != [] && |g.P| == Least(|rest|, k) && |g.Q| == Least(|g.Q + g.R|, k)
    requires g.Q + g.R == rest[Least(|rest|, k)..]
    ensures Cursors(g, rest[0], First(rest[Least(|rest|, k)..]), Least(|rest|, k), k)
  {
    if |g.Q| < k { assert |g.R| == 0; }
  }

  lemma MergeEnded(c: Context, t0: set<ListHead>, t: set<ListHead>, list: ListHead?, tail: ListHead?,
                   out: seq<ListHead>, rest: seq<ListHead>, k: nat, nmerges: int, m: seq<ListHead>)
    requires Passing(c.key, c.pos, t0, out, rest, k, nmerges) && k > 0 && rest != []
    requires c.Items(t) && t0 <= t && Run(c.key, c.pos, t, m)
    requires var g := NextMerge(out, rest, k);
      Links(c, list, tail, out + m, [], g.R) && multiset(m) == multiset(g.P) + multiset(g.Q)
    ensures InPass(c, t, list, tail, out + m, NextMerge(out, rest, k).R, k, nmerges + 1)
  {
    var g := NextMerge(out, rest, k);
    NextMergeIs(c, t0, out, rest, k, nmerges);
    PassStep(c.key, c.pos, t0, t, out, k, nmerges, g.P, g.Q, g.R, m);
  }

  /** Merge the next two runs of a pass. */
  method MergePair(p: ListHead, insize: int, list0: ListHead?, tail0: ListHead?, cmp: Cmp, kernel: Kernel,
                   ghost c: Context, ghost t0: set<ListHead>, ghost out: seq<ListHead>, ghost rest: seq<ListHead>, ghost nmerges: int)
      returns (list: ListHead?, tail: ListHead?, q: ListHead?, ghost t: set<ListHead>, ghost m: seq<ListHead>, ghost rest': seq<ListHead>)
    requires c.cmp == cmp && c.kernel == kernel && c.WellFormed() && insize > 0
    requires InPass(c, t0, list0, tail0, out, rest, insize, nmerges) && rest != [] && p == rest[0]
    modifies (set n | n in c.cells)`next, c.items`data16
    ensures c.WellFormed() && InPass(c, t, list, tail, out + m, rest', insize, nmerges + 1)
    ensures q == First(rest') && |rest'| < |rest|
  {
    hide Passing, Run;
    var psize;
    q, psize := StepAlong(p, insize, rest);
    ghost var g := NextMerge(out, rest, insize);
    MergeBegins(c, t0, list0, tail0, out, rest, insize, nmerges, g);
    list, tail, q, t, m := MergeRuns(p, q, psize, insize, list0, tail0, cmp, kernel, c, t0, g);
    rest' := g.R;
    MergeEnded(c, t0, t, list, tail, out, rest, insize, nmerges, m);
  }

  /** One pass over the list: runs of insize become runs of twice that. */
  method Pass(list0: ListHead, insize: int, cmp: Cmp, kernel: Kernel,
              ghost c: Context, ghost t0: set<ListHead>, ghost s: seq<ListHead>)
      returns (list: ListHead?, nmerges: int, ghost t: set<ListHead>, ghost out: seq<ListHead>)
    requires c.cmp == cmp && c.kernel == kernel && c.WellFormed() && insize > 0
    requires c.Items(t0) && IsList(list0, s) && s != [] && multiset(s) == c.cells && Runs(c.key, c.pos, t0, s, insize)
    modifies (set n | n in c.cells)`next, c.items`data16
    ensures c.WellFormed() && c.Items(t) && IsList(list, out) && multiset(out) == c.cells
    ensures Runs(c.key, c.pos, t, out, 2 * insize)
    ensures nmerges <= 1 ==> Run(c.key, c.pos, t, out)
    ensures nmerges > 1 ==> |out| > 2 * insize
  {
    var p: ListHead?, tail: ListHead? := list0, null;
    list, nmerges, t, out := null, 0, t0, [];
    ghost var rest := s;
    PassBegins(c, t, s, insize);
    while p != null
      invariant c.WellFormed() && InPass(c, t, list, tail, out, rest, insize, nmerges) && p == First(rest)
      decreases |rest|
    {
      ghost var m, rest';
      list, tail, p, t, m, rest' := MergePair(p, insize, list, tail, cmp, kernel, c, t, out, rest, nmerges);
      nmerges := nmerges + 1;
      out, rest := out + m, rest';
    }
    PassEnded(c, t, list, tail, out, insize, nmerges);
    CloseList(list, tail, c, t, out);
  }

  /** tail->next = NULL */
  method CloseList(list: ListHead?, tail: ListHead, ghost c: Context, ghost t: set<ListHead>, ghost out: seq<ListHead>)
    requires c.WellFormed() && c.Items(t) && Merged(out, list, tail) && multiset(out) == c.cells
    modifies (set n | n in c.cells)`next
    ensures c.WellFormed() && c.Items(t) && IsList(list, out)
  {
    assert out == out[..|out|-1] + [tail];
    assert tail in multiset(out);
    OnceApart(c.cells, [tail], out[..|out|-1]);
    tail.next := null;
    ChainSnoc(out[..|out|-1], tail, null);
  }

  lemma PassBegins(c: Context, t: set<ListHead>, s: seq<ListHead>, k: nat)
    requires c.Items(t) && Chain(s, null) && multiset(s) == c.cells && Runs(c.key, c.pos, t, s, k)
    ensures InPass(c, t, null, null, [], s, k, 0)
  {}

  lemma PassEnded(c: Context, t: set<ListHead>, list: ListHead?, tail: ListHead?, out: seq<ListHead>, k: nat, nmerges: int)
    requires InPass(c, t, list, tail, out, [], k, nmerges) && c.cells != multiset{}
    ensures c.Items(t) && multiset(out) == c.cells && tail != null && Merged(out, list, tail)
    ensures Runs(c.key, c.pos, t, out, 2 * k) && (nmerges <= 1 ==> Run(c.key, c.pos, t, out)) && (nmerges > 1 ==> |out| > 2 * k)
  {}

  // ---------------------------------------------------------------- the sort

  function Place(s: seq<ListHead>, x: ListHead): nat {
    if s == [] || s[0] == x then 0 else 1 + Place(s[1..], x)
  }

  ghost predicate Distinct(s: seq<ListHead>) {
    forall i, j :: 0 <= i < j < |s| ==> s[i] != s[j]
  }

  lemma {:induction false} PlaceOf(s: seq<ListHead>, i: nat)
    requires i < |s| && Distinct(s)
    ensures Place(s, s[i]) == i
  {
    if i > 0 {
      assert s[i] == s[1..][i-1] && s[0] != s[i];
      PlaceOf(s[1..], i - 1);
    }
  }

  lemma {:induction false} DistinctOnce(s: seq<ListHead>)
    requires Distinct(s)
    ensures Once(multiset(s))
  {
    if s != [] {
      DistinctOnce(s[1..]);
      assert s == [s[0]] + s[1..];
      assert s[0] !in s[1..];
    }
  }

  ghost function ContextOf(cmp: Cmp, kernel: Kernel, s: seq<ListHead>): Context
    reads s, set n | n in s :: n.info
  {
    Context(cmp, kernel, multiset(s), set n | n in s :: n.info,
            map n | n in s :: Key(cmp, kernel, n.info), map n | n in s :: Backup(n.info.data16), map n | n in s :: Place(s, n))
  }

  lemma SortBegins(cmp: Cmp, kernel: Kernel, s: seq<ListHead>)
    requires Distinct(s)
    ensures var c := ContextOf(cmp, kernel, s);
      c.WellFormed() && c.Items({}) && Runs(c.key, c.pos, {}, s, 1)
  {
    var c := ContextOf(cmp, kernel, s);
    DistinctOnce(s);
    assert forall n :: n in c.cells <==> n in s;
    forall i, j | 0 <= i < j < |s| ensures c.pos[s[i]] < c.pos[s[j]] {
      PlaceOf(s, i);
      PlaceOf(s, j);
    }
    SingleRuns(c.key, c.pos, {}, s);
  }

  /** a comes no later than b in a stable sort of s. */
  ghost predicate InOrder(cmp: Cmp, kernel: Kernel, s: seq<ListHead>, a: ListHead, b: ListHead)
    reads a, a.info, b, b.info
  {
    Key(cmp, kernel, a.info) < Key(cmp, kernel, b.info) ||
    (Key(cmp, kernel, a.info) == Key(cmp, kernel, b.info) && Place(s, a) < Place(s, b))
  }

  lemma SortEnds(c: Context, t: set<ListHead>, s: seq<ListHead>, out: seq<ListHead>)
    requires c.Items(t) && Run(c.key, c.pos, t, out) && multiset(out) == c.cells == multiset(s)
    requires c.key.Keys == c.hi.Keys == c.pos.Keys == (set n | n in s) && forall n :: n in s ==> c.pos[n] == Place(s, n)
    ensures forall i, j :: 0 <= i < j < |out| ==> InOrder(c.cmp, c.kernel, s, out[i], out[j])
    ensures forall n :: n in s ==> Key(c.cmp, c.kernel, n.info) == c.key[n] && Backup(n.info.data16) == c.hi[n]
    ensures |s| > 1 ==> forall n :: n in s ==> Done(c.cmp, n.info)
  {
    hide Runs, Backup;
    SameMembers(s, out);
    forall n | n in s ensures n in c.cells { assert n in multiset(s); }
    forall i, j | 0 <= i < j < |out| ensures InOrder(c.cmp, c.kernel, s, out[i], out[j]) {
      SortedAt(c.key, c.pos, out, i, j);
      assert out[i] in s && out[j] in s;
    }
  }

  /** Passes over runs of 1, 2, 4, ... until one merge does it all. */
  method SortPasses(list0: ListHead, cmp: Cmp, kernel: Kernel, ghost c: Context, ghost s: seq<ListHead>)
      returns (list: ListHead?, ghost t: set<ListHead>, ghost out: seq<ListHead>)
    requires c.cmp == cmp && c.kernel == kernel && c.WellFormed() && c.Items({})
    requires IsList(list0, s) && s != [] && multiset(s) == c.cells && Runs(c.key, c.pos, {}, s, 1)
    modifies (set n | n in c.cells)`next, c.items`data16
    ensures c.Items(t) && IsList(list, out) && multiset(out) == c.cells && Run(c.key, c.pos, t, out)
  {
    var insize := 1;
    list, t, out := list0, {}, s;
    while true
      invariant c.WellFormed() && c.Items(t) && insize > 0
      invariant IsList(list, out) && out != [] && multiset(out) == c.cells && Runs(c.key, c.pos, t, out, insize)
      decreases |s| - insize
    {
      var nmerges;
      list, nmerges, t, out := Pass(list, insize, cmp, kernel, c, t, out);
      SameMembers(s, out);
      // one run is left
      if nmerges <= 1 {
        return;
      }
      insize := insize * 2;
    }
  }

  /** core_list_mergesort: the same cells, in place, stably sorted by the values they are compared by; in a
      list of two or more every item has been compared, so cmp_complex sorted by what the low seven
      bits now hold. */
  method Mergesort(list0: ListHead, cmp: Cmp, kernel: Kernel, ghost s: seq<ListHead>)
      returns (list: ListHead?, ghost out: seq<ListHead>)
    requires IsList(list0, s) && s != [] && Distinct(s)
    modifies (set n | n in s)`next, (set n | n in s :: n.info)`data16
    ensures IsList(list, out) && multiset(out) == multiset(s)
    ensures forall i, j :: 0 <= i < j < |out| ==> InOrder(cmp, kernel, s, out[i], out[j])
    ensures forall n :: n in s ==>
      Key(cmp, kernel, n.info) == old(Key(cmp, kernel, n.info)) && Backup(n.info.data16) == Backup(old(n.info.data16))
    ensures |s| > 1 ==> forall n :: n in s ==> Done(cmp, n.info)
  {
    hide Key, Done, InOrder, Run, Runs, Distinct, Backup, IsList;
    ghost var c := ContextOf(cmp, kernel, s);
    ghost var t;
    SortBegins(cmp, kernel, s);
    assert (set n | n in c.cells) == (set n | n in s);
    list, t, out := SortPasses(list0, cmp, kernel, c, s);
    SortEnds(c, t, s, out);
  }
}
