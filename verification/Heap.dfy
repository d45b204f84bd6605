/** malloc.c over headers in memory: two intrusive doubly linked rings through __malloc_head. */
module Heap {
  import opened HeapSpec
  import opened HeapLemmas
  import opened HeapTheorems
  import Words

  /** ARENA_TYPE_USED, ARENA_TYPE_FREE, ARENA_TYPE_HEAD */
  datatype Type = TypeUsed | TypeFree | TypeHead

  /** One field of every header in memory, by header address. */
  type Field = map<nat, nat>

  function At(m: Field, a: nat): nat { if a in m then m[a] else 0 }

  /** A ring through head: the addresses of r between two sights of head. */
  function Loop(head: nat, r: seq<nat>): seq<nat> { [head] + r + [head] }

  /** Neighbours on the list point at each other. */
  ghost predicate Linked(next: Field, prev: Field, c: seq<nat>) {
    |c| > 1 ==> At(next, c[0]) == c[1] && At(prev, c[1]) == c[0] && Linked(next, prev, c[1..])
  }

  ghost predicate LinkedAt(next: Field, prev: Field, c: seq<nat>) {
    forall i, j :: 0 <= i < |c| && j == i + 1 && j < |c| ==> At(next, c[i]) == c[j] && At(prev, c[j]) == c[i]
  }

  lemma {:induction false} LinkedIsLinkedAt(next: Field, prev: Field, c: seq<nat>)
    ensures Linked(next, prev, c) <==> LinkedAt(next, prev, c)
  {
    if |c| > 1 {
      LinkedIsLinkedAt(next, prev, c[1..]);
      forall i, j | 0 <= i < |c| && j == i + 1 && j < |c| && Linked(next, prev, c)
        ensures At(next, c[i]) == c[j] && At(prev, c[j]) == c[i]
      {
        if i > 0 { assert c[1..][i-1] == c[i] && c[1..][j-1] == c[j]; }
      }
      if LinkedAt(next, prev, c) {
        forall i, j | 0 <= i < |c[1..]| && j == i + 1 && j < |c[1..]|
          ensures At(next, c[1..][i]) == c[1..][j] && At(prev, c[1..][j]) == c[1..][i]
        {
          assert c[1..][i] == c[i+1] && c[1..][j] == c[j+1];
        }
      }
    }
  }

  /** Only head occurs twice on a loop, at its two ends. */
  lemma LoopOnce(head: nat, r: seq<nat>, i: nat, j: nat)
    requires Distinct(r) && head !in r && i < j < |r| + 2 && !(i == 0 && j == |r| + 1)
    ensures Loop(head, r)[i] != Loop(head, r)[j]
  {
    DistinctAt(r);
    assert j <= |r| ==> Loop(head, r)[j] == r[j-1];
    assert 0 < i ==> Loop(head, r)[i] == r[i-1];
  }

  /** Entry j is taken out by linking its neighbours. */
  lemma Unlinks(next: Field, prev: Field, head: nat, r: seq<nat>, j: nat)
    requires Linked(next, prev, Loop(head, r)) && Distinct(r) && head !in r && j < |r|
    ensures var ap, an := At(prev, r[j]), At(next, r[j]);
      Linked(next[ap := an], prev[an := ap], Loop(head, r[..j] + r[j+1..]))
  {
    var c, d := Loop(head, r), Loop(head, r[..j] + r[j+1..]);
    LinkedIsLinkedAt(next, prev, c);
    LinkedIsLinkedAt(next[c[j] := c[j+2]], prev[c[j+2] := c[j]], d);
    assert c[j+1] == r[j];
    assert At(next, c[j+1]) == c[j+2] && At(prev, c[j+1]) == c[j];
    forall i, k | 0 <= i < |d| && k == i + 1 && k < |d|
      ensures At(next[c[j] := c[j+2]], d[i]) == d[k] && At(prev[c[j+2] := c[j]], d[k]) == d[i]
    {
      assert d[i] == (if i <= j then c[i] else c[i+1]) && d[k] == if k <= j then c[k] else c[k+1];
      if i < j {
        LoopOnce(head, r, i, j);
        LoopOnce(head, r, k, j + 2);
      } else if i > j {
        LoopOnce(head, r, j, k);
        LoopOnce(head, r, j + 2, k + 1);
      }
    }
  }

  /** A new entry goes between entries j-1 and j. */
  lemma LinksIn(next: Field, prev: Field, head: nat, r: seq<nat>, j: nat, a: nat)
    requires Linked(next, prev, Loop(head, r)) && Distinct(r) && head !in r && j <= |r| && a != head && a !in r
    ensures var ap, an := Loop(head, r)[j], Loop(head, r)[j+1];
      Linked(next[a := an][ap := a], prev[a := ap][an := a], Loop(head, r[..j] + [a] + r[j..]))
  {
    hide Linked, Distinct;
    var c, d := Loop(head, r), Loop(head, r[..j] + [a] + r[j..]);
    LinkedIsLinkedAt(next, prev, c);
    LinkedIsLinkedAt(next[a := c[j+1]][c[j] := a], prev[a := c[j]][c[j+1] := a], d);
    assert forall i :: 0 <= i < |c| ==> c[i] != a;
    forall i, k | 0 <= i < |d| && k == i + 1 && k < |d|
      ensures At(next[a := c[j+1]][c[j] := a], d[i]) == d[k] && At(prev[a := c[j]][c[j+1] := a], d[k]) == d[i]
    {
      assert d[i] == (if i <= j then c[i] else if i == j + 1 then a else c[i-1]);
      assert d[k] == (if k <= j then c[k] else if k == j + 1 then a else c[k-1]);
      if i < j {
        LoopOnce(head, r, i, j);
        LoopOnce(head, r, k, j + 1);
      } else if i > j + 1 {
        LoopOnce(head, r, j, i - 1);
        LoopOnce(head, r, j + 1, k - 1);
      }
    }
  }

  /** Entry j gives its place to a. */
  lemma Relinks(next: Field, prev: Field, head: nat, r: seq<nat>, j: nat, a: nat)
    requires Linked(next, prev, Loop(head, r)) && Distinct(r) && head !in r && j < |r| && a != head && a !in r
    ensures var ap, an := At(prev, r[j]), At(next, r[j]);
      Linked(next[a := an][ap := a], prev[a := ap][an := a], Loop(head, r[j := a]))
  {
    var c, d := Loop(head, r), Loop(head, r[j := a]);
    LinkedIsLinkedAt(next, prev, c);
    LinkedIsLinkedAt(next[a := c[j+2]][c[j] := a], prev[a := c[j]][c[j+2] := a], d);
    assert c[j+1] == r[j];
    assert At(next, c[j+1]) == c[j+2] && At(prev, c[j+1]) == c[j];
    assert forall i :: 0 <= i < |c| ==> c[i] != a;
    forall i, k | 0 <= i < |d| && k == i + 1 && k < |d|
      ensures At(next[a := c[j+2]][c[j] := a], d[i]) == d[k] && At(prev[a := c[j]][c[j+2] := a], d[k]) == d[i]
    {
      assert d[i] == (if i == j + 1 then a else c[i]) && d[k] == if k == j + 1 then a else c[k];
      if i < j {
        LoopOnce(head, r, i, j);
        LoopOnce(head, r, k, j + 2);
      } else if i > j + 1 {
        LoopOnce(head, r, j, i);
        LoopOnce(head, r, j + 2, k);
      }
    }
  }

  // ---------------------------------------------------------------- the pool in memory

  ghost function Addrs(bs: seq<Block>): (r: seq<nat>)
    ensures |r| == |bs| && forall i :: 0 <= i < |bs| ==> r[i] == bs[i].addr
  {
    seq(|bs|, i requires 0 <= i < |bs| => bs[i].addr)
  }

  lemma AddrsDistinct(bs: seq<Block>)
    requires Sorted(bs) && Sized(bs)
    ensures Distinct(Addrs(bs))
  {
    DistinctAt(Addrs(bs));
    SortedAt(bs);
    forall i, j | 0 <= i < j < |bs| ensures bs[i].addr < bs[j].addr { assert bs[i] in bs; }
  }

  /** No header lies inside block b. */
  lemma NoHeaderInside(bs: seq<Block>, b: Block)
    requires Sorted(bs) && Sized(bs) && b in bs
    ensures forall a :: b.addr < a < b.End() ==> a !in Addrs(bs)
  {
    OtherAddresses(bs, b);
    forall a | b.addr < a < b.End() ensures a !in Addrs(bs) {
      forall j | 0 <= j < |bs| ensures bs[j].addr != a { assert bs[j] in bs; }
    }
  }

  /** head is a variable of its own, outside every block. */
  ghost predicate Outside(bs: seq<Block>, head: nat) {
    forall b :: b in bs ==> head < b.addr || b.End() <= head
  }

  lemma HeadNotIn(p: Pool, head: nat)
    requires Shape(p) && Outside(p.blocks, head)
    ensures head !in Addrs(p.blocks) && head !in p.ring
  {
    forall i | 0 <= i < |p.blocks| ensures p.blocks[i].addr != head { assert p.blocks[i] in p.blocks; }
  }

  type Types = map<nat, Type>

  predicate TypeIs(typ: Types, a: nat, t: Type) { a in typ && typ[a] == t }

  predicate DescribedBlock(typ: Types, size: Field, b: Block, busy: int) {
    At(size, b.addr) == b.size && (b.addr != busy ==> TypeIs(typ, b.addr, if b.free then TypeFree else TypeUsed))
  }

  /** The headers say what the blocks are; the type field of the block at address busy is not looked at. */
  ghost predicate Described(typ: Types, size: Field, bs: seq<Block>, busy: int) {
    bs != [] ==> DescribedBlock(typ, size, bs[0], busy) && Described(typ, size, bs[1..], busy)
  }

  lemma {:induction false} DescribedAt(typ: Types, size: Field, bs: seq<Block>, busy: int)
    ensures Described(typ, size, bs, busy) <==> forall b :: b in bs ==> DescribedBlock(typ, size, b, busy)
  {
    if bs != [] {
      assert bs == [bs[0]] + bs[1..];
      DescribedAt(typ, size, bs[1..], busy);
    }
  }

  lemma AddrsSplice(bs: seq<Block>, lo: nat, hi: nat, ys: seq<Block>)
    requires lo <= hi <= |bs|
    ensures Addrs(bs[..lo] + ys + bs[hi..]) == Addrs(bs)[..lo] + Addrs(ys) + Addrs(bs)[hi..]
  {}

  /** Block k is free and has n bytes to give. */
  ghost predicate Carving(p: Pool, k: nat, n: nat, head: nat) {
    match p case Pool(blocks, _) =>
      Inv(p) && Outside(blocks, head) && k < |blocks| && blocks[k].free && FREE_HDR <= n <= blocks[k].size
  }

  /** A new header inside block k is not where any other header is. */
  lemma SplitFresh(p: Pool, k: nat, n: nat, head: nat)
    requires Carving(p, k, n, head) && Splits(p.blocks[k], n)
    ensures var a := p.blocks[k].addr + n; a !in Addrs(p.blocks) && a !in p.ring && a != head
    ensures p.blocks[k].addr in p.ring
  {
    var b := p.blocks[k];
    assert b in p.blocks && FreeBlockAt(p.blocks, b.addr);
    NoHeaderInside(p.blocks, b);
  }

  /** Where the new header goes when block k is split. */
  lemma SplitAddrs(p: Pool, k: nat, n: nat)
    requires k < |p.blocks| && Splits(p.blocks[k], n)
    ensures var r := Addrs(p.blocks);
      Addrs(Carve(p, k, n).blocks) == r[..k+1] + [p.blocks[k].addr + n] + r[k+1..]
  {
    var b, r := p.blocks[k], Addrs(p.blocks);
    AddrsSplice(p.blocks, k, k + 1, Pieces(b, n));
    assert r[..k] + [b.addr, b.addr + n] + r[k+1..] == r[..k+1] + [b.addr + n] + r[k+1..];
  }

  lemma SplitPlaces(p: Pool, k: nat, n: nat, head: nat)
    requires Carving(p, k, n, head) && Splits(p.blocks[k], n)
    ensures var r, a := Addrs(p.blocks), p.blocks[k].addr + n;
      && Distinct(r) && head !in r && head !in p.ring && p.blocks[k].addr in p.ring && r[k] == p.blocks[k].addr
      && a !in r && a !in p.ring && a != head
      && Addrs(Carve(p, k, n).blocks) == r[..k+1] + [a] + r[k+1..]
  {
    SplitFresh(p, k, n, head);
    SplitAddrs(p, k, n);
    AddrsDistinct(p.blocks);
    HeadNotIn(p, head);
  }

  lemma WholePlaces(p: Pool, k: nat, n: nat, head: nat)
    requires Carving(p, k, n, head) && !Splits(p.blocks[k], n)
    ensures head !in p.ring && head != p.blocks[k].addr && p.blocks[k].addr in p.ring
    ensures Addrs(Carve(p, k, n).blocks) == Addrs(p.blocks)
  {
    hide Distinct;
    var b, r := p.blocks[k], Addrs(p.blocks);
    assert b in p.blocks && FreeBlockAt(p.blocks, b.addr);
    AddrsSplice(p.blocks, k, k + 1, Pieces(b, n));
    HeadNotIn(p, head);
    assert r[..k] + [b.addr] + r[k+1..] == r;
  }

  lemma SplitHeaders(bs: seq<Block>, b: Block, n: nat, cs: seq<Block>, typ: Types, size: Field)
    requires Described(typ, size, bs, -1) && n < b.size && n > 0
    requires forall c :: c in cs ==>
      c == Block(b.addr, n, false) || c == Block(b.addr + n, b.size - n, true) || (c in bs && !(b.addr <= c.addr < b.End()))
    ensures Described(typ[b.addr + n := TypeFree][b.addr := TypeUsed], size[b.addr + n := b.size - n][b.addr := n], cs, -1)
  {
    DescribedAt(typ, size, bs, -1);
    DescribedAt(typ[b.addr + n := TypeFree][b.addr := TypeUsed], size[b.addr + n := b.size - n][b.addr := n], cs, -1);
  }

  lemma SplitBlocks(p: Pool, k: nat, n: nat)
    requires Inv(p) && k < |p.blocks| && FREE_HDR <= n && Splits(p.blocks[k], n)
    ensures forall c :: c in Carve(p, k, n).blocks ==>
      var b := p.blocks[k];
      c == Block(b.addr, n, false) || c == Block(b.addr + n, b.size - n, true) || (c in p.blocks && !(b.addr <= c.addr < b.End()))
  {
    CarveBlocks(p, k, n);
    assert p.blocks[k] in p.blocks;
    OtherAddresses(p.blocks, p.blocks[k]);
  }

  /** A split: the headers at b and behind its first n bytes are written. */
  lemma SplitDescribed(p: Pool, k: nat, n: nat, typ: Types, size: Field)
    requires Inv(p) && k < |p.blocks| && FREE_HDR <= n && Splits(p.blocks[k], n)
    requires Described(typ, size, p.blocks, -1)
    ensures var b := p.blocks[k];
      Described(typ[b.addr + n := TypeFree][b.addr := TypeUsed], size[b.addr + n := b.size - n][b.addr := n], Carve(p, k, n).blocks, -1)
  {
    SplitBlocks(p, k, n);
    SplitHeaders(p.blocks, p.blocks[k], n, Carve(p, k, n).blocks, typ, size);
  }

  lemma WholeDescribed(p: Pool, k: nat, n: nat, typ: Types, size: Field)
    requires Inv(p) && k < |p.blocks| && FREE_HDR <= n <= p.blocks[k].size && !Splits(p.blocks[k], n)
    requires Described(typ, size, p.blocks, -1)
    ensures Described(typ[p.blocks[k].addr := TypeUsed], size, Carve(p, k, n).blocks, -1)
  {
    var b, q := p.blocks[k], Carve(p, k, n);
    var t := typ[b.addr := TypeUsed];
    assert b in p.blocks;
    CarveBlocks(p, k, n);
    OtherAddresses(p.blocks, b);
    DescribedAt(typ, size, p.blocks, -1);
    forall c | c in q.blocks ensures DescribedBlock(t, size, c, -1) {
      if c in p.blocks && c != b { assert DescribedBlock(typ, size, c, -1); }
    }
    DescribedAt(t, size, q.blocks, -1);
  }

  // ---------------------------------------------------------------- freeing

  lemma FuseAddrs(p: Pool, k: nat)
    requires Freeing(p, k) && JoinsPrev(p, k)
    ensures Addrs(JoinPrev(p, k).0.blocks) == Addrs(p.blocks)[..k] + Addrs(p.blocks)[k+1..]
  {
    var m := Block(p.blocks[k-1].addr, p.blocks[k-1].size + p.blocks[k].size, true);
    AddrsSplice(p.blocks, k - 1, k + 1, [m]);
    assert Addrs([m]) == [Addrs(p.blocks)[k-1]];
    assert Addrs(p.blocks)[..k-1] + [Addrs(p.blocks)[k-1]] == Addrs(p.blocks)[..k];
  }

  /** The header of the lower block takes the sum of the sizes. */
  lemma GrowHeader(bs: seq<Block>, c: Block, m: Block, cs: seq<Block>, typ: Types, size: Field, busy: int)
    requires Described(typ, size, bs, busy) && c in bs && c.free && c.addr != busy && m.free && m.addr == c.addr
    requires forall d :: d in cs ==> d == m || (d in bs && d.addr != c.addr && d.addr != busy)
    ensures Described(typ, size[c.addr := m.size], cs, -1)
  {
    DescribedAt(typ, size, bs, busy);
    DescribedAt(typ, size[c.addr := m.size], cs, -1);
  }

  lemma FuseDescribed(p: Pool, k: nat, typ: Types, size: Field, busy: nat)
    requires Freeing(p, k) && JoinsPrev(p, k) && Described(typ, size, p.blocks, busy) && busy == p.blocks[k].addr
    ensures Described(typ, size[p.blocks[k-1].addr := p.blocks[k-1].size + p.blocks[k].size], JoinPrev(p, k).0.blocks, -1)
  {
    var (q, i) := JoinPrev(p, k);
    JoinPrevBlocks(p, k);
    assert p.blocks[k-1] in p.blocks && p.blocks[k] in p.blocks;
    OtherAddresses(p.blocks, p.blocks[k-1]);
    OtherAddresses(p.blocks, p.blocks[k]);
    GrowHeader(p.blocks, p.blocks[k-1], q.blocks[i], q.blocks, typ, size, busy);
  }

  lemma RaiseAddrs(p: Pool, k: nat)
    requires k < |p.blocks| && !JoinsPrev(p, k)
    ensures Addrs(JoinPrev(p, k).0.blocks) == Addrs(p.blocks)
  {}

  lemma UsedNotInRing(p: Pool, k: nat)
    requires Freeing(p, k)
    ensures p.blocks[k].addr !in p.ring
  {
    assert p.blocks[k] in p.blocks;
    OtherAddresses(p.blocks, p.blocks[k]);
  }

  /** The header of the freed block changes its type. */
  lemma RaiseHeader(bs: seq<Block>, b: Block, cs: seq<Block>, typ: Types, size: Field)
    requires Described(typ, size, bs, b.addr) && b in bs
    requires forall d :: d in cs ==> d == b.(free := true) || (d in bs && d.addr != b.addr)
    ensures Described(typ[b.addr := TypeFree], size, cs, -1)
  {
    DescribedAt(typ, size, bs, b.addr);
    DescribedAt(typ[b.addr := TypeFree], size, cs, -1);
  }

  lemma RaiseDescribed(p: Pool, k: nat, typ: Types, size: Field)
    requires Freeing(p, k) && !JoinsPrev(p, k) && Described(typ, size, p.blocks, p.blocks[k].addr)
    ensures Described(typ[p.blocks[k].addr := TypeFree], size, JoinPrev(p, k).0.blocks, -1)
  {
    JoinPrevBlocks(p, k);
    assert p.blocks[k] in p.blocks;
    OtherAddresses(p.blocks, p.blocks[k]);
    RaiseHeader(p.blocks, p.blocks[k], JoinPrev(p, k).0.blocks, typ, size);
  }

  lemma JoinPrevReady(p: Pool, k: nat, head: nat)
    requires Freeing(p, k) && Outside(p.blocks, head)
    ensures var (q, i) := JoinPrev(p, k); Shape(q) && q.blocks[i].free && Outside(q.blocks, head)
  {
    JoinPrevBlocks(p, k);
    JoinPrevRing(p, k);
    assert p.blocks[k] in p.blocks && (k > 0 ==> p.blocks[k-1] in p.blocks);
  }

  lemma AbsorbAddrs(p: Pool, k: nat)
    requires Shape(p) && k + 1 < |p.blocks| && Touch(p.blocks[k], p.blocks[k+1])
    ensures Addrs(JoinNext(p, k).blocks) == Addrs(p.blocks)[..k+1] + Addrs(p.blocks)[k+2..]
    ensures p.blocks[k+1].addr in p.ring
  {
    var m := p.blocks[k].(size := p.blocks[k].size + p.blocks[k+1].size);
    AddrsSplice(p.blocks, k, k + 2, [m]);
    assert Addrs([m]) == [Addrs(p.blocks)[k]];
    assert Addrs(p.blocks)[..k] + [Addrs(p.blocks)[k]] == Addrs(p.blocks)[..k+1];
    assert p.blocks[k+1] in p.blocks && FreeBlockAt(p.blocks, p.blocks[k+1].addr);
  }

  lemma AbsorbDescribed(p: Pool, k: nat, typ: Types, size: Field)
    requires Shape(p) && k + 1 < |p.blocks| && Touch(p.blocks[k], p.blocks[k+1]) && Described(typ, size, p.blocks, -1)
    ensures Described(typ, size[p.blocks[k].addr := p.blocks[k].size + p.blocks[k+1].size], JoinNext(p, k).blocks, -1)
  {
    var b, q := p.blocks[k], JoinNext(p, k);
    JoinNextBlocks(p, k);
    assert b in p.blocks;
    OtherAddresses(p.blocks, b);
    GrowHeader(p.blocks, b, q.blocks[k], q.blocks, typ, size, -1);
  }

  lemma CarveOutside(p: Pool, k: nat, n: nat, head: nat)
    requires Inv(p) && k < |p.blocks| && FREE_HDR <= n <= p.blocks[k].size && Outside(p.blocks, head)
    ensures Outside(Carve(p, k, n).blocks, head)
  {
    CarveBlocks(p, k, n);
    assert p.blocks[k] in p.blocks;
  }

  lemma FreeBegins(p: Pool, ptr: nat, typ: Types, size: Field)
    requires Inv(p) && Live(p, ptr) && Described(typ, size, p.blocks, -1)
    ensures var k := IndexOf(p.blocks, ptr - HDR);
      Freeing(p, k) && p.blocks[k].addr == ptr - HDR && Described(typ, size, p.blocks, ptr - HDR)
  {
    var b :| b in p.blocks && !b.free && ptr == b.addr + HDR;
    IndexFinds(p.blocks, b);
    DescribedAt(typ, size, p.blocks, -1);
    DescribedAt(typ, size, p.blocks, ptr - HDR);
  }

  lemma FreeReady(p: Pool, k: nat, head: nat)
    requires Freeing(p, k) && Outside(p.blocks, head)
    ensures Inv(HeapSpec.FreeBlock(p, k)) && Outside(HeapSpec.FreeBlock(p, k).blocks, head)
  {
    FreeBlockInv(p, k);
    JoinPrevReady(p, k, head);
    var (q, i) := JoinPrev(p, k);
    if i + 1 < |q.blocks| && Touch(q.blocks[i], q.blocks[i+1]) {
      JoinNextBlocks(q, i);
      assert q.blocks[i] in q.blocks && q.blocks[i+1] in q.blocks;
    }
  }

  // ---------------------------------------------------------------- adding a region

  lemma NewHeaderDescribed(p: Pool, buf: nat, n: nat, typ: Types, size: Field)
    requires Inv(p) && FREE_HDR <= n && Clear(p, buf, n) && Described(typ, size, p.blocks, -1)
    ensures Described(typ[buf := TypeFree], size[buf := n], p.blocks, -1)
  {
    DescribedAt(typ, size, p.blocks, -1);
    DescribedAt(typ[buf := TypeFree], size[buf := n], p.blocks, -1);
  }

  lemma NotYet(bs: seq<Block>, k: nat, a: nat)
    requires 0 < k <= |bs| && a <= bs[k-1].addr
    ensures InsertPos(bs[..k], a) == InsertPos(bs[..k-1], a)
  {
    assert bs[..k][..k-1] == bs[..k-1];
  }

  lemma PlaceFound(bs: seq<Block>, k: nat, a: nat)
    requires k <= |bs| && (k > 0 ==> bs[k-1].addr < a)
    ensures InsertPos(bs[..k], a) == k
  {}

  lemma InsertFreeing(p: Pool, buf: nat, n: nat)
    requires Inv(p) && FREE_HDR <= n && Clear(p, buf, n)
    ensures var q, k := Inserted(p, buf, n), InsertPos(p.blocks, buf); Freeing(q, k) && q.blocks[k].addr == buf
  {
    InsertKeeps(p, buf, n);
  }

  lemma InsertPlaces(p: Pool, buf: nat, n: nat, head: nat)
    requires Inv(p) && FREE_HDR <= n && Clear(p, buf, n) && Outside(p.blocks, head) && (head < buf || buf + n <= head)
    ensures var r, k := Addrs(p.blocks), InsertPos(p.blocks, buf);
      && Distinct(r) && head !in r && buf !in r
      && Addrs(Inserted(p, buf, n).blocks) == r[..k] + [buf] + r[k..]
      && Outside(Inserted(p, buf, n).blocks, head)
  {
    AddrsDistinct(p.blocks);
    HeadNotIn(p, head);
    InsertAddrs(p, buf, n);
    InsertOutside(p, buf, n, head);
    forall i | 0 <= i < |p.blocks| ensures p.blocks[i].addr != buf { assert p.blocks[i] in p.blocks; }
  }

  lemma InsertAddrs(p: Pool, buf: nat, n: nat)
    ensures var r, k := Addrs(p.blocks), InsertPos(p.blocks, buf);
      Addrs(Inserted(p, buf, n).blocks) == r[..k] + [buf] + r[k..]
  {
    hide InsertPos;
    var k := InsertPos(p.blocks, buf);
    AddrsSplice(p.blocks, k, k, [Block(buf, n, false)]);
    assert Addrs([Block(buf, n, false)]) == [buf];
  }

  lemma InsertOutside(p: Pool, buf: nat, n: nat, head: nat)
    requires Inv(p) && FREE_HDR <= n && Clear(p, buf, n) && Outside(p.blocks, head) && (head < buf || buf + n <= head)
    ensures Outside(Inserted(p, buf, n).blocks, head)
  {
    hide Inv, Inserted, Freeing, InsertPos;
    InsertKeeps(p, buf, n);
  }

  lemma InsertedDescribed(p: Pool, buf: nat, n: nat, typ: Types, size: Field)
    requires Inv(p) && FREE_HDR <= n && Clear(p, buf, n) && Described(typ, size, p.blocks, -1) && At(size, buf) == n
    ensures Described(typ, size, Inserted(p, buf, n).blocks, buf)
  {
    InsertKeeps(p, buf, n);
    DescribedAt(typ, size, p.blocks, -1);
    DescribedAt(typ, size, Inserted(p, buf, n).blocks, buf);
  }

  // ---------------------------------------------------------------- allocating

  /** A request that is met always holds a free header. */
  lemma RoundUpHolds(n: nat)
    requires n > 0
    ensures RoundUp(n) >= FREE_HDR
  {}

  /** The same in a size_t of 32 bits, the lowest bits masked off. */
  function Request(n: nat): nat { Words.U32(n + 2 * HDR - 1) / HDR * HDR }

  /** The sum wraps for exactly the sizes whose request would not hold them and their header; such a request is
      no larger than a header, so any free block serves it. */
  lemma RequestHoldsIff(n: nat)
    requires n < 0x1_0000_0000
    ensures Request(n) >= n + HDR <==> n + 2 * HDR - 1 < 0x1_0000_0000
    ensures if n + 2 * HDR - 1 < 0x1_0000_0000 then Request(n) == RoundUp(n) else Request(n) <= HDR
  {}

  // ---------------------------------------------------------------- status

  function FreeTotal(bs: seq<Block>): nat {
    if bs == [] then 0 else (if bs[0].free then bs[0].size else 0) + FreeTotal(bs[1..])
  }

  function RingTotal(bs: seq<Block>, r: seq<nat>): nat {
    if r == [] then 0 else SizeAt(bs, r[0]) + RingTotal(bs, r[1..])
  }

  lemma {:induction false} RingTotalRemove(bs: seq<Block>, r: seq<nat>, a: nat)
    requires a in r
    ensures RingTotal(bs, r) == SizeAt(bs, a) + RingTotal(bs, Remove(r, a))
  {
    if r[0] != a { RingTotalRemove(bs, r[1..], a); }
  }

  lemma {:induction false} RingTotalTail(bs: seq<Block>, r: seq<nat>)
    requires bs != [] && bs[0].addr !in r
    requires forall a: nat :: a in r ==> FreeBlockAt(bs[1..], a)
    ensures RingTotal(bs, r) == RingTotal(bs[1..], r)
  {
    if r != [] {
      assert r == [r[0]] + r[1..];
      RingTotalTail(bs, r[1..]);
      assert r[0] in r;
      var b :| b in bs[1..] && b.addr == r[0] && b.free;
      var i :| 0 <= i < |bs[1..]| && bs[1..][i] == b;
      assert IndexOf(bs[1..], r[0]) <= i;
    }
  }

  /** Following the free chain sums up the free blocks. */
  lemma {:induction false} RingTotalIs(bs: seq<Block>, r: seq<nat>)
    requires Sorted(bs) && Sized(bs) && RingIs(bs, r)
    ensures RingTotal(bs, r) == FreeTotal(bs)
  {
    assert r != [] ==> r[0] in r;
    if bs != [] {
      var t, b := bs[1..], bs[0];
      assert bs == [b] + t;
      assert b in bs;
      var r' := if b.free then Remove(r, b.addr) else r;
      if b.free {
        assert FreeBlockAt(bs, b.addr);
        RemoveIs(r, b.addr);
        RingTotalRemove(bs, r, b.addr);
      }
      forall c | c in t ensures c.addr != b.addr {}
      forall a: nat ensures a in r' <==> FreeBlockAt(t, a) {
        if FreeBlockAt(t, a) { var c :| c in t && c.addr == a && c.free; assert c in bs; }
        if a in r' { var c :| c in bs && c.addr == a && c.free; }
      }
      RingTotalTail(bs, r');
      RingTotalIs(t, r');
    }
  }

  /** largest is the size of the largest of the first j free blocks of the ring, 0 if there are none. */
  ghost predicate IsLargest(p: Pool, j: nat, largest: nat)
    requires j <= |p.ring|
  {
    && (forall i :: 0 <= i < j ==> SizeAt(p.blocks, p.ring[i]) <= largest)
    && (largest == 0 || exists i :: 0 <= i < j && SizeAt(p.blocks, p.ring[i]) == largest)
  }

  lemma LargestDecides(p: Pool, largest: nat)
    requires Inv(p) && IsLargest(p, |p.ring|, largest)
    ensures forall n :: n > 0 ==> (HeapSpec.Malloc(p, n).1 != 0 <==> RoundUp(n) <= largest)
  {
    forall n | n > 0 ensures HeapSpec.Malloc(p, n).1 != 0 <==> RoundUp(n) <= largest {
      var j := FirstFit(p, RoundUp(n), 0);
      assert j < |p.ring| ==> SizeAt(p.blocks, p.ring[j]) >= RoundUp(n);
    }
  }

  /** The first j blocks of the ring are counted. */
  ghost predicate Surveyed(p: Pool, j: nat, sum: nat, largest: nat) {
    ( && j <= |p.ring| && sum + RingTotal(p.blocks, p.ring[j..]) == RingTotal(p.blocks, p.ring) && IsLargest(p, j, largest)
    ) == true  // kept whole in proofs
  }

  lemma SurveyStarts(p: Pool)
    ensures Surveyed(p, 0, 0, 0)
  {
    assert p.ring[0..] == p.ring;
  }

  lemma SurveyStep(p: Pool, j: nat, sum: nat, largest: nat, size: nat)
    requires Surveyed(p, j, sum, largest) && j < |p.ring| && size == SizeAt(p.blocks, p.ring[j])
    ensures Surveyed(p, j + 1, sum + size, if size >= largest then size else largest)
  {
    assert p.ring[j..][1..] == p.ring[j+1..];
  }

  lemma SurveyEnds(p: Pool, sum: nat, largest: nat)
    requires Surveyed(p, |p.ring|, sum, largest) && Inv(p)
    ensures sum == FreeTotal(p.blocks)
    ensures forall n :: n > 0 ==> (HeapSpec.Malloc(p, n).1 != 0 <==> RoundUp(n) <= largest)
  {
    RingTotalIs(p.blocks, p.ring);
    LargestDecides(p, largest);
  }

  // ---------------------------------------------------------------- writes by the owner of a block

  ghost predicate SameOutside(m: Field, m': Field, lo: nat, hi: nat) {
    forall a: nat :: a < lo || hi <= a ==> At(m', a) == At(m, a)
  }

  ghost predicate SameTypesOutside(m: Types, m': Types, lo: nat, hi: nat) {
    forall a: nat, t :: a < lo || hi <= a ==> (TypeIs(m', a, t) <==> TypeIs(m, a, t))
  }

  lemma {:induction false} SameLinks(next: Field, prev: Field, next': Field, prev': Field, c: seq<nat>)
    requires Linked(next, prev, c)
    requires forall a :: a in c ==> At(next', a) == At(next, a) && At(prev', a) == At(prev, a)
    ensures Linked(next', prev', c)
  {
    if |c| > 1 {
      assert c[1] in c && c[0] in c;
      SameLinks(next, prev, next', prev', c[1..]);
    }
  }

  lemma OwnerHarmless(p: Pool, b: Block, head: nat, typ: Types, size: Field, typ': Types, size': Field)
    requires Inv(p) && Outside(p.blocks, head) && b in p.blocks && !b.free && Described(typ, size, p.blocks, -1)
    requires SameOutside(size, size', b.addr + 1, b.End()) && SameTypesOutside(typ, typ', b.addr + 1, b.End())
    ensures Described(typ', size', p.blocks, -1) && !(b.addr <= head < b.End())
    ensures forall a :: a in Loop(head, Addrs(p.blocks)) ==> !(b.addr < a < b.End())
    ensures forall a :: a in Loop(head, p.ring) ==> !(b.addr <= a < b.End())
  {
    DescribedAt(typ, size, p.blocks, -1);
    DescribedAt(typ', size', p.blocks, -1);
    OtherAddresses(p.blocks, b);
    NoHeaderInside(p.blocks, b);
  }

  class Arena {
    /** &__malloc_head */
    const head: nat
    var typ: Types
    var size: Field
    var next: Field
    var prev: Field
    var nextFree: Field
    var prevFree: Field
    ghost var pool: Pool

    /** Rings and headers in memory are those of p. */
    ghost predicate Mirrors(p: Pool, busy: int)
      reads this`typ, this`size, this`next, this`prev, this`nextFree, this`prevFree
    {
      match p case Pool(blocks, ring) =>
        && Linked(next, prev, Loop(head, Addrs(blocks)))
        && Linked(nextFree, prevFree, Loop(head, ring))
        && Described(typ, size, blocks, busy)
        && TypeIs(typ, head, TypeHead)
    }

    ghost predicate Valid()
      reads this
    {
      ( Inv(pool) && Outside(pool.blocks, head) && Mirrors(pool, -1)
      ) == true  // kept whole in proofs
    }

    constructor (h: nat)
      ensures Valid() && pool == EMPTY && head == h
    {
      head := h;
      typ, size := map[h := TypeHead], map[h := 0];
      next, prev, nextFree, prevFree := map[h := h], map[h := h], map[h := h], map[h := h];
      pool := EMPTY;
      new;
      assert Mirrors(EMPTY, -1);
    }

    method RemoveFromFreeChain(ah: nat, ghost r: seq<nat>)
      requires Linked(nextFree, prevFree, Loop(head, r)) && Distinct(r) && head !in r && ah in r
      modifies this`nextFree, this`prevFree
      ensures Linked(nextFree, prevFree, Loop(head, Remove(r, ah)))
    {
      ghost var j :| 0 <= j < |r| && r[j] == ah;
      Unlinks(nextFree, prevFree, head, r, j);
      RemoveAt(r, j);
      var ap := At(prevFree, ah);
      var an := At(nextFree, ah);
      nextFree := nextFree[ap := an];
      prevFree := prevFree[an := ap];
    }

    method RemoveFromMainChain(ah: nat, ghost r: seq<nat>, ghost j: nat)
      requires Linked(next, prev, Loop(head, r)) && Distinct(r) && head !in r && j < |r| && r[j] == ah
      modifies this`next, this`prev
      ensures Linked(next, prev, Loop(head, r[..j] + r[j+1..]))
    {
      Unlinks(next, prev, head, r, j);
      var ap := At(prev, ah);
      var an := At(next, ah);
      next := next[ap := an];
      prev := prev[an := ap];
    }

    /** The links and types around block k. */
    lemma Around(p: Pool, k: nat, busy: int)
      requires Mirrors(p, busy) && Shape(p) && k < |p.blocks| && (busy >= 0 ==> busy == p.blocks[k].addr)
      ensures At(size, p.blocks[k].addr) == p.blocks[k].size
      ensures var a := At(prev, p.blocks[k].addr);
        if k > 0 then
          a == p.blocks[k-1].addr && At(size, a) == p.blocks[k-1].size && TypeIs(typ, a, if p.blocks[k-1].free then TypeFree else TypeUsed)
        else a == head
      ensures var a := At(next, p.blocks[k].addr);
        if k + 1 < |p.blocks| then
          a == p.blocks[k+1].addr && At(size, a) == p.blocks[k+1].size && TypeIs(typ, a, if p.blocks[k+1].free then TypeFree else TypeUsed)
        else a == head
    {
      var c := Loop(head, Addrs(p.blocks));
      SortedAt(p.blocks);
      LinkedIsLinkedAt(next, prev, c);
      assert c[k+1] == p.blocks[k].addr;
      assert At(next, c[k+1]) == c[k+2] && At(prev, c[k+1]) == c[k];
      DescribedAt(typ, size, p.blocks, busy);
      assert p.blocks[k] in p.blocks && (k > 0 ==> p.blocks[k-1] in p.blocks) && (k + 1 < |p.blocks| ==> p.blocks[k+1] in p.blocks);
    }

    /** Link a in behind ap, which is entry j - 1 of the main chain, or head. */
    method InsertIntoMainChain(a: nat, ap: nat, ghost r: seq<nat>, ghost j: nat)
      requires Linked(next, prev, Loop(head, r)) && Distinct(r) && head !in r && j <= |r|
      requires ap == Loop(head, r)[j] && a != head && a !in r
      modifies this`next, this`prev
      ensures Linked(next, prev, Loop(head, r[..j] + [a] + r[j..]))
    {
      LinksIn(next, prev, head, r, j, a);
      LinkedIsLinkedAt(next, prev, Loop(head, r));
      var an := At(next, ap);
      assert an == Loop(head, r)[j+1];
      next := next[a := an];
      prev := prev[a := ap];
      next := next[ap := a];
      prev := prev[an := a];
    }

    /** The rest of a split block takes over its place on the free chain. */
    method ReplaceOnFreeChain(fp: nat, nfp: nat, ghost r: seq<nat>)
      requires Linked(nextFree, prevFree, Loop(head, r)) && Distinct(r) && head !in r && fp in r && nfp != head && nfp !in r
      modifies this`nextFree, this`prevFree
      ensures Linked(nextFree, prevFree, Loop(head, Replace(r, fp, nfp)))
    {
      ghost var j :| 0 <= j < |r| && r[j] == fp;
      Relinks(nextFree, prevFree, head, r, j, nfp);
      ReplaceAt(r, j, nfp);
      var fpn := At(nextFree, fp);
      var fpp := At(prevFree, fp);
      nextFree := nextFree[nfp := fpn];
      prevFree := prevFree[nfp := fpp];
      prevFree := prevFree[fpn := nfp];
      nextFree := nextFree[fpp := nfp];
    }

    /** Write a header behind the first n bytes and link it into both rings, r and f. */
    method SplitBlock(fp: nat, n: nat, ghost r: seq<nat>, ghost k: nat, ghost f: seq<nat>)
      requires Linked(next, prev, Loop(head, r)) && Distinct(r) && head !in r && k < |r| && r[k] == fp
      requires Linked(nextFree, prevFree, Loop(head, f)) && Distinct(f) && head !in f && fp in f
      requires fp + n !in r && fp + n !in f && fp + n != head && n <= At(size, fp)
      modifies this`typ, this`size, this`next, this`prev, this`nextFree, this`prevFree
      ensures typ == old(typ[fp + n := TypeFree][fp := TypeUsed])
      ensures size == old(size[fp + n := At(size, fp) - n][fp := n])
      ensures Linked(next, prev, Loop(head, r[..k+1] + [fp + n] + r[k+1..]))
      ensures Linked(nextFree, prevFree, Loop(head, Replace(f, fp, fp + n)))
    {
      var nfp := fp + n;
      typ := typ[nfp := TypeFree];
      size := size[nfp := At(size, fp) - n];
      typ := typ[fp := TypeUsed];
      size := size[fp := n];
      InsertIntoMainChain(nfp, fp, r, k + 1);
      ReplaceOnFreeChain(fp, nfp, f);
    }

    method CarveBlock(fp: nat, n: nat, ghost p: Pool, ghost k: nat)
      requires Mirrors(p, -1) && Carving(p, k, n, head) && p.blocks[k].addr == fp && Splits(p.blocks[k], n)
      modifies this`typ, this`size, this`next, this`prev, this`nextFree, this`prevFree
      ensures Mirrors(Carve(p, k, n), -1)
    {
      hide Linked, Described, Loop, Replace;
      Around(p, k, -1);
      SplitDescribed(p, k, n, typ, size);
      SplitPlaces(p, k, n, head);
      SplitBlock(fp, n, Addrs(p.blocks), k, p.ring);
    }

    /** Hand out the block as it is. */
    method TakeBlock(fp: nat, n: nat, ghost p: Pool, ghost k: nat)
      requires Mirrors(p, -1) && Carving(p, k, n, head) && p.blocks[k].addr == fp && !Splits(p.blocks[k], n)
      modifies this`typ, this`nextFree, this`prevFree
      ensures Mirrors(Carve(p, k, n), -1)
    {
      WholeDescribed(p, k, n, typ, size);
      WholePlaces(p, k, n, head);
      typ := typ[fp := TypeUsed];
      RemoveFromFreeChain(fp, p.ring);
    }

    /** __malloc_from_block */
    method MallocFromBlock(fp: nat, n: nat, ghost p: Pool, ghost k: nat) returns (ptr: nat)
      requires Mirrors(p, -1) && Carving(p, k, n, head) && p.blocks[k].addr == fp
      modifies this`typ, this`size, this`next, this`prev, this`nextFree, this`prevFree
      ensures Mirrors(Carve(p, k, n), -1) && ptr == fp + HDR
    {
      Around(p, k, -1);
      var fsize := At(size, fp);
      if fsize >= n + 2 * HDR {
        CarveBlock(fp, n, p, k);
      } else {
        TakeBlock(fp, n, p, k);
      }
      return fp + HDR;
    }

    /** Link ah in behind head on the free chain. */
    method EnterFreeChain(ah: nat, ghost r: seq<nat>)
      requires Linked(nextFree, prevFree, Loop(head, r)) && Distinct(r) && head !in r && ah != head && ah !in r
      modifies this`nextFree, this`prevFree
      ensures Linked(nextFree, prevFree, Loop(head, [ah] + r))
    {
      LinksIn(nextFree, prevFree, head, r, 0, ah);
      assert r[..0] + [ah] + r[0..] == [ah] + r;
      assert At(nextFree, head) == Loop(head, r)[1];
      nextFree := nextFree[ah := At(nextFree, head)];
      prevFree := prevFree[ah := head];
      nextFree := nextFree[head := ah];
      prevFree := prevFree[At(nextFree, ah) := ah];
    }

    /** pah takes in the block behind it. */
    method JoinBlock(ah: nat, pah: nat, nah: nat, ghost p: Pool, ghost k: nat)
      requires Mirrors(p, ah) && Freeing(p, k) && Outside(p.blocks, head) && JoinsPrev(p, k)
      requires p.blocks[k].addr == ah && p.blocks[k-1].addr == pah && pah == At(prev, ah) && nah == At(next, ah)
      requires At(size, pah) == p.blocks[k-1].size && At(size, ah) == p.blocks[k].size
      modifies this`size, this`next, this`prev
      ensures Mirrors(JoinPrev(p, k).0, -1) && At(next, pah) == nah
    {
      AddrsDistinct(p.blocks);
      HeadNotIn(p, head);
      FuseDescribed(p, k, typ, size, ah);
      FuseAddrs(p, k);
      Unlinks(next, prev, head, Addrs(p.blocks), k);
      size := size[pah := At(size, pah) + At(size, ah)];
      next := next[pah := nah];
      prev := prev[nah := pah];
    }

    /** Become a free block of its own. */
    method RaiseBlock(ah: nat, ghost p: Pool, ghost k: nat)
      requires Mirrors(p, ah) && Freeing(p, k) && Outside(p.blocks, head) && !JoinsPrev(p, k) && p.blocks[k].addr == ah
      modifies this`typ, this`nextFree, this`prevFree
      ensures Mirrors(JoinPrev(p, k).0, -1)
    {
      HeadNotIn(p, head);
      RaiseDescribed(p, k, typ, size);
      RaiseAddrs(p, k);
      UsedNotInRing(p, k);
      typ := typ[ah := TypeFree];
      EnterFreeChain(ah, p.ring);
    }

    /** The first half of __free_block: a free block before takes this one in, or it becomes a free block of its own. */
    method CoalescePrevious(ah: nat, ghost p: Pool, ghost k: nat) returns (cur: nat)
      requires Mirrors(p, ah) && Freeing(p, k) && Outside(p.blocks, head) && p.blocks[k].addr == ah
      modifies this`typ, this`size, this`next, this`prev, this`nextFree, this`prevFree
      ensures var (q, i) := JoinPrev(p, k); Mirrors(q, -1) && q.blocks[i].addr == cur
      ensures At(next, cur) == old(At(next, ah))
    {
      Around(p, k, ah);
      var pah := At(prev, ah);
      var nah := At(next, ah);
      if TypeIs(typ, pah, TypeFree) && pah + At(size, pah) == ah {
        JoinBlock(ah, pah, nah, p, k);
        cur := pah;
      } else {
        RaiseBlock(ah, p, k);
        cur := ah;
      }
    }

    /** Take over the block behind ah, entry k + 1 of the main chain r; f is the free chain. */
    method AbsorbBlock(ah: nat, nah: nat, ghost r: seq<nat>, ghost k: nat, ghost f: seq<nat>)
      requires Linked(next, prev, Loop(head, r)) && Distinct(r) && head !in r && k < |r| && r[k] == nah
      requires Linked(nextFree, prevFree, Loop(head, f)) && Distinct(f) && head !in f && nah in f
      modifies this`size, this`next, this`prev, this`nextFree, this`prevFree
      ensures size == old(size[ah := At(size, ah) + At(size, nah)])
      ensures Linked(next, prev, Loop(head, r[..k] + r[k+1..]))
      ensures Linked(nextFree, prevFree, Loop(head, Remove(f, nah)))
    {
      size := size[ah := At(size, ah) + At(size, nah)];
      RemoveFromFreeChain(nah, f);
      RemoveFromMainChain(nah, r, k);
    }

    /** The second half: a free block right behind is taken in. */
    method CoalesceNext(ah: nat, nah: nat, ghost p: Pool, ghost k: nat)
      requires Mirrors(p, -1) && Shape(p) && k < |p.blocks| && p.blocks[k].free && p.blocks[k].addr == ah
      requires Outside(p.blocks, head) && nah == At(next, ah)
      modifies this`typ, this`size, this`next, this`prev, this`nextFree, this`prevFree
      ensures Mirrors(JoinNext(p, k), -1)
    {
      hide Described, Linked, Loop;
      Around(p, k, -1);
      if TypeIs(typ, nah, TypeFree) && ah + At(size, ah) == nah {
        HeadNotIn(p, head);
        AddrsDistinct(p.blocks);
        AbsorbDescribed(p, k, typ, size);
        AbsorbAddrs(p, k);
        AbsorbBlock(ah, nah, Addrs(p.blocks), k + 1, p.ring);
      }
    }

    /** __free_block */
    method FreeBlock(ah: nat, ghost p: Pool, ghost k: nat) returns (cur: nat, ghost q: Pool)
      requires Mirrors(p, ah) && Freeing(p, k) && Outside(p.blocks, head) && p.blocks[k].addr == ah
      modifies this`typ, this`size, this`next, this`prev, this`nextFree, this`prevFree
      ensures Inv(q) && Outside(q.blocks, head) && Mirrors(q, -1) && q == HeapSpec.FreeBlock(p, k)
    {
      ghost var m, i := JoinPrev(p, k).0, JoinPrev(p, k).1;
      JoinPrevReady(p, k, head);
      FreeReady(p, k, head);
      var nah := At(next, ah);
      cur := CoalescePrevious(ah, p, k);
      CoalesceNext(cur, nah, m, i);
      q := JoinNext(m, i);
    }

    /** Entry j of the free chain. */
    lemma OnFreeChain(j: nat)
      requires Valid() && j <= |pool.ring|
      ensures j == |pool.ring| ==> TypeIs(typ, Loop(head, pool.ring)[j+1], TypeHead)
      ensures j < |pool.ring| ==>
        var fp := Loop(head, pool.ring)[j+1];
        && fp == pool.ring[j] && !TypeIs(typ, fp, TypeHead) && At(size, fp) == SizeAt(pool.blocks, fp)
        && At(nextFree, fp) == Loop(head, pool.ring)[j+2]
    {
      var c := Loop(head, pool.ring);
      if j < |pool.ring| {
        LinkedIsLinkedAt(nextFree, prevFree, c);
        assert c[j+1] == pool.ring[j] && At(nextFree, c[j+1]) == c[j+2];
        DescribedAt(typ, size, pool.blocks, -1);
        var b := RingEntry(pool, j);
        assert DescribedBlock(typ, size, b, -1);
      }
    }

    lemma FirstOnFreeChain()
      requires Valid()
      ensures At(nextFree, head) == Loop(head, pool.ring)[1]
    {
      var c := Loop(head, pool.ring);
      assert c[0] == head && Linked(nextFree, prevFree, c);
    }

    /** The first block of the free chain with need bytes, or head. */
    method FindFit(need: nat) returns (fp: nat, ghost j: nat)
      requires Valid()
      ensures j == FirstFit(pool, need, 0) && fp == Loop(head, pool.ring)[j+1]
      ensures TypeIs(typ, fp, TypeHead) <==> j == |pool.ring|
    {
      FirstOnFreeChain();
      fp := At(nextFree, head);
      j := 0;
      while !TypeIs(typ, fp, TypeHead)
        invariant j <= |pool.ring| && fp == Loop(head, pool.ring)[j+1]
        invariant FirstFit(pool, need, 0) == FirstFit(pool, need, j)
        decreases |pool.ring| - j
      {
        OnFreeChain(j);
        if At(size, fp) >= need {
          return;
        }
        fp := At(nextFree, fp);
        j := j + 1;
      }
      OnFreeChain(j);
    }

    /** The search of malloc, for a size that is rounded up and holds a free header. */
    method MallocRounded(size: nat) returns (result: nat)
      requires Valid() && size >= FREE_HDR
      modifies this
      ensures Valid() && (pool, result) == Serve(old(pool), size)
    {
      var fp, j := FindFit(size);
      if TypeIs(typ, fp, TypeHead) {
        return 0;
      }
      result := TakeFrom(fp, size, j);
    }

    /** malloc: follows the pool's first fit. The request is small enough for its size to be rounded up. */
    method Malloc(n: nat) returns (result: nat)
      requires Valid() && n + 2 * HDR - 1 < 0x1_0000_0000
      modifies this
      ensures Valid() && (pool, result) == HeapSpec.Malloc(old(pool), n)
    {
      if n == 0 {
        return 0;
      }
      RoundUpHolds(n);
      RequestHoldsIff(n);
      result := MallocRounded(Request(n));
    }

    /** Serve the request from entry j of the free chain. */
    method TakeFrom(fp: nat, need: nat, ghost j: nat) returns (result: nat)
      requires Valid() && j < |pool.ring| && pool.ring[j] == fp && FREE_HDR <= need <= SizeAt(pool.blocks, fp)
      modifies this
      ensures Valid() && pool == Carve(old(pool), IndexOf(old(pool).blocks, fp), need) && result == fp + HDR
    {
      ghost var p, k := pool, IndexOf(pool.blocks, fp);
      ghost var b := RingEntry(p, j);
      CarveInv(p, k, need);
      CarveOutside(p, k, need, head);
      result := MallocFromBlock(fp, need, p, k);
      pool := Carve(p, k, need);
    }

    /** free, of the block in use with header ah. */
    method FreeHeader(ah: nat, ghost k: nat)
      requires Valid() && Freeing(pool, k) && pool.blocks[k].addr == ah && Described(typ, size, pool.blocks, ah)
      modifies this
      ensures Valid() && pool == HeapSpec.FreeBlock(old(pool), k)
    {
      var cur; ghost var q;
      cur, q := FreeBlock(ah, pool, k);
      pool := q;
    }

    /** free */
    method Free(ptr: nat)
      requires Valid() && (ptr == 0 || Live(pool, ptr))
      modifies this
      ensures Valid() && pool == HeapSpec.Free(old(pool), ptr)
    {
      if ptr == 0 {
        return;
      }
      FreeBegins(pool, ptr, typ, size);
      FreeHeader(ptr - HDR, IndexOf(pool.blocks, ptr - HDR));
    }

    /** The main chain seen from its end: entry k. */
    lemma OnMainChain(k: nat)
      requires Valid() && k <= |pool.blocks|
      ensures var a := Loop(head, Addrs(pool.blocks))[k];
        && At(prev, Loop(head, Addrs(pool.blocks))[k+1]) == a
        && (TypeIs(typ, a, TypeHead) <==> k == 0)
        && (k > 0 ==> a == pool.blocks[k-1].addr)
    {
      var c := Loop(head, Addrs(pool.blocks));
      LinkedIsLinkedAt(next, prev, c);
      assert At(prev, c[k+1]) == c[k];
      if k > 0 {
        DescribedAt(typ, size, pool.blocks, -1);
        assert pool.blocks[k-1] in pool.blocks;
      }
    }

    /** Where fp belongs in the main chain, looking from its end. */
    method FindPlace(fp: nat) returns (pah: nat, ghost k: nat)
      requires Valid()
      ensures k == InsertPos(pool.blocks, fp) && pah == Loop(head, Addrs(pool.blocks))[k]
    {
      k := |pool.blocks|;
      OnMainChain(k);
      pah := At(prev, head);
      assert pool.blocks[..k] == pool.blocks;
      while !TypeIs(typ, pah, TypeHead) && pah >= fp
        modifies {}
        invariant k <= |pool.blocks| && pah == Loop(head, Addrs(pool.blocks))[k]
        invariant TypeIs(typ, pah, TypeHead) <==> k == 0
        invariant InsertPos(pool.blocks, fp) == InsertPos(pool.blocks[..k], fp)
        decreases k
      {
        OnMainChain(k);
        NotYet(pool.blocks, k, fp);
        k := k - 1;
        OnMainChain(k);
        pah := At(prev, pah);
      }
      OnMainChain(k);
      PlaceFound(pool.blocks, k, fp);
    }

    /** Write the header of a new region and link it into the main chain. */
    method PlaceBlock(fp: nat, n: nat)
      requires Valid() && FREE_HDR <= n && Clear(pool, fp, n) && (head < fp || fp + n <= head)
      modifies this`typ, this`size, this`next, this`prev
      ensures Mirrors(Inserted(pool, fp, n), fp) && Outside(Inserted(pool, fp, n).blocks, head)
    {
      NewHeaderDescribed(pool, fp, n, typ, size);
      typ := typ[fp := TypeFree];
      size := size[fp := n];
      ghost var k;
      var pah;
      pah, k := FindPlace(fp);
      InsertPlaces(pool, fp, n, head);
      InsertedDescribed(pool, fp, n, typ, size);
      InsertIntoMainChain(fp, pah, Addrs(pool.blocks), k);
    }

    /** Add the new block as a used one, and free it. */
    method AddBlock(buf: nat, n: nat)
      requires Valid() && FREE_HDR <= n && Clear(pool, buf, n) && (head < buf || buf + n <= head)
      modifies this
      ensures Valid() && pool == HeapSpec.FreeBlock(Inserted(old(pool), buf, n), InsertPos(old(pool).blocks, buf))
    {
      hide Inv, Mirrors, Freeing, Outside, Clear, Inserted, HeapSpec.FreeBlock, InsertPos;
      ghost var m, k := Inserted(pool, buf, n), InsertPos(pool.blocks, buf);
      InsertFreeing(pool, buf, n);
      PlaceBlock(buf, n);
      var fp; ghost var q;
      fp, q := FreeBlock(buf, m, k);
      pool := q;
    }

    /** add_malloc_block on memory that is no block's and does not hold __malloc_head. */
    method AddMallocBlock(buf: nat, n: nat)
      requires Valid() && Clear(pool, buf, n) && (head < buf || buf + n <= head)
      modifies this
      ensures Valid() && pool == Add(old(pool), buf, n)
    {
      if n < FREE_HDR {
        return;                                         // no room for a free header
      }
      AddBlock(buf, n);
    }

    /** get_malloc_memory_status: the largest free block decides which requests malloc can meet. */
    method MemoryStatus() returns (freeBytes: nat, largestBlock: nat)
      requires Valid()
      ensures freeBytes == FreeTotal(pool.blocks)
      ensures forall n :: n > 0 ==> (HeapSpec.Malloc(pool, n).1 != 0 <==> RoundUp(n) <= largestBlock)
    {
      hide Surveyed, RoundUp, FreeTotal, HeapSpec.Malloc;
      freeBytes := 0;
      largestBlock := 0;
      FirstOnFreeChain();
      SurveyStarts(pool);
      var fp := At(nextFree, head);
      ghost var j := 0;
      OnFreeChain(j);
      while !TypeIs(typ, fp, TypeHead)
        modifies {}
        invariant j <= |pool.ring| && fp == Loop(head, pool.ring)[j+1]
        invariant TypeIs(typ, fp, TypeHead) <==> j == |pool.ring|
        invariant Surveyed(pool, j, freeBytes, largestBlock)
        decreases |pool.ring| - j
      {
        OnFreeChain(j);
        SurveyStep(pool, j, freeBytes, largestBlock, At(size, fp));
        freeBytes := freeBytes + At(size, fp);
        if At(size, fp) >= largestBlock {
          largestBlock := At(size, fp);
        }
        fp := At(nextFree, fp);
        j := j + 1;
        OnFreeChain(j);
      }
      SurveyEnds(pool, freeBytes, largestBlock);
    }

    /** The owner of a block in use may write anything behind its header, the free links included. */
    method OwnerWrites(ptr: nat, b: Block, typ': Types, size': Field, next': Field, prev': Field, nextFree': Field, prevFree': Field)
      requires Valid() && b in pool.blocks && !b.free && ptr == b.addr + HDR
      requires SameOutside(size, size', b.addr + 1, b.End()) && SameTypesOutside(typ, typ', b.addr + 1, b.End())
      requires SameOutside(next, next', b.addr + 1, b.End()) && SameOutside(prev, prev', b.addr + 1, b.End())
      requires SameOutside(nextFree, nextFree', b.addr, b.End()) && SameOutside(prevFree, prevFree', b.addr, b.End())
      modifies this`typ, this`size, this`next, this`prev, this`nextFree, this`prevFree
      ensures Valid()
    {
      OwnerHarmless(pool, b, head, typ, size, typ', size');
      SameLinks(next, prev, next', prev', Loop(head, Addrs(pool.blocks)));
      SameLinks(nextFree, prevFree, nextFree', prevFree', Loop(head, pool.ring));
      typ, size, next, prev, nextFree, prevFree := typ', size', next', prev', nextFree', prevFree';
    }
  }
}
