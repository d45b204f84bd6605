module HeapLemmas {
  import opened HeapSpec

  lemma {:induction false} DistinctAt(r: seq<nat>)
    ensures Distinct(r) <==> forall i, j :: 0 <= i < j < |r| ==> r[i] != r[j]
  {
    if r != [] {
      var t := r[1..];
      DistinctAt(t);
      if Distinct(r) {
        forall i, j | 0 <= i < j < |r| ensures r[i] != r[j] {
          assert r[j] == t[j-1];
          if i > 0 { assert r[i] == t[i-1]; }
        }
      }
      if forall i, j :: 0 <= i < j < |r| ==> r[i] != r[j] {
        forall i, j | 0 <= i < j < |t| ensures t[i] != t[j] { assert t[i] == r[i+1] && t[j] == r[j+1]; }
      }
    }
  }

  lemma {:induction false} ReplaceIs(r: seq<nat>, a: nat, b: nat)
    requires Distinct(r) && a in r && b !in r
    ensures Distinct(Replace(r, a, b)) && |Replace(r, a, b)| == |r|
    ensures forall x: nat :: x in Replace(r, a, b) <==> x == b || (x in r && x != a)
  {
    assert r == [r[0]] + r[1..];
    assert ([b] + r[1..])[1..] == r[1..];
    if r[0] != a {
      ReplaceIs(r[1..], a, b);
      assert Replace(r, a, b)[1..] == Replace(r[1..], a, b);
    }
  }

  lemma {:induction false} RemoveIs(r: seq<nat>, a: nat)
    requires Distinct(r) && a in r
    ensures Distinct(Remove(r, a)) && |Remove(r, a)| == |r| - 1
    ensures forall x: nat :: x in Remove(r, a) <==> x in r && x != a
  {
    assert r == [r[0]] + r[1..];
    if r[0] != a {
      RemoveIs(r[1..], a);
      assert Remove(r, a)[1..] == Remove(r[1..], a);
    }
  }

  lemma {:induction false} RemoveAt(r: seq<nat>, j: nat)
    requires Distinct(r) && j < |r|
    ensures Remove(r, r[j]) == r[..j] + r[j+1..]
  {
    if j > 0 {
      RemoveAt(r[1..], j - 1);
      assert r[1..][j-1] == r[j] && r[1..][..j-1] == r[1..j] && r[1..][j..] == r[j+1..];
      assert r[..j] == [r[0]] + r[1..j];
    }
  }

  lemma {:induction false} ReplaceAt(r: seq<nat>, j: nat, b: nat)
    requires Distinct(r) && j < |r|
    ensures Replace(r, r[j], b) == r[j := b]
  {
    if j > 0 {
      ReplaceAt(r[1..], j - 1, b);
      assert r[1..][j-1] == r[j];
      assert [r[0]] + r[1..][j-1 := b] == r[j := b];
    }
  }

  lemma {:induction false} SortedAt(bs: seq<Block>)
    ensures Sorted(bs) <==> forall i, j :: 0 <= i < j < |bs| ==> bs[i].End() <= bs[j].addr
  {
    if bs != [] {
      var t := bs[1..];
      SortedAt(t);
      if Sorted(bs) {
        forall i, j | 0 <= i < j < |bs| ensures bs[i].End() <= bs[j].addr {
          assert bs[j] == t[j-1];
          if i > 0 { assert bs[i] == t[i-1]; }
        }
      }
      if forall i, j :: 0 <= i < j < |bs| ==> bs[i].End() <= bs[j].addr {
        forall i, j | 0 <= i < j < |t| ensures t[i].End() <= t[j].addr { assert t[i] == bs[i+1] && t[j] == bs[j+1]; }
        forall c | c in t ensures bs[0].End() <= c.addr {
          var i :| 0 <= i < |t| && t[i] == c;
          assert bs[i+1] == c;
        }
      }
    }
  }

  lemma {:induction false} SortedConcat(a: seq<Block>, b: seq<Block>)
    ensures Sorted(a + b) <==> Sorted(a) && Sorted(b) && forall x, y :: x in a && y in b ==> x.End() <= y.addr
  {
    if a == [] {
      assert a + b == b;
    } else {
      assert (a + b)[1..] == a[1..] + b && (a + b)[0] == a[0];
      assert a == [a[0]] + a[1..];
      SortedConcat(a[1..], b);
    }
  }

  lemma SortedThree(a: seq<Block>, x: seq<Block>, b: seq<Block>)
    ensures Sorted(a + x + b) <==>
      && Sorted(a) && Sorted(x) && Sorted(b)
      && (forall u, v :: u in a && v in x ==> u.End() <= v.addr)
      && (forall u, v :: u in x && v in b ==> u.End() <= v.addr)
      && (forall u, v :: u in a && v in b ==> u.End() <= v.addr)
  {
    SortedConcat(a + x, b);
    SortedConcat(a, x);
  }

  lemma IndexFinds(bs: seq<Block>, b: Block)
    requires Sorted(bs) && Sized(bs) && b in bs
    ensures var k := IndexOf(bs, b.addr); k < |bs| && bs[k] == b
  {
    SortedAt(bs);
    var i :| 0 <= i < |bs| && bs[i] == b;
  }

  lemma Apart(bs: seq<Block>, b: Block, c: Block)
    requires Sorted(bs) && b in bs && c in bs && b != c
    ensures b.End() <= c.addr || c.End() <= b.addr
  {
    SortedAt(bs);
    var i :| 0 <= i < |bs| && bs[i] == b;
    var j :| 0 <= j < |bs| && bs[j] == c;
  }

  lemma OtherAddresses(bs: seq<Block>, b: Block)
    requires Sorted(bs) && Sized(bs) && b in bs
    ensures forall c :: c in bs && c != b ==> !(b.addr <= c.addr < b.End())
  {
    forall c | c in bs && c != b ensures !(b.addr <= c.addr < b.End()) { Apart(bs, b, c); }
  }

  /** Replacing block k by blocks inside its extent. */
  lemma Swap(bs: seq<Block>, k: nat, ys: seq<Block>)
    requires Sorted(bs) && Sized(bs) && k < |bs| && Sorted(ys)
    requires forall y :: y in ys ==> bs[k].addr <= y.addr && y.End() <= bs[k].End()
    ensures Sorted(bs[..k] + ys + bs[k+1..])
    ensures forall c :: c in bs[..k] + ys + bs[k+1..] <==> (c in bs && c != bs[k]) || c in ys
  {
    var b := bs[k];
    var A, B := bs[..k], bs[k+1..];
    assert bs == A + [b] + B;
    SortedThree(A, [b], B);
    SortedThree(A, ys, B);
    assert b in bs;
  }

  lemma CarveBlocks(p: Pool, k: nat, size: nat)
    requires Inv(p) && k < |p.blocks| && FREE_HDR <= size <= p.blocks[k].size
    ensures var q, b := Carve(p, k, size), p.blocks[k];
      && Sorted(q.blocks)
      && Sized(q.blocks)
      && forall c :: c in q.blocks <==>
          (c in p.blocks && c != b) || c == Taken(b, size) || (Splits(b, size) && c == Rest(b, size))
  {
    assert p.blocks[k] in p.blocks;
    Swap(p.blocks, k, Pieces(p.blocks[k], size));
  }

  /** Free block b leaves; if split, free block f comes in its place. */
  lemma RingSwap(bs: seq<Block>, r: seq<nat>, b: Block, qs: seq<Block>, u: Block, split: bool, f: Block, r2: seq<nat>)
    requires RingIs(bs, r) && b in bs && b.free && !u.free && f.free && Distinct(r2)
    requires forall c :: c in bs && c != b ==> c.addr != b.addr
    requires forall c :: c in qs <==> (c in bs && c != b) || c == u || (split && c == f)
    requires forall a: nat :: a in r2 <==> (a in r && a != b.addr) || (split && a == f.addr)
    ensures RingIs(qs, r2)
  {
    forall a: nat ensures a in r2 <==> FreeBlockAt(qs, a) {
      if a in r2 && !(split && a == f.addr) {
        var c :| c in bs && c.addr == a && c.free;
        assert c in qs;
      }
      if a in r2 && split && a == f.addr { assert f in qs; }
      if FreeBlockAt(qs, a) {
        var c :| c in qs && c.addr == a && c.free;
        assert c in bs ==> FreeBlockAt(bs, a);
      }
    }
  }

  lemma CarveRing(p: Pool, k: nat, size: nat)
    requires Inv(p) && k < |p.blocks| && p.blocks[k].free && FREE_HDR <= size <= p.blocks[k].size
    ensures RingIs(Carve(p, k, size).blocks, Carve(p, k, size).ring)
  {
    hide Sorted, Sized;
    var q, b := Carve(p, k, size), p.blocks[k];
    var f := Block(b.addr + size, b.size - size, true);
    CarveBlocks(p, k, size);
    assert b in p.blocks && FreeBlockAt(p.blocks, b.addr);
    OtherAddresses(p.blocks, b);
    if Splits(b, size) {
      assert !FreeBlockAt(p.blocks, f.addr);
      ReplaceIs(p.ring, b.addr, f.addr);
    } else {
      RemoveIs(p.ring, b.addr);
    }
    RingSwap(p.blocks, p.ring, b, q.blocks, Taken(b, size), Splits(b, size), f, q.ring);
  }

  /** Splitting block k or taking it whole keeps the invariant. */
  lemma CarveInv(p: Pool, k: nat, size: nat)
    requires Inv(p) && k < |p.blocks| && p.blocks[k].free && FREE_HDR <= size <= p.blocks[k].size
    ensures Inv(Carve(p, k, size))
  {
    CarveBlocks(p, k, size);
    CarveRing(p, k, size);
    var q, b := Carve(p, k, size), p.blocks[k];
    assert b in p.blocks;
    forall c, d | c in q.blocks && d in q.blocks ensures !Touch(c, d) {
      if c.free && d.free {
        if c in p.blocks && d !in p.blocks {
          if c != b { Apart(p.blocks, b, c); assert c.End() <= b.addr || d.End() <= c.addr; }
        } else if c !in p.blocks && d in p.blocks {
          assert !Touch(b, d);
        }
      }
    }
  }

  // ---------------------------------------------------------------- freeing

  /** __free_block on block k: the pool is in order and block k is in use. */
  ghost predicate Freeing(p: Pool, k: nat) {
    Inv(p) && k < |p.blocks| && !p.blocks[k].free
  }

  predicate JoinsPrev(p: Pool, k: nat)
    requires k < |p.blocks|
  {
    k > 0 && p.blocks[k-1].free && p.blocks[k-1].End() == p.blocks[k].addr
  }

  /** Merging block k-1 and block k into one free block. */
  lemma Fuse(bs: seq<Block>, k: nat)
    requires Sorted(bs) && Sized(bs) && 0 < k < |bs| && bs[k-1].End() == bs[k].addr
    ensures var m := Block(bs[k-1].addr, bs[k-1].size + bs[k].size, true);
      var r := bs[..k-1] + [m] + bs[k+1..];
      Sorted(r) && Sized(r) && forall c :: c in r <==> (c in bs && c != bs[k-1] && c != bs[k]) || c == m
  {
    var m := Block(bs[k-1].addr, bs[k-1].size + bs[k].size, true);
    var A, B := bs[..k-1], bs[k+1..];
    assert bs == A + [bs[k-1], bs[k]] + B;
    FuseParts(A, bs[k-1], bs[k], m, B);
  }

  lemma FuseParts(A: seq<Block>, x: Block, y: Block, m: Block, B: seq<Block>)
    requires Sorted(A + [x, y] + B) && Sized(A + [x, y] + B)
    requires x.End() == y.addr && m.addr == x.addr && m.size == x.size + y.size
    ensures Sorted(A + [m] + B) && Sized(A + [m] + B)
    ensures forall c :: c in A + [m] + B <==> (c in A + [x, y] + B && c != x && c != y) || c == m
  {
    FuseSorted(A, x, y, m, B);
    assert x in A + [x, y] + B && y in A + [x, y] + B;
    SortedThree(A, [x, y], B);
  }

  lemma FuseSorted(A: seq<Block>, x: Block, y: Block, m: Block, B: seq<Block>)
    requires Sorted(A + [x, y] + B) && x.End() == y.addr && m.addr == x.addr && m.size == x.size + y.size
    ensures Sorted(A + [m] + B)
  {
    SortedThree(A, [x, y], B);
    SortedThree(A, [m], B);
    assert x in [x, y] && y in [x, y];
  }

  lemma JoinPrevBlocks(p: Pool, k: nat)
    requires Freeing(p, k)
    ensures var (q, i) := JoinPrev(p, k);
      && Sorted(q.blocks) && Sized(q.blocks)
      && q.blocks[i].free && q.blocks[i].End() == p.blocks[k].End()
    ensures var (q, i) := JoinPrev(p, k);
      var m := q.blocks[i];
      if JoinsPrev(p, k) then
        m.addr == p.blocks[k-1].addr && forall d :: d in q.blocks <==> (d in p.blocks && d != p.blocks[k-1] && d != p.blocks[k]) || d == m
      else m == p.blocks[k].(free := true) && forall d :: d in q.blocks <==> (d in p.blocks && d != p.blocks[k]) || d == m
  {
    var (q, i) := JoinPrev(p, k);
    if JoinsPrev(p, k) {
      Fuse(p.blocks, k);
      assert q.blocks[k-1] == Block(p.blocks[k-1].addr, p.blocks[k-1].size + p.blocks[k].size, true);
    } else {
      assert p.blocks[k] in p.blocks;
      Swap(p.blocks, k, [p.blocks[k].(free := true)]);
      assert q.blocks[k] == p.blocks[k].(free := true);
    }
  }

  /** The block that ends where block k starts stands just before it. */
  lemma Neighbour(bs: seq<Block>, k: nat, c: Block)
    requires Sorted(bs) && Sized(bs) && k < |bs| && c in bs && c.End() == bs[k].addr
    ensures k > 0 && bs[k-1] == c
  {
    SortedAt(bs);
    var i :| 0 <= i < |bs| && bs[i] == c;
    assert bs[k] in bs && (k > 0 ==> bs[k-1] in bs);
  }

  lemma Unique(bs: seq<Block>, i: nat, j: nat)
    requires Sorted(bs) && Sized(bs) && i < |bs| && j < |bs| && bs[i] == bs[j]
    ensures i == j
  {
    SortedAt(bs);
    assert bs[i] in bs;
  }

  lemma JoinPrevRing(p: Pool, k: nat)
    requires Freeing(p, k)
    ensures var (q, i) := JoinPrev(p, k); RingIs(q.blocks, q.ring)
  {
    var (q, i) := JoinPrev(p, k);
    var b, m := p.blocks[k], q.blocks[i];
    JoinPrevBlocks(p, k);
    assert b in p.blocks;
    if !JoinsPrev(p, k) {
      if FreeBlockAt(p.blocks, b.addr) {
        var c :| c in p.blocks && c.addr == b.addr && c.free;
        Apart(p.blocks, b, c);
        assert false;
      }
      assert q.ring[1..] == p.ring;
    }
    forall a: nat ensures a in q.ring <==> FreeBlockAt(q.blocks, a) {
      if FreeBlockAt(q.blocks, a) {
        var c :| c in q.blocks && c.addr == a && c.free;
        if c == m && JoinsPrev(p, k) { assert p.blocks[k-1] in p.blocks; }
      }
      if FreeBlockAt(p.blocks, a) {
        var c :| c in p.blocks && c.addr == a && c.free;
        if JoinsPrev(p, k) && c == p.blocks[k-1] { assert m in q.blocks; } else { assert c in q.blocks; }
      }
      assert m in q.blocks;
    }
  }

  /** After the first half only block i may still touch a free block, the one behind it. */
  lemma JoinPrevMerged(p: Pool, k: nat)
    requires Freeing(p, k)
    ensures var (q, i) := JoinPrev(p, k); forall c, d :: c in q.blocks && d in q.blocks && Touch(c, d) ==> c == q.blocks[i]
  {
    var (q, i) := JoinPrev(p, k);
    var b, m := p.blocks[k], q.blocks[i];
    JoinPrevBlocks(p, k);
    assert k > 0 ==> p.blocks[k-1] in p.blocks;
    forall c, d | c in q.blocks && d in q.blocks && Touch(c, d) ensures c == m {
      if c != m && d == m && !JoinsPrev(p, k) { Neighbour(p.blocks, k, c); }
    }
  }

  lemma JoinNextBlocks(p: Pool, k: nat)
    requires Shape(p) && k < |p.blocks| && p.blocks[k].free
    requires k + 1 < |p.blocks| && Touch(p.blocks[k], p.blocks[k+1])
    ensures var q, b, n := JoinNext(p, k), p.blocks[k], p.blocks[k+1];
      var m := b.(size := b.size + n.size);
      && Sorted(q.blocks) && Sized(q.blocks) && q.blocks[k] == m && m.End() == n.End()
      && (forall c :: c in q.blocks <==> (c in p.blocks && c != b && c != n) || c == m)
  {
    Fuse(p.blocks, k + 1);
  }

  lemma JoinNextRing(p: Pool, k: nat)
    requires Shape(p) && k < |p.blocks| && p.blocks[k].free
    requires k + 1 < |p.blocks| && Touch(p.blocks[k], p.blocks[k+1])
    ensures RingIs(JoinNext(p, k).blocks, JoinNext(p, k).ring)
  {
    JoinNextBlocks(p, k);
    var q, b, n := JoinNext(p, k), p.blocks[k], p.blocks[k+1];
    var m := q.blocks[k];
    assert b in p.blocks && n in p.blocks && m in q.blocks;
    assert FreeBlockAt(p.blocks, n.addr);
    RemoveIs(p.ring, n.addr);
    forall c | c in p.blocks && c != n ensures c.addr != n.addr { Apart(p.blocks, c, n); }
    forall a: nat ensures a in q.ring <==> FreeBlockAt(q.blocks, a) {
      if FreeBlockAt(q.blocks, a) {
        var c :| c in q.blocks && c.addr == a && c.free;
        assert c == m ==> FreeBlockAt(p.blocks, b.addr);
      }
      if a in q.ring {
        var c :| c in p.blocks && c.addr == a && c.free;
        if c == b { assert m.addr == a; } else { assert c in q.blocks; }
      }
    }
  }

  lemma JoinNextInv(p: Pool, k: nat)
    requires Shape(p) && k < |p.blocks| && p.blocks[k].free
    requires forall c, d :: c in p.blocks && d in p.blocks && Touch(c, d) ==> c == p.blocks[k]
    ensures Inv(JoinNext(p, k))
  {
    var q, b := JoinNext(p, k), p.blocks[k];
    if k + 1 < |p.blocks| && Touch(b, p.blocks[k+1]) {
      var n := p.blocks[k+1];
      JoinNextBlocks(p, k);
      JoinNextRing(p, k);
      var m := q.blocks[k];
      assert n in p.blocks && b in p.blocks;
      forall c, d | c in q.blocks && d in q.blocks ensures !Touch(c, d) {
        if Touch(c, d) {
          if c == m {
            if d != m { assert Touch(n, d); }
          } else {
            assert Touch(c, if d == m then b else d);
          }
        }
      }
    } else {
      forall c, d | c in p.blocks && d in p.blocks ensures !Touch(c, d) {
        if Touch(c, d) {
          var j :| 0 <= j < |p.blocks| && p.blocks[j] == d;
          Neighbour(p.blocks, j, b);
          Unique(p.blocks, j - 1, k);
        }
      }
    }
  }

  lemma FreeBlockInv(p: Pool, k: nat)
    requires Freeing(p, k)
    ensures Inv(FreeBlock(p, k))
  {
    var (q, i) := JoinPrev(p, k);
    JoinPrevBlocks(p, k);
    JoinPrevRing(p, k);
    JoinPrevMerged(p, k);
    JoinNextInv(q, i);
  }
}
