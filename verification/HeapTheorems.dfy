/** What malloc, free and add_malloc_block promise over whole runs. */
module HeapTheorems {
  import opened HeapSpec
  import opened HeapLemmas

  ghost function Extents(bs: seq<Block>, free: bool): set<Block> {
    set b | b in bs && b.free == free
  }

  /** b is a maximal interval of free bytes. */
  ghost predicate MaximalFree(bs: seq<Block>, b: Block) {
    && b.free && b.size > 0
    && (forall x :: b.addr <= x < b.End() ==> Owns(bs, true, x))
    && !Owns(bs, true, b.End())
    && (b.addr > 0 ==> !Owns(bs, true, b.addr - 1))
  }

  lemma FreeIsMaximal(p: Pool, b: Block)
    requires Inv(p) && b in p.blocks && b.free
    ensures MaximalFree(p.blocks, b)
  {
    if Owns(p.blocks, true, b.End()) {
      var c :| c in p.blocks && c.free && c.addr <= b.End() < c.End();
      Apart(p.blocks, b, c);
      assert Touch(b, c);
    }
    if b.addr > 0 && Owns(p.blocks, true, b.addr - 1) {
      var c :| c in p.blocks && c.free && c.addr <= b.addr - 1 < c.End();
      Apart(p.blocks, c, b);
      assert Touch(c, b);
    }
  }

  /** The free blocks are exactly the maximal intervals of free bytes. */
  lemma FreeBlocksAreMaximalRuns(p: Pool, b: Block)
    requires Inv(p)
    ensures b in Extents(p.blocks, true) <==> MaximalFree(p.blocks, b)
  {
    if b in p.blocks && b.free {
      FreeIsMaximal(p, b);
    }
    if MaximalFree(p.blocks, b) {
      assert Owns(p.blocks, true, b.addr);
      var c :| c in p.blocks && c.free && c.addr <= b.addr < c.End();
      FreeIsMaximal(p, c);
      assert c.addr <= b.addr - 1 < c.End() ==> Owns(p.blocks, true, b.addr - 1);
      assert b.End() < c.End() ==> Owns(p.blocks, true, b.End());
    }
  }

  /** So the set of free bytes alone determines the free blocks, whatever calls led to it. */
  lemma FreeBytesDetermineFreeBlocks(p: Pool, q: Pool)
    requires Inv(p) && Inv(q)
    requires forall x :: Owns(p.blocks, true, x) <==> Owns(q.blocks, true, x)
    ensures Extents(p.blocks, true) == Extents(q.blocks, true)
  {
    forall b ensures b in Extents(p.blocks, true) <==> b in Extents(q.blocks, true) {
      FreeBlocksAreMaximalRuns(p, b);
      FreeBlocksAreMaximalRuns(q, b);
    }
  }

  // ---------------------------------------------------------------- bytes

  lemma CarveBytes(p: Pool, k: nat, size: nat)
    requires Inv(p) && k < |p.blocks| && p.blocks[k].free && FREE_HDR <= size <= p.blocks[k].size
    ensures var q, t := Carve(p, k, size), Taken(p.blocks[k], size);
      && Extents(q.blocks, false) == Extents(p.blocks, false) + {t}
      && (forall x :: Owns(q.blocks, true, x) <==> Owns(p.blocks, true, x) && !(t.addr <= x < t.End()))
      && (forall x :: t.addr <= x < t.End() ==> Owns(p.blocks, true, x))
  {
    var q, b, t := Carve(p, k, size), p.blocks[k], Taken(p.blocks[k], size);
    CarveBlocks(p, k, size);
    assert b in p.blocks;
    forall x ensures Owns(q.blocks, true, x) <==> Owns(p.blocks, true, x) && !(t.addr <= x < t.End()) {
      if Owns(q.blocks, true, x) {
        var c :| c in q.blocks && c.free && c.addr <= x < c.End();
        if c in p.blocks && c != b { Apart(p.blocks, b, c); } else { assert b.addr <= x < b.End(); }
      }
      if Owns(p.blocks, true, x) && !(t.addr <= x < t.End()) {
        var c :| c in p.blocks && c.free && c.addr <= x < c.End();
        if c == b { assert Rest(b, size) in q.blocks; } else { assert c in q.blocks; }
      }
    }
  }

  lemma JoinPrevBytes(p: Pool, k: nat)
    requires Freeing(p, k)
    ensures var (q, i) := JoinPrev(p, k);
      && Extents(q.blocks, false) == Extents(p.blocks, false) - {p.blocks[k]}
      && (forall x :: Owns(q.blocks, true, x) <==> Owns(p.blocks, true, x) || p.blocks[k].addr <= x < p.blocks[k].End())
  {
    var (q, i) := JoinPrev(p, k);
    var b, m := p.blocks[k], q.blocks[i];
    JoinPrevBlocks(p, k);
    assert m in q.blocks && (k > 0 ==> p.blocks[k-1] in p.blocks);
    forall x ensures Owns(q.blocks, true, x) <==> Owns(p.blocks, true, x) || b.addr <= x < b.End() {
      if Owns(p.blocks, true, x) {
        var c :| c in p.blocks && c.free && c.addr <= x < c.End();
        if c !in q.blocks { assert m.addr <= x < m.End(); }
      }
    }
  }

  lemma JoinNextBytes(p: Pool, k: nat)
    requires Shape(p) && k < |p.blocks| && p.blocks[k].free
    ensures var q := JoinNext(p, k);
      && Extents(q.blocks, false) == Extents(p.blocks, false)
      && (forall x :: Owns(q.blocks, true, x) <==> Owns(p.blocks, true, x))
  {
    var q, b := JoinNext(p, k), p.blocks[k];
    if k + 1 < |p.blocks| && Touch(b, p.blocks[k+1]) {
      var n := p.blocks[k+1];
      JoinNextBlocks(p, k);
      var m := q.blocks[k];
      assert m in q.blocks && b in p.blocks && n in p.blocks;
      forall x ensures Owns(q.blocks, true, x) <==> Owns(p.blocks, true, x) {
        if Owns(p.blocks, true, x) {
          var c :| c in p.blocks && c.free && c.addr <= x < c.End();
          if c !in q.blocks { assert m.addr <= x < m.End(); }
        }
      }
    }
  }

  /** Freeing a block hands over exactly its bytes and touches no other block in use. */
  lemma FreeBlockBytes(p: Pool, k: nat)
    requires Freeing(p, k)
    ensures var q := FreeBlock(p, k);
      && Inv(q)
      && Extents(q.blocks, false) == Extents(p.blocks, false) - {p.blocks[k]}
      && (forall x :: Owns(q.blocks, true, x) <==> Owns(p.blocks, true, x) || p.blocks[k].addr <= x < p.blocks[k].End())
  {
    var (q, i) := JoinPrev(p, k);
    FreeBlockInv(p, k);
    JoinPrevBlocks(p, k);
    JoinPrevRing(p, k);
    JoinPrevBytes(p, k);
    JoinNextBytes(q, i);
  }

  // ---------------------------------------------------------------- single calls

  /** The free block behind an entry of the free ring. */
  lemma RingEntry(p: Pool, i: nat) returns (b: Block)
    requires Inv(p) && i < |p.ring|
    ensures b in p.blocks && b.free && b.addr == p.ring[i] && SizeAt(p.blocks, p.ring[i]) == b.size
    ensures IndexOf(p.blocks, p.ring[i]) < |p.blocks| && p.blocks[IndexOf(p.blocks, p.ring[i])] == b
  {
    assert p.ring[i] in p.ring;
    b :| b in p.blocks && b.addr == p.ring[i] && b.free;
    IndexFinds(p.blocks, b);
  }

  /** malloc returns NULL only for size 0 or when no free block is large enough. */
  lemma NullIffNoFit(p: Pool, n: nat)
    requires Inv(p)
    ensures Malloc(p, n).1 == 0 <==> n == 0 || forall b :: b in p.blocks && b.free ==> b.size < RoundUp(n)
  {
    if n > 0 {
      var j := FirstFit(p, RoundUp(n), 0);
      if j < |p.ring| {
        var b := RingEntry(p, j);
      } else {
        forall b | b in p.blocks && b.free ensures b.size < RoundUp(n) {
          assert FreeBlockAt(p.blocks, b.addr);
          var i :| 0 <= i < |p.ring| && p.ring[i] == b.addr;
          IndexFinds(p.blocks, b);
        }
      }
    }
  }

  /** What malloc hands out: a block t in use with room for the request behind its header, all of it
      free before; the other blocks in use stay as they are. */
  ghost predicate HandsOut(p: Pool, q: Pool, ptr: nat, n: nat, t: Block) {
    && !t.free && ptr == t.addr + HDR && ptr + n <= t.End()
    && t !in Extents(p.blocks, false)
    && Extents(q.blocks, false) == Extents(p.blocks, false) + {t}
    && (forall x :: t.addr <= x < t.End() ==> Owns(p.blocks, true, x))
    && (forall x :: Owns(q.blocks, true, x) <==> Owns(p.blocks, true, x) && !(t.addr <= x < t.End()))
  }

  /** How a free block b serves a request for size bytes: if it has two headers to spare it is cut to that size, and the
      other bytes are one free block that takes its place on the ring, at j; otherwise it is handed out as it is. */
  ghost predicate CutFrom(p: Pool, q: Pool, b: Block, j: nat, size: nat, t: Block) {
    && b in Extents(p.blocks, true) && b.addr == t.addr && j < |p.ring| && p.ring[j] == b.addr && size <= b.size
    && if b.size >= size + 2 * HDR then
         var rest := Block(t.End(), b.size - size, true);
         t.size == size && Extents(q.blocks, true) == Extents(p.blocks, true) - {b} + {rest} && q.ring == p.ring[j := rest.addr]
       else t.size == b.size && Extents(q.blocks, true) == Extents(p.blocks, true) - {b} && q.ring == p.ring[..j] + p.ring[j+1..]
  }

  /** No entry of the ring before j has size bytes. */
  ghost predicate FirstWith(p: Pool, j: nat, size: nat) {
    forall i, c :: 0 <= i < j && i < |p.ring| && c in p.blocks && c.free && c.addr == p.ring[i] ==> c.size < size
  }

  lemma CarveCuts(p: Pool, k: nat, size: nat, j: nat)
    requires Inv(p) && k < |p.blocks| && p.blocks[k].free && FREE_HDR <= size <= p.blocks[k].size
    requires j < |p.ring| && p.ring[j] == p.blocks[k].addr
    ensures CutFrom(p, Carve(p, k, size), p.blocks[k], j, size, Taken(p.blocks[k], size))
  {
    var b := p.blocks[k];
    CarveBlocks(p, k, size);
    RemoveAt(p.ring, j);
    ReplaceAt(p.ring, j, b.addr + size);
    OtherAddresses(p.blocks, b);
  }

  lemma FitIsFirst(p: Pool, size: nat)
    requires Inv(p)
    ensures FirstWith(p, FirstFit(p, size, 0), size)
  {
    forall c | c in p.blocks && c.free ensures SizeAt(p.blocks, c.addr) == c.size { IndexFinds(p.blocks, c); }
  }

  /** malloc serves the request from the first block of the ring that holds it, and from no more of it than it must. */
  lemma MallocHandsOut(p: Pool, n: nat) returns (t: Block, b: Block, j: nat)
    requires Inv(p)
    ensures var (q, ptr) := Malloc(p, n);
      Inv(q) && if ptr == 0 then q == p
                else HandsOut(p, q, ptr, n, t) && CutFrom(p, q, b, j, RoundUp(n), t) && FirstWith(p, j, RoundUp(n))
  {
    var (q, ptr) := Malloc(p, n);
    t, b, j := Block(0, 0, false), Block(0, 0, true), 0;
    if ptr != 0 {
      var size := RoundUp(n);
      j := FirstFit(p, size, 0);
      b := RingEntry(p, j);
      var k := IndexOf(p.blocks, b.addr);
      CarveInv(p, k, size);
      CarveBytes(p, k, size);
      CarveCuts(p, k, size, j);
      FitIsFirst(p, size);
      t := Taken(b, size);
      if t in p.blocks { Apart(p.blocks, b, t); }
    }
  }

  ghost predicate FreeEndsAt(bs: seq<Block>, a: nat) {
    exists c :: c in bs && c.free && c.End() == a
  }

  /** The ring once the bytes from lo to hi are free: what they join in front keeps its place, otherwise they come first;
      what they join behind leaves the ring. */
  ghost function RingWith(p: Pool, lo: nat, hi: nat): seq<nat> {
    Remove(if FreeEndsAt(p.blocks, lo) then p.ring else [lo] + p.ring, hi)
  }

  lemma {:induction false} RemoveNone(r: seq<nat>, a: nat)
    requires a !in r
    ensures Remove(r, a) == r
  {
    if r != [] { RemoveNone(r[1..], a); }
  }

  lemma FreeBlockRing(p: Pool, k: nat)
    requires Freeing(p, k)
    ensures FreeBlock(p, k).ring == RingWith(p, p.blocks[k].addr, p.blocks[k].End())
  {
    var (q, i) := JoinPrev(p, k);
    var b, m := p.blocks[k], q.blocks[i];
    JoinPrevBlocks(p, k);
    JoinPrevRing(p, k);
    assert JoinsPrev(p, k) ==> p.blocks[k-1] in p.blocks;
    if c :| c in p.blocks && c.free && c.End() == b.addr { Neighbour(p.blocks, k, c); }
    if !(i + 1 < |q.blocks| && Touch(m, q.blocks[i+1])) {
      if b.End() in q.ring {
        var c :| c in q.blocks && c.addr == b.End() && c.free;
        var j :| 0 <= j < |q.blocks| && q.blocks[j] == c;
        assert m in q.blocks;
        Neighbour(q.blocks, j, m);
        Unique(q.blocks, j - 1, i);
        assert false;
      }
      RemoveNone(q.ring, b.End());
    }
  }

  /** free: the block behind ptr, and only it, leaves the blocks in use, and its bytes become free. */
  lemma FreeReturns(p: Pool, b: Block)
    requires Inv(p) && b in p.blocks && !b.free
    ensures var q := Free(p, b.addr + HDR);
      && Inv(q)
      && Extents(q.blocks, false) == Extents(p.blocks, false) - {b}
      && (forall x :: Owns(q.blocks, true, x) <==> Owns(p.blocks, true, x) || b.addr <= x < b.End())
      && q.ring == RingWith(p, b.addr, b.End())
  {
    IndexFinds(p.blocks, b);
    FreeBlockBytes(p, IndexOf(p.blocks, b.addr));
    FreeBlockRing(p, IndexOf(p.blocks, b.addr));
  }

  /** A block that joins nothing when it is freed serves the next request that fits: malloc gives the same pointer again. */
  lemma FreedServesNext(p: Pool, b: Block, n: nat)
    requires Inv(p) && b in p.blocks && !b.free && 0 < n && RoundUp(n) <= b.size
    requires !FreeEndsAt(p.blocks, b.addr) && !FreeBlockAt(p.blocks, b.End())
    ensures Malloc(Free(p, b.addr + HDR), n).1 == b.addr + HDR
  {
    var q := Free(p, b.addr + HDR);
    FreeReturns(p, b);
    RemoveNone([b.addr] + p.ring, b.End());
    assert Owns(q.blocks, true, b.addr);
    var c := RingEntry(q, 0);
    FreeIsMaximal(q, c);
    assert b.addr <= c.End() < b.End() ==> Owns(q.blocks, true, c.End());
  }

  /** Freeing what malloc just returned restores every free and every used block. */
  lemma MallocThenFree(p: Pool, n: nat)
    requires Inv(p) && Malloc(p, n).1 != 0
    ensures var (q, ptr) := Malloc(p, n);
      Live(q, ptr) && forall f :: Extents(Free(q, ptr).blocks, f) == Extents(p.blocks, f)
  {
    var (q, ptr) := Malloc(p, n);
    var t, b, j := MallocHandsOut(p, n);
    assert t in Extents(q.blocks, false);
    FreeReturns(q, t);
    FreeBytesDetermineFreeBlocks(p, Free(q, ptr));
    forall f ensures Extents(Free(q, ptr).blocks, f) == Extents(p.blocks, f) {
      assert f || !f;
    }
  }

  // ---------------------------------------------------------------- regions

  /** The region lies clear of every block of the pool. */
  ghost predicate Clear(p: Pool, buf: nat, size: nat) {
    forall b :: b in p.blocks ==> b.End() <= buf || buf + size <= b.addr
  }

  function Inserted(p: Pool, buf: nat, size: nat): Pool {
    var k := InsertPos(p.blocks, buf);
    Pool(p.blocks[..k] + [Block(buf, size, false)] + p.blocks[k..], p.ring)
  }

  lemma InsertSorted(A: seq<Block>, n: Block, B: seq<Block>)
    requires Sorted(A + B)
    requires (forall b :: b in A ==> b.End() <= n.addr) && (forall b :: b in B ==> n.End() <= b.addr)
    ensures Sorted(A + [n] + B)
    ensures forall b :: b in A + [n] + B <==> b in A + B || b == n
  {
    SortedConcat(A, B);
    SortedThree(A, [n], B);
  }

  lemma InsertPosSplits(p: Pool, buf: nat, size: nat)
    requires Inv(p) && FREE_HDR <= size && Clear(p, buf, size)
    ensures var k := InsertPos(p.blocks, buf);
      (forall b :: b in p.blocks[..k] ==> b.End() <= buf) && (forall b :: b in p.blocks[k..] ==> buf + size <= b.addr)
  {
    var k := InsertPos(p.blocks, buf);
    SortedAt(p.blocks);
    forall b | b in p.blocks[..k] ensures b.End() <= buf {
      var i :| 0 <= i < k && p.blocks[i] == b;
      assert p.blocks[k-1] in p.blocks && b in p.blocks;
    }
    forall b | b in p.blocks[k..] ensures buf + size <= b.addr {
      assert b in p.blocks;
    }
  }

  lemma InsertBlocks(p: Pool, buf: nat, size: nat)
    requires Inv(p) && FREE_HDR <= size && Clear(p, buf, size)
    ensures var q, n := Inserted(p, buf, size), Block(buf, size, false);
      Sorted(q.blocks) && forall b :: b in q.blocks <==> b in p.blocks || b == n
  {
    var k, n := InsertPos(p.blocks, buf), Block(buf, size, false);
    InsertPosSplits(p, buf, size);
    assert p.blocks[..k] + p.blocks[k..] == p.blocks;
    InsertSorted(p.blocks[..k], n, p.blocks[k..]);
  }

  lemma InsertKeeps(p: Pool, buf: nat, size: nat)
    requires Inv(p) && FREE_HDR <= size && Clear(p, buf, size)
    ensures var q, n := Inserted(p, buf, size), Block(buf, size, false);
      && Freeing(q, InsertPos(p.blocks, buf))
      && q.blocks[InsertPos(p.blocks, buf)] == n
      && n !in p.blocks
      && forall b :: b in q.blocks <==> b in p.blocks || b == n
  {
    InsertBlocks(p, buf, size);
    var q := Inserted(p, buf, size);
    forall a: nat ensures FreeBlockAt(q.blocks, a) <==> FreeBlockAt(p.blocks, a) {
      if FreeBlockAt(p.blocks, a) { var c :| c in p.blocks && c.addr == a && c.free; assert c in q.blocks; }
    }
  }

  /** add_malloc_block: the bytes of the region become free, nothing else changes. */
  lemma AddGives(p: Pool, buf: nat, size: nat)
    requires Inv(p) && Clear(p, buf, size)
    ensures var q := Add(p, buf, size);
      && Inv(q)
      && Extents(q.blocks, false) == Extents(p.blocks, false)
      && forall x :: Owns(q.blocks, true, x) <==> Owns(p.blocks, true, x) || (FREE_HDR <= size && buf <= x < buf + size)
  {
    if FREE_HDR <= size {
      InsertKeeps(p, buf, size);
      var m := Inserted(p, buf, size);
      FreeBlockBytes(m, InsertPos(p.blocks, buf));
      forall x ensures Owns(m.blocks, true, x) <==> Owns(p.blocks, true, x) {
        if Owns(p.blocks, true, x) {
          var c :| c in p.blocks && c.free && c.addr <= x < c.End();
          assert c in m.blocks;
        }
      }
    }
  }

  /** A region enters the ring as a freed block does. */
  lemma AddRing(p: Pool, buf: nat, size: nat)
    requires Inv(p) && Clear(p, buf, size)
    ensures Add(p, buf, size).ring == if FREE_HDR <= size then RingWith(p, buf, buf + size) else p.ring
  {
    hide Inv, Inserted, Sorted, Freeing, FreeBlock, InsertPos;
    if FREE_HDR <= size {
      InsertKeeps(p, buf, size);
      FreeBlockRing(Inserted(p, buf, size), InsertPos(p.blocks, buf));
      AddIsInsertion(p, buf, size);
      SameFreeEnds(p.blocks, Inserted(p, buf, size).blocks, Block(buf, size, false), buf);
    }
  }

  lemma AddIsInsertion(p: Pool, buf: nat, size: nat)
    requires FREE_HDR <= size
    ensures Add(p, buf, size) == FreeBlock(Inserted(p, buf, size), InsertPos(p.blocks, buf))
    ensures Inserted(p, buf, size).ring == p.ring
  {}

  lemma SameFreeEnds(bs: seq<Block>, cs: seq<Block>, n: Block, a: nat)
    requires !n.free && forall b :: b in cs <==> b in bs || b == n
    ensures FreeEndsAt(cs, a) <==> FreeEndsAt(bs, a)
  {
    if c :| c in bs && c.free && c.End() == a { assert c in cs; }
  }

  // ---------------------------------------------------------------- runs

  datatype Op = AddRegion(buf: nat, size: nat) | Alloc(n: nat) | Release(ptr: nat)

  ghost predicate Legal(p: Pool, op: Op) {
    match op
    case AddRegion(buf, size) => Clear(p, buf, size)
    case Alloc(_) => true
    case Release(ptr) => ptr == 0 || Live(p, ptr)
  }

  function Step(p: Pool, op: Op): Pool
    requires Legal(p, op)
  {
    match op
    case AddRegion(buf, size) => Add(p, buf, size)
    case Alloc(n) => Malloc(p, n).0
    case Release(ptr) => Free(p, ptr)
  }

  /** A run of calls, the latest on the outside. */
  datatype Run = Start | Then(before: Run, op: Op)

  ghost predicate LegalRun(run: Run)
    decreases run, 0
  {
    run.Start? || (LegalRun(run.before) && Legal(After(run.before), run.op))
  }

  ghost function After(run: Run): Pool
    requires LegalRun(run)
    decreases run, 1
  {
    if run.Start? then EMPTY else Step(After(run.before), run.op)
  }

  ghost predicate Gives(op: Op, x: int) {
    op.AddRegion? && FREE_HDR <= op.size && op.buf <= x < op.buf + op.size
  }

  /** Byte x belongs to a region the run handed to add_malloc_block (and that was not too small). */
  ghost predicate Given(run: Run, x: int) {
    run.Then? && (Given(run.before, x) || Gives(run.op, x))
  }

  lemma OwnsUsed(p: Pool, x: int)
    ensures Owns(p.blocks, false, x) <==> exists b :: b in Extents(p.blocks, false) && b.addr <= x < b.End()
  {
    if Owns(p.blocks, false, x) {
      var b :| b in p.blocks && b.free == false && b.addr <= x < b.End();
      assert b in Extents(p.blocks, false);
    }
  }

  lemma StepInv(p: Pool, op: Op)
    requires Inv(p) && Legal(p, op)
    ensures Inv(Step(p, op))
  {
    match op
    case AddRegion(buf, size) => AddGives(p, buf, size);
    case Alloc(n) => var t, b, j := MallocHandsOut(p, n);
    case Release(ptr) =>
      if ptr != 0 {
        var b :| b in p.blocks && !b.free && ptr == b.addr + HDR;
        FreeReturns(p, b);
      }
  }

  lemma UsedBytesAdd(p: Pool, q: Pool, b: Block, x: int)
    requires Extents(q.blocks, false) == Extents(p.blocks, false) + {b}
    ensures Owns(q.blocks, false, x) <==> Owns(p.blocks, false, x) || b.addr <= x < b.End()
  {
    OwnsUsed(p, x);
    OwnsUsed(q, x);
    if Owns(p.blocks, false, x) {
      var c :| c in Extents(p.blocks, false) && c.addr <= x < c.End();
      assert c in Extents(q.blocks, false);
    }
    assert b in Extents(q.blocks, false);
  }

  ghost predicate Held(p: Pool, x: int) { Owns(p.blocks, true, x) || Owns(p.blocks, false, x) }

  /** One call moves bytes between free and used and adds those of a new region; none is lost. */
  lemma StepBytes(p: Pool, op: Op, x: int)
    requires Inv(p) && Legal(p, op)
    ensures Held(Step(p, op), x) <==> Held(p, x) || Gives(op, x)
  {
    var q := Step(p, op);
    match op
    case AddRegion(buf, size) =>
      AddGives(p, buf, size);
      OwnsUsed(p, x);
      OwnsUsed(q, x);
    case Alloc(n) =>
      var t, b, j := MallocHandsOut(p, n);
      if Malloc(p, n).1 != 0 { UsedBytesAdd(p, q, t, x); }
    case Release(ptr) =>
      if ptr != 0 {
        var b :| b in p.blocks && !b.free && ptr == b.addr + HDR;
        FreeReturns(p, b);
        assert b in Extents(p.blocks, false);
        assert Extents(p.blocks, false) == Extents(q.blocks, false) + {b};
        UsedBytesAdd(q, p, b, x);
      }
  }

  /** In every run the invariant holds. */
  lemma {:induction false} RunsKeepInvariant(run: Run)
    requires LegalRun(run)
    ensures Inv(After(run))
  {
    if run.Then? {
      RunsKeepInvariant(run.before);
      StepInv(After(run.before), run.op);
    }
  }

  /** In every run the blocks tile exactly the regions that were added. */
  lemma {:induction false} BlocksTileRegions(run: Run, x: int)
    requires LegalRun(run)
    ensures Held(After(run), x) <==> Given(run, x)
  {
    if run.Then? {
      BlocksTileRegions(run.before, x);
      RunsKeepInvariant(run.before);
      StepBytes(After(run.before), run.op, x);
    }
  }

  /** A maximal interval of the added regions. */
  ghost predicate MaximalGiven(run: Run, b: Block) {
    && b.free && b.size > 0
    && (forall x :: b.addr <= x < b.End() ==> Given(run, x))
    && !Given(run, b.End())
    && (b.addr > 0 ==> !Given(run, b.addr - 1))
  }

  /** Once every pointer is freed, in whatever order, the heap consists of the maximal merges of the
      added regions and nothing else. */
  lemma AllFreedIsMaximalRegions(run: Run, b: Block)
    requires LegalRun(run) && forall ptr :: !Live(After(run), ptr)
    ensures b in After(run).blocks <==> MaximalGiven(run, b)
  {
    var p := After(run);
    RunsKeepInvariant(run);
    forall c | c in p.blocks ensures c.free {
      if !c.free { assert Live(p, c.addr + HDR); }
    }
    FreeBlocksAreMaximalRuns(p, b);
    forall x ensures Owns(p.blocks, true, x) <==> Given(run, x) {
      BlocksTileRegions(run, x);
    }
  }

  // ---------------------------------------------------------------- totals

  function Total(bs: seq<Block>): nat {
    if bs == [] then 0 else bs[0].size + Total(bs[1..])
  }

  function Added(run: Run): nat {
    if run.Start? then 0
    else Added(run.before) + if run.op.AddRegion? && FREE_HDR <= run.op.size then run.op.size else 0
  }

  lemma {:induction false} TotalConcat(a: seq<Block>, b: seq<Block>)
    ensures Total(a + b) == Total(a) + Total(b)
  {
    if a == [] {
      assert a + b == b;
    } else {
      assert (a + b)[1..] == a[1..] + b;
      TotalConcat(a[1..], b);
    }
  }

  lemma TotalSplice(bs: seq<Block>, lo: nat, hi: nat, mid: seq<Block>)
    requires lo <= hi <= |bs|
    ensures Total(bs[..lo] + mid + bs[hi..]) == Total(bs) - Total(bs[lo..hi]) + Total(mid)
  {
    assert bs == bs[..lo] + bs[lo..hi] + bs[hi..];
    TotalConcat(bs[..lo] + bs[lo..hi], bs[hi..]);
    TotalConcat(bs[..lo], bs[lo..hi]);
    TotalConcat(bs[..lo] + mid, bs[hi..]);
    TotalConcat(bs[..lo], mid);
  }

  lemma TotalPair(bs: seq<Block>, k: nat)
    requires k + 1 < |bs|
    ensures Total(bs[k..k+2]) == bs[k].size + bs[k+1].size
  {
    assert bs[k..k+2] == [bs[k]] + [bs[k+1]];
    TotalConcat([bs[k]], [bs[k+1]]);
  }

  lemma FreeBlockTotal(p: Pool, k: nat)
    requires k < |p.blocks|
    ensures Total(FreeBlock(p, k).blocks) == Total(p.blocks)
  {
    JoinPrevTotal(p, k);
    JoinNextTotal(JoinPrev(p, k).0, JoinPrev(p, k).1);
  }

  lemma CarveTotal(p: Pool, k: nat, size: nat)
    requires k < |p.blocks| && size <= p.blocks[k].size
    ensures Total(Carve(p, k, size).blocks) == Total(p.blocks)
  {
    var ps := Pieces(p.blocks[k], size);
    TotalSplice(p.blocks, k, k + 1, ps);
    if |ps| == 2 { TotalPair(ps, 0); assert ps[0..2] == ps; }
  }

  lemma JoinPrevTotal(p: Pool, k: nat)
    requires k < |p.blocks|
    ensures Total(JoinPrev(p, k).0.blocks) == Total(p.blocks)
  {
    var q := JoinPrev(p, k).0;
    if JoinsPrev(p, k) {
      TotalSplice(p.blocks, k - 1, k + 1, [Block(p.blocks[k-1].addr, p.blocks[k-1].size + p.blocks[k].size, true)]);
      TotalPair(p.blocks, k - 1);
    } else {
      TotalSplice(p.blocks, k, k + 1, [p.blocks[k].(free := true)]);
    }
  }

  lemma JoinNextTotal(p: Pool, k: nat)
    requires k < |p.blocks|
    ensures Total(JoinNext(p, k).blocks) == Total(p.blocks)
  {
    var q, b := JoinNext(p, k), p.blocks[k];
    if k + 1 < |p.blocks| && p.blocks[k+1].free && b.End() == p.blocks[k+1].addr {
      TotalSplice(p.blocks, k, k + 2, [b.(size := b.size + p.blocks[k+1].size)]);
      TotalPair(p.blocks, k);
    }
  }

  lemma MallocTotal(p: Pool, n: nat)
    requires Inv(p)
    ensures Total(Malloc(p, n).0.blocks) == Total(p.blocks)
  {
    if Malloc(p, n).1 != 0 {
      var b := RingEntry(p, FirstFit(p, RoundUp(n), 0));
      CarveTotal(p, IndexOf(p.blocks, b.addr), RoundUp(n));
    }
  }

  lemma ReleaseTotal(p: Pool, ptr: nat)
    requires Inv(p) && (ptr == 0 || Live(p, ptr))
    ensures Total(Free(p, ptr).blocks) == Total(p.blocks)
  {
    if ptr != 0 { FreeBlockTotal(p, IndexOf(p.blocks, ptr - HDR)); }
  }

  lemma AddTotal(p: Pool, buf: nat, size: nat)
    requires FREE_HDR <= size
    ensures Total(Add(p, buf, size).blocks) == Total(p.blocks) + size
  {
    var k := InsertPos(p.blocks, buf);
    TotalSplice(p.blocks, k, k, [Block(buf, size, false)]);
    FreeBlockTotal(Inserted(p, buf, size), k);
  }

  /** The block sizes always add up to the bytes given. */
  lemma {:induction false} SizesAddUp(run: Run)
    requires LegalRun(run)
    ensures Total(After(run).blocks) == Added(run)
  {
    if run.Then? {
      SizesAddUp(run.before);
      RunsKeepInvariant(run.before);
      var p := After(run.before);
      match run.op
      case AddRegion(buf, size) => if FREE_HDR <= size { AddTotal(p, buf, size); }
      case Alloc(n) => MallocTotal(p, n);
      case Release(ptr) => ReleaseTotal(p, ptr);
    }
  }
}
