/** The heap of malloc.c as a value: the blocks in address order and the order of the free ring.
    The class in Heap.dfy works on headers in memory and is proved to follow these functions;
    what malloc and free promise over whole runs is proved here about the functions. */
module HeapSpec {

  // sizeof(struct arena_header) and sizeof(struct free_arena_header) on the 32-bit target
  const HDR: nat := 16
  const FREE_HDR: nat := 24

  datatype Block = Block(addr: nat, size: nat, free: bool) {
    function End(): nat { addr + size }
  }

  /** ring holds the addresses of the free blocks in the order of the free ring. */
  datatype Pool = Pool(blocks: seq<Block>, ring: seq<nat>)

  const EMPTY := Pool([], [])

  /** The main ring: increasing addresses, no overlap. */
  ghost predicate Sorted(bs: seq<Block>) {
    bs != [] ==> (forall c :: c in bs[1..] ==> bs[0].End() <= c.addr) && Sorted(bs[1..])
  }

  /** Every block can hold a free header. */
  ghost predicate Sized(bs: seq<Block>) {
    forall b :: b in bs ==> FREE_HDR <= b.size
  }

  ghost predicate Touch(b: Block, c: Block) {
    b.free && c.free && b.End() == c.addr
  }

  /** No two free blocks touch. */
  ghost predicate Merged(bs: seq<Block>) {
    forall b, c :: b in bs && c in bs ==> !Touch(b, c)
  }

  ghost predicate FreeBlockAt(bs: seq<Block>, a: nat) {
    exists b :: b in bs && b.addr == a && b.free
  }

  ghost predicate Distinct(r: seq<nat>) {
    r != [] ==> r[0] !in r[1..] && Distinct(r[1..])
  }

  /** The free ring holds exactly the free blocks, each once. */
  ghost predicate RingIs(bs: seq<Block>, r: seq<nat>) {
    Distinct(r) && forall a: nat :: a in r <==> FreeBlockAt(bs, a)
  }

  ghost predicate Shape(p: Pool) {
    match p case Pool(blocks, ring) => Sorted(blocks) && Sized(blocks) && RingIs(blocks, ring)
  }

  /** The invariant of malloc.c between calls. */
  ghost predicate Inv(p: Pool) {
    match p case Pool(blocks, _) => Shape(p) && Merged(blocks)
  }

  /** Byte x belongs to a block that is free, or used. */
  ghost predicate Owns(bs: seq<Block>, free: bool, x: int) {
    exists b :: b in bs && b.free == free && b.addr <= x < b.End()
  }

  /** ptr was returned by malloc and not freed since. */
  ghost predicate Live(p: Pool, ptr: nat) {
    exists b :: b in p.blocks && !b.free && ptr == b.addr + HDR
  }

  // ---------------------------------------------------------------- operations

  /** The request with its header, up to the next multiple of the header size. */
  function RoundUp(n: nat): (r: nat)
    ensures r % HDR == 0 && n + HDR <= r < n + 2 * HDR
  {
    (n + 2 * HDR - 1) / HDR * HDR
  }

  function IndexOf(bs: seq<Block>, a: nat): (k: nat)
    ensures k <= |bs|
    ensures k < |bs| ==> bs[k].addr == a
    ensures forall i :: 0 <= i < k ==> bs[i].addr != a
  {
    if bs == [] then 0 else if bs[0].addr == a then 0 else 1 + IndexOf(bs[1..], a)
  }

  function Remove(r: seq<nat>, a: nat): seq<nat> {
    if r == [] then [] else if r[0] == a then r[1..] else [r[0]] + Remove(r[1..], a)
  }

  function Replace(r: seq<nat>, a: nat, b: nat): seq<nat> {
    if r == [] then [] else if r[0] == a then [b] + r[1..] else [r[0]] + Replace(r[1..], a, b)
  }

  predicate Splits(b: Block, size: nat) { b.size >= size + 2 * HDR }

  /** The block that serves a request of size bytes from b: a part of b when the rest can hold a free
      header with room to spare, otherwise all of it. */
  function Taken(b: Block, size: nat): Block {
    Block(b.addr, if Splits(b, size) then size else b.size, false)
  }

  function Rest(b: Block, size: nat): Block
    requires Splits(b, size)
  {
    Block(b.addr + size, b.size - size, true)
  }

  function Pieces(b: Block, size: nat): seq<Block> {
    if Splits(b, size) then [Taken(b, size), Rest(b, size)] else [Taken(b, size)]
  }

  /** __malloc_from_block on block k. */
  function Carve(p: Pool, k: nat, size: nat): Pool
    requires k < |p.blocks|
  {
    var b := p.blocks[k];
    Pool(p.blocks[..k] + Pieces(b, size) + p.blocks[k+1..],
         if Splits(b, size) then Replace(p.ring, b.addr, b.addr + size) else Remove(p.ring, b.addr))
  }

  function SizeAt(bs: seq<Block>, a: nat): nat {
    var k := IndexOf(bs, a);
    if k < |bs| then bs[k].size else 0
  }

  /** The first block of the free ring from position j on that holds size bytes. */
  function FirstFit(p: Pool, size: nat, j: nat): (r: nat)
    requires j <= |p.ring|
    ensures j <= r <= |p.ring|
    ensures forall i :: j <= i < r ==> SizeAt(p.blocks, p.ring[i]) < size
    ensures r < |p.ring| ==> SizeAt(p.blocks, p.ring[r]) >= size
    decreases |p.ring| - j
  {
    if j == |p.ring| || SizeAt(p.blocks, p.ring[j]) >= size then j else FirstFit(p, size, j + 1)
  }

  /** The first fit for size bytes, headers included, is carved. */
  function Serve(p: Pool, size: nat): (Pool, nat)
    requires size > 0
  {
    var j := FirstFit(p, size, 0);
    if j == |p.ring| then (p, 0)
    else (Carve(p, IndexOf(p.blocks, p.ring[j]), size), p.ring[j] + HDR)
  }

  /** malloc: the new pool and the pointer, 0 for NULL. */
  function Malloc(p: Pool, n: nat): (Pool, nat) {
    if n == 0 then (p, 0) else Serve(p, RoundUp(n))
  }

  /** The first half of __free_block: block k joins a free block that ends at it, or enters the ring. */
  function JoinPrev(p: Pool, k: nat): (Pool, nat)
    requires k < |p.blocks|
  {
    var b := p.blocks[k];
    if k > 0 && p.blocks[k-1].free && p.blocks[k-1].End() == b.addr then
      (Pool(p.blocks[..k-1] + [Block(p.blocks[k-1].addr, p.blocks[k-1].size + b.size, true)] + p.blocks[k+1..], p.ring),
       k - 1)
    else
      (Pool(p.blocks[..k] + [b.(free := true)] + p.blocks[k+1..], [b.addr] + p.ring), k)
  }

  /** The second half: a free block that starts where block k ends is absorbed. */
  function JoinNext(p: Pool, k: nat): Pool
    requires k < |p.blocks|
  {
    var b := p.blocks[k];
    if k + 1 < |p.blocks| && p.blocks[k+1].free && b.End() == p.blocks[k+1].addr then
      Pool(p.blocks[..k] + [b.(size := b.size + p.blocks[k+1].size)] + p.blocks[k+2..],
           Remove(p.ring, p.blocks[k+1].addr))
    else p
  }

  function FreeBlock(p: Pool, k: nat): Pool
    requires k < |p.blocks|
  {
    var (q, k') := JoinPrev(p, k);
    JoinNext(q, k')
  }

  /** free(ptr). */
  function Free(p: Pool, ptr: nat): Pool
    requires ptr == 0 || Live(p, ptr)
  {
    if ptr == 0 then p else FreeBlock(p, IndexOf(p.blocks, ptr - HDR))
  }

  /** The number of blocks before address a. */
  function InsertPos(bs: seq<Block>, a: nat): (k: nat)
    ensures k <= |bs|
    ensures k > 0 ==> bs[k-1].addr < a
    ensures forall i :: k <= i < |bs| ==> a <= bs[i].addr
  {
    if bs == [] then 0
    else if bs[|bs|-1].addr < a then |bs| else InsertPos(bs[..|bs|-1], a)
  }

  /** add_malloc_block(buf, size). */
  function Add(p: Pool, buf: nat, size: nat): Pool {
    if size < FREE_HDR then p
    else
      var k := InsertPos(p.blocks, buf);
      FreeBlock(Pool(p.blocks[..k] + [Block(buf, size, false)] + p.blocks[k..], p.ring), k)
  }
}
