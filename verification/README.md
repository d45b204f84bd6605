# Models and proofs for the depth-inference SoC software

A Dafny model of the parts of the repository whose correctness is hardest to see: the libc heap, CoreMark's list
code, crossbar elaboration and address compaction, the integer real arithmetic, the fixed-point kernels and
producers, the accelerator driver with the engine code that uses it, the console ring, and three small libc
algorithms. Code that works in place is modelled as classes and methods over fields, arrays and linked cells, each
proved against a specification function or a stated property; what the code promises over whole runs is proved as
lemmas about those. `dafny verify dfyconfig.toml` verifies the whole project.

| area | files |
|---|---|
| heap | `HeapSpec.dfy` (the heap as a value), `HeapLemmas.dfy` (its invariant), `HeapTheorems.dfy` (whole runs), `Heap.dfy` (headers in memory, two intrusive rings) |
| CoreMark lists | `StableRuns.dfy` (runs of a merge), `CoreList.dfy` (cells, comparisons, mergesort), `CoreBench.dfy` (searching, reversing, removing), `CoreCrc.dfy` (the CRC), `CorePass.dfy` (the benchmark pass) |
| crossbar | `XbarGraph.dfy` (nodes and edges), `XbarPlan.dfy` (the chains that grow), `XbarReach.dfy` (paths), `XbarShape.dfy` (the result and its lookups), `Crossbar.dfy` (the elaboration), `AddrMap.dfy` (address compaction) |
| integer reals | `Bits.dfy`, `Xf.dfy`, `XfRsqrt.dfy` |
| kernels and producers | `Fixed.dfy`, `Interp.dfy`, `InterpProducer.dfy`, `InterpLerp.dfy`, `Attention.dfy` |
| shared arithmetic | `Words.dfy` (32- and 64-bit words), `Arith.dfy` (rows of equal length) |
| accelerator | `AccelMath.dfy` (products), `AccelConv.dfy` (im2col and gathering), `Accel.dfy` (the block and its driver), `AccelEngine.dfy` (GEMMs left running by the engine) |
| console | `HostIo.dfy` |
| libc algorithms | `CombSort.dfy`, `Text.dfy` |

Conventions. Integers are unbounded; where the C code works in 32 or 64 bits the model writes the reduction out
(`I32`, `U32`, `U64`, or a 16-bit `Word`) and where a 32-bit form is claimed not to wrap that is a proved statement.
Arithmetic right shifts are `Asr`, logical ones `Right`, left shifts `Left`. `seq` arguments marked `ghost`
name the cells or values a method works on, in order. The accelerator is a block that may decline a job, finish it,
or fail it, in every case as it likes; what a job computes follows `src/sw/project/dav2_accel.h:28-58` and `88-98`.

Where the code and its comments, or what one would expect of it, differ, the model follows the code:

- `get_devices_from_host` finds the devices of a host exactly when the host has two or more of them
  (`XbarShape.FindsDevicesIff`); a host with one connection is never given a socket (`flow/tools/tlgen/elaborate.py:95-109`) and the
  lookup returns nothing for it.
- `xf_round` rounds correctly exactly when it does not have to shift left by more than 32 (`Xf.RoundIsRounded`).
- The comment on `xf_rsqrt` (`src/sw/project/dav2_xf.h:154-156`) has every Newton step move down to the root. An exact
  step ends at the root or below and goes up exactly from below it (`XfRsqrt.NewtonMoves`), so apart from truncation the
  first step lands at or below the root and the later ones come up to it; `XfRsqrt.SecondStepRises` gives an argument.
- The comment at `src/sw/project/dav2_engine.c:171-172` has |q| <= 2047 after the shift. That holds exactly when no value
  is below -(2047 << q_sh) (`Attention.QShift`); for q = -8191 alone it does not (`Attention.BelowTheLimit`). The byte
  split covers -2048.
- `add_range` takes its second path for every pair of shifts from 17 on (`src/sw/project/dav2_ops.c:1934`), but that path
  can do shifts up to 47 only. With a shift of 48 to 62 its own shifts leave 32 bits: C does not define them, and the
  target's registers take the count modulo 32, which is what the model does. All paths agree exactly when the second one
  is not taken with such a shift (`Fixed.PathsAgreeIff`); `Fixed.FarInput` shows a sum that fails. `xf_to_mult` yields
  such shifts for factors below 2^-17.
- `strntoumax` wraps modulo 2^64 where section 7.8.2.3 of ISO/IEC 9899:1999 asks for the largest value
  (`Text.StrToUMax`).
- The comments in `core_bench_list` have a CRC of the list's data and a list that is back in its original state
  (`src/sw/coremark/core_list_join.c:153-159`, `210-225`). The code takes the CRC of the first cell's data again and again, and
  the order is the original one exactly under the condition of `CorePass.BenchList`.
- The comment of `simplify_addr` (`flow/tools/tlgen/lib.py:29-35`) joins the ranges of its example to an entry of 0x9_0000
  bytes. The code rounds up to the power of two 0x10_0000 (`AddrMap.BridgedExample`).
- `hostio_write` masks the occupancy before comparing it with the buffer size (`flow/tools/openocd.py:117-118`), so it never waits
  (`HostIo.NeverFull`). `HostIo.NextIs` says exactly what the target gets then, and `HostIo.Overrun` gives an input that
  goes wrong.
- `apply_multiplier` gives the exact rounding exactly when that fits 32 bits (`Fixed.ApplyExactIff`).

## Model

| member | source | states |
|---|---|---|
| `HeapTheorems.RunsKeepInvariant` | src/sw/sys/malloc.c:69-235 | after every run of `add_malloc_block`, `malloc` and `free` the blocks are sorted and do not overlap, each can hold a free header, no two free blocks touch, and the free ring holds exactly the free blocks, each once |
| `HeapTheorems.BlocksTileRegions` | src/sw/sys/malloc.c:69-235 | in every run a byte lies in some block exactly if it lies in a region that was added |
| `HeapTheorems.SizesAddUp` | src/sw/sys/malloc.c:69-235 | in every run the block sizes add up to the bytes that were added |
| `HeapTheorems.FreeBlocksAreMaximalRuns` | src/sw/sys/malloc.c:107-145 | a block is free exactly if it is a maximal interval of free bytes |
| `HeapTheorems.FreeBytesDetermineFreeBlocks` | src/sw/sys/malloc.c:107-145 | two heaps with the same free bytes have the same free blocks, whatever calls led to them |
| `HeapTheorems.AllFreedIsMaximalRegions` | src/sw/sys/malloc.c:107-145 | once every pointer has been freed, in any order, the blocks are exactly the maximal merges of the regions |
| `HeapTheorems.NullIffNoFit` | src/sw/sys/malloc.c:147-172 | `malloc` returns NULL exactly for size 0 or when every free block is smaller than the rounded request |
| `HeapTheorems.MallocHandsOut` | src/sw/sys/malloc.c:69-172 | a pointer that is not NULL names one new used block, carved from the first block of the free ring that holds the request; that block is cut to the rounded size if at least two headers are left over, and the other bytes are then one free block in its place on the ring; nothing else changes |
| `HeapTheorems.FreeReturns` | src/sw/sys/malloc.c:107-235 | `free` takes exactly the block behind the pointer out of the used ones, makes its bytes free, puts it first on the ring unless it joins a free block before it, and keeps the invariant |
| `HeapTheorems.FreedServesNext` | src/sw/sys/malloc.c:107-172 | a block that joins nothing when it is freed is what the next request that fits in it gets, at the same address |
| `HeapTheorems.MallocThenFree` | src/sw/sys/malloc.c:107-172 | freeing what `malloc` just returned restores the exact sets of free and of used extents |
| `HeapTheorems.AddGives` | src/sw/sys/malloc.c:175-213 | a region that is large enough adds its bytes to the free ones, one that is not adds nothing; used blocks stay |
| `HeapTheorems.AddRing` | src/sw/sys/malloc.c:175-213 | a region enters the free ring as a freed block does |
| `HeapLemmas.CarveInv` | src/sw/sys/malloc.c:69-105 | splitting a free block or handing it out whole keeps the heap invariant |
| `HeapLemmas.FreeBlockInv` | src/sw/sys/malloc.c:107-145 | coalescing in both directions leaves no two free blocks touching |
| `Heap.Arena.RemoveFromMainChain` | src/sw/sys/malloc.c:41-51 | the two neighbours are linked to each other in both directions; the ring is otherwise as before |
| `Heap.Arena.RemoveFromFreeChain` | src/sw/sys/malloc.c:53-61 | the same for the free ring |
| `Heap.Arena.MallocFromBlock` | src/sw/sys/malloc.c:69-105 | headers and both rings in memory become those of the carved heap; the pointer is behind the header |
| `Heap.Arena.CoalescePrevious` | src/sw/sys/malloc.c:111-131 | memory becomes that of the heap with the block joined to a free one before it, or entered at the head of the free ring |
| `Heap.Arena.CoalesceNext` | src/sw/sys/malloc.c:133-144 | memory becomes that of the heap with a free block behind absorbed |
| `Heap.Arena.FreeBlock` | src/sw/sys/malloc.c:107-145 | the two halves together turn a heap with one block in transit into a valid one |
| `Heap.Arena.FindFit` | src/sw/sys/malloc.c:161-168 | the walk over the free ring ends at its first block that is large enough, or at the head if there is none |
| `Heap.RequestHoldsIff` | src/sw/sys/malloc.c:155 | the rounded request has room for the size and a header exactly when the 32-bit sum does not wrap; if it wraps, what is asked for is at most a header |
| `Heap.Arena.Malloc` | src/sw/sys/malloc.c:147-172 | the whole memory state and the result follow the heap's first fit, for every request that does not wrap |
| `Heap.Arena.Free` | src/sw/sys/malloc.c:215-235 | the whole memory state follows the heap, for NULL and for every live pointer |
| `Heap.Arena.AddMallocBlock` | src/sw/sys/malloc.c:175-213 | the new block is linked in address order and coalesced; too small a region changes nothing |
| `Heap.Arena.FindPlace` | src/sw/sys/malloc.c:192-200 | the backward search ends at the last block below the new one, or at the head |
| `Heap.Arena.MemoryStatus` | src/sw/sys/malloc.c:237-254 | the bytes reported are those of all free blocks, and the largest block reported decides for every request whether `malloc` can meet it |
| `Heap.Arena.OwnerWrites` | src/sw/sys/malloc.c:69-105 | whatever the owner writes behind its header, over the old free links included, the heap stays valid |
| `CoreList.CalcFunc` | src/sw/coremark/core_list_join.c:72-116 | a cached value, or the low seven bits of what is computed: by the state kernel for type 0, with a dtype of at least 0x22, by the matrix kernel for type 1, the data for all others; it is cached, calling again changes nothing, and key and backup byte are kept |
| `CoreList.Compare` | src/sw/coremark/core_list_join.c:123-144 | the result orders by keys that the comparison does not change, though it writes both items |
| `CoreList.MergeRuns` | src/sw/coremark/core_list_join.c:535-582 | relinking the cells of two sorted runs gives one stably sorted run of the same cells, with every item compared if there are two or more |
| `CoreList.Pass` | src/sw/coremark/core_list_join.c:510-585 | a pass turns runs of insize into runs of twice that, over the same cells; one merge means the list is sorted |
| `CoreList.Mergesort` | src/sw/coremark/core_list_join.c:502-597 | terminates on every non-empty list; the same cells, in place, stably sorted by the final keys, with every item written by the comparison if there are two or more |
| `StableRuns.PassStep` | src/sw/coremark/core_list_join.c:517-583 | merging two neighbouring runs keeps what a pass has established so far |
| `StableRuns.HeadsCompared` | src/sw/coremark/core_list_join.c:553-567 | once the two heads have been compared, every item of the two runs has been |
| `StableRuns.OneArrangement` | src/sw/coremark/core_list_join.c:224-225 | distinct keys leave one sorted arrangement, so the second sort restores the first order |
| `CoreBench.Find` | src/sw/coremark/core_list_join.c:437-451 | the first cell that matches by index, or by low byte for a negative index, or none |
| `CoreBench.Reverse` | src/sw/coremark/core_list_join.c:467-478 | the cells in reverse order, in place |
| `CoreBench.Remove` | src/sw/coremark/core_list_join.c:379-391 | the cell behind is unlinked and the two cells' items are exchanged; other cells are untouched |
| `CoreBench.UndoRemove` | src/sw/coremark/core_list_join.c:410-421 | the cell is back in its place and the items are exchanged back |
| `CorePass.FindPhase` | src/sw/coremark/core_list_join.c:172-204 | after any number of rounds: each turns the list round and brings the cell before the first match to second place, and adds 4 and a bit of the match, or a bit of the second cell less 1, to the result (16 bits); the matches are by index, counted up, or by the number of the round |
| `CorePass.IndexAfterIs` | src/sw/coremark/core_list_join.c:199-200 | the index looked for is counted up in 16 bits, and stays once it is negative |
| `CorePass.RemoveAndUndo` | src/sw/coremark/core_list_join.c:209-223 | the CRC of the first word, taken once for each entry from the first match on with the second entry removed; after that list and items are as they were |
| `CorePass.SortAndRemove` | src/sw/coremark/core_list_join.c:206-223 | if the index looked for at first is positive, every value is computed and cached and the list is sorted stably by the values; otherwise order and data stay as they were; then the CRC of the removal |
| `CorePass.SortBack` | src/sw/coremark/core_list_join.c:224-236 | a stable sort by index that makes every low byte equal to its backup, and the last CRC |
| `CorePass.BenchList` | src/sw/coremark/core_list_join.c:152-237 | for every behaviour of the two kernels and every search: the 16-bit result, the order at the end and the data; the list ends as it began exactly if it began by increasing index with equal indices in the order before the last sort, always if all indices differ |
| `CoreCrc.CrcU8` | src/sw/coremark/core_util.c:166-190 | the bit loop gives the CRC-16 register after a byte is added and shifted out |
| `CoreCrc.CrcU16` | src/sw/coremark/core_util.c:191-210 | the same for a word, low byte first |
| `CoreCrc.Linear` | src/sw/coremark/core_util.c:166-210 | the CRC of a sum of words and registers is the sum of the CRCs |
| `CoreCrc.RegistersApart` | src/sw/coremark/core_util.c:166-210 | registers that differ still differ after any word |
| `XbarGraph.DownConsistent` | flow/tools/tlgen/xbar.py:154-209 | inserting a node below another keeps edges and us/ds lists consistent |
| `XbarGraph.UpConsistent` | flow/tools/tlgen/xbar.py:154-209 | inserting a node above another does too |
| `XbarPlan.DownGrown` | flow/tools/tlgen/xbar.py:154-209 | a node inserted below the end of a host's chain extends that chain and no other, with ports in their order |
| `XbarPlan.UpGrown` | flow/tools/tlgen/xbar.py:154-209 | a node inserted above the front of a device's chain extends that chain and no other |
| `XbarReach.ReachesOriginal` | flow/tools/tlgen/elaborate.py:35-111 | after any number of insertions a host reaches a device exactly if an edge joined them at the start |
| `XbarShape.Acyclic` | flow/tools/tlgen/elaborate.py:12-24 | the elaborated crossbar has no cycles |
| `XbarShape.FoundDevices` | flow/tools/tlgen/xbar.py:79-125 | what the lookup finds for every host: all its devices, none, or no answer |
| `XbarShape.FindsDevicesIff` | flow/tools/tlgen/xbar.py:79-125 | the lookup returns the original devices in port order exactly for hosts with two or more |
| `Crossbar.Xbar.ConnectNodes` | flow/tools/tlgen/xbar.py:133-152 | a new edge is last in both lists; a pair that is connected already is refused and nothing changes |
| `Crossbar.Xbar.InsertNode` | flow/tools/tlgen/xbar.py:154-209 | the in-place redirection of edges gives the graph with the node inserted, on the side its type asks for; refused exactly for a FIFO at anything but a host or a device |
| `Crossbar.Xbar.ProcessNode` | flow/tools/tlgen/elaborate.py:35-111 | the recursion terminates and completes one host or device, leaving those already settled as they are; every new node has its clocks |
| `Crossbar.Xbar.ProcessPorts` | flow/tools/tlgen/elaborate.py:95-109 | every port of a new 1:N socket is processed, while the edges are being redirected |
| `Crossbar.Xbar.Elaborate` | flow/tools/tlgen/elaborate.py:12-24 | the graph ends in the one elaborated shape: clock crossings, M:1 and 1:N sockets where they belong, on the chains of the original hosts and devices, FIFOs between the clock of their host or device and the main one in the direction of the edge, all other new nodes on the main one; an empty crossbar is refused unchanged |
| `AddrMap.FindPow2Size` | flow/tools/tlgen/lib.py:145-186 | for every size the least power of two that holds it if that divides the base and ends before the next device, otherwise the size; the assertion fails exactly below 4 kB |
| `AddrMap.LeastOne` | flow/tools/tlgen/lib.py:160-167 | the lowest set bit of the base is the largest power of two that divides it |
| `AddrMap.NextBaseIs` | flow/tools/tlgen/lib.py:113-142 | the least base of another device above an address, or the end of the address space |
| `AddrMap.GapFreeMeans` | flow/tools/tlgen/lib.py:85-110 | the scan answers whether no range of another device overlaps the gap |
| `AddrMap.SimplifyAddr` | flow/tools/tlgen/lib.py:24-82 | the entries are ascending, cover every range of the device, take no address of another one, and are kept apart only by other devices; an entry that is joined over a gap has the least power of two that holds both parts if that divides the base and ends before the next device, otherwise it ends with the later part |
| `AddrMap.BridgedExample` | flow/tools/tlgen/lib.py:24-36 | the two ranges of the example in the comment become one entry of 0x10_0000 bytes |
| `AddrMap.SimplifyAll` | flow/tools/tlgen/validate.py:257-266 | compacting the devices that are marked, one after the other and against the others as they are by then, keeps all devices disjoint, leaves the unmarked as they are, and every address of a device still selects that device and no other |
| `Bits.Clz64Is` | src/sw/project/dav2_xf.h:36-50 | the branching search counts the leading zeros of every non-zero 64-bit word |
| `Xf.NormRounds` | src/sw/project/dav2_xf.h:53-70 | for every 64-bit value the mantissa is 0 or in [2^30, 2^31), rounded once to nearest with ties away from zero, also when rounding carries |
| `Xf.NormWithin` | src/sw/project/dav2_xf.h:53-70 | normalising errs by at most half a unit |
| `Xf.MulWithin` | src/sw/project/dav2_xf.h:87-92 | a product errs by at most half a unit and is 0 only if a factor is |
| `Xf.AlignedWithin` | src/sw/project/dav2_xf.h:94-114 | aligning is exact up to a gap of 31 and costs half a unit beyond |
| `Xf.AddWithin` | src/sw/project/dav2_xf.h:94-114 | a sum errs by half a unit, and half a unit of 2^-31 more only for gaps above 31; adding 0 is exact |
| `Xf.RecipWithin` | src/sw/project/dav2_xf.h:130-137 | a reciprocal times the number is within 2^-31 of 1, for both signs |
| `Xf.DivWithin` | src/sw/project/dav2_xf.h:139 | quotient times divisor is the dividend up to 2^-31 of it and of the product |
| `Xf.CmpAbsOrders` | src/sw/project/dav2_xf.h:120-127 | orders by true magnitude, equality included, as -1, 0 or 1 |
| `Xf.RoundIsRounded` | src/sw/project/dav2_xf.h:142-152 | rounds a * 2^k to nearest, ties away from zero, exactly if a is 0 or k - a.sh is at most 32 |
| `XfRsqrt.NewtonMoves` | src/sw/project/dav2_xf.h:154-156 | an exact step rises exactly from below the root, falls exactly from above it, and never ends above |
| `XfRsqrt.SecondStepRises` | src/sw/project/dav2_xf.h:166-172 | at 2 the first truncated step falls below the root and the second one rises |
| `XfRsqrt.StepIs` | src/sw/project/dav2_xf.h:168-172 | no 32- or 64-bit intermediate of a Newton step over- or underflows |
| `XfRsqrt.StepKeeps` | src/sw/project/dav2_xf.h:167-172 | each truncated step stays positive and closes the gap to the next bound |
| `XfRsqrt.LastStep` | src/sw/project/dav2_xf.h:167-173 | the fifth step ends within two Q30 units of the root |
| `XfRsqrt.Rsqrt` | src/sw/project/dav2_xf.h:157-174 | for every a > 0 the result r is normalised, \|r^2 a - 1\| <= 9 * 2^-30, and the unscaled root is within two units |
| `AccelMath.NoWrap` | src/sw/project/dav2_accel.c:1228-1295 | up to 2064 columns no sum and no partial sum leaves 32 bits |
| `AccelMath.CellSplit` | src/sw/project/dav2_accel.c:1277-1291 | adding a chunk's result in 32 bits is the result over both chunks |
| `AccelMath.ProductExact` | src/sw/project/dav2_ops.c:379-417 | within that range the product in 32 bits is the exact one |
| `AccelMath.GemmCpu` | src/sw/project/dav2_engine.c:104-117 | the loops leave the whole product in acc, for every size, empty ones included |
| `AccelMath.QgemmCpu` | src/sw/project/dav2_ops.c:379-417 | for every tile height, with rows copied to scratch or not, the loops leave the whole product in acc; N and M may be 0 |
| `AccelConv.OutputSize` | src/sw/project/dav2_accel.c:703-704 | an output row or column exists exactly for each placement of the kernel inside the padded image |
| `AccelConv.Im2col` | src/sw/project/dav2_ops.c:2522-2552 | every element is the pixel under its kernel position, or 0 in the padding |
| `AccelConv.PixelAfterIs` | src/sw/project/dav2_accel.c:696-823 | the gather's stepping over output pixels is division by the row length |
| `AccelConv.GatheredIs` | src/sw/project/dav2_accel.c:696-823 | what the block gathers from any kernel position on is that stretch of the im2col row |
| `Accel.Block.Start` | src/sw/project/dav2_accel.h:88-98 | a started job may change only its own cells |
| `Accel.Block.End` | src/sw/project/dav2_accel.h:88-98 | a job that is done has all its values there; one that failed may have any of its cells wrong, and no others |
| `Accel.TileFinal` | src/sw/project/dav2_accel.c:337-383 | a job that reads only final rows has the values of the finished matrix |
| `Accel.GatherTileIs` | src/sw/project/dav2_accel.c:696-823 | a gather job over a chunk of kernel positions gives the product over those columns, if the image rows it reads are final |
| `Accel.ConvAgrees` | src/sw/project/dav2_accel.c:696-823 | im2col followed by a product equals the driver's convolution |
| `Accel.Driver.Finish` | src/sw/project/dav2_accel.c:290-307 | afterwards nothing is outstanding; the answer says whether the job's values are there |
| `Accel.Driver.MaybeDefer` | src/sw/project/dav2_accel.c:322-331 | a job is left running exactly if it is the last and the caller asked for that |
| `Accel.Driver.LerpAsync` | src/sw/project/dav2_accel.c:882-912 | declined without a trace exactly for the listed reasons, or a pending job is settled and, if that worked, the new one is running |
| `Accel.Driver.Need` | src/sw/project/dav2_ops.c:511-524 | the pixels asked for are there and no job the producer started is left |
| `Accel.Driver.RunTile` | src/sw/project/dav2_accel.c:337-510 | one tile's job is waited for or left running; the block is disabled exactly if the job fails; tiles before it keep their values in every case, failure included |
| `Accel.Driver.Run` | src/sw/project/dav2_accel.c:337-510 | for every tile height: the whole product, or the product but for one job left running, or failure with nothing outstanding, exactly if a job has failed (jobs of a producer aside, which are made again on the CPU); a deferred call leaves its last job running unless a producer runs jobs in between |
| `Accel.Driver.QgemmChunks` | src/sw/project/dav2_accel.c:1277-1291 | for every chunk length the partial products add up to the whole |
| `Accel.Driver.Qgemm` | src/sw/project/dav2_accel.c:1228-1295 | the same three answers for the call that may or may not defer; which shapes are declined, that a decline changes nothing, and that 0 otherwise means a failed job |
| `Accel.Driver.QgemmAsync` | src/sw/project/dav2_accel.c:1110-1119 | 1 means the product is there, 2 that one job is left running which completes it; after 0 nothing is outstanding and a job has failed, unless the call was declined before it did anything, when a pending job still is as it was |
| `Accel.Driver.BigCheck` | src/sw/project/dav2_accel.c:1333-1405 | for all operands and every behaviour of the block, the driver's product and the CPU's differ in no word; -1 exactly if the driver declines or a job has failed |
| `Accel.Driver.GemmRawAsync` | src/sw/project/dav2_accel.c:1100-1108 | the same for slices with row strides, declines included |
| `Accel.LowestRowRead` | src/sw/project/dav2_accel.c:770-771 | the row a producer is asked to make is one that the pixels of the tile read, or the last one |
| `Accel.Driver.ConvChunk` | src/sw/project/dav2_accel.c:755-813 | the jobs of one chunk of kernel positions give the product over its columns, or one has failed |
| `Accel.Driver.Conv` | src/sw/project/dav2_accel.c:696-823 | for every number of positions per chunk the result is the product of the im2col matrix and the weights; which shapes are declined, and that 0 otherwise means a failed job or no room for partial sums |
| `Accel.Driver.ConvAsync` | src/sw/project/dav2_accel.c:1179-1191 | 1 means that result is there, 2 that one job is left running which completes it; 0 as for the products |
| `AccelEngine.Engine.Start` | src/sw/project/dav2_engine.c:129-142 | completes the GEMM before, whatever became of it, and starts this one |
| `AccelEngine.Engine.Finish` | src/sw/project/dav2_engine.c:119-127 | for every outcome of the pending job acc ends as the product |
| `AccelEngine.Engine.Gemm` | src/sw/project/dav2_engine.c:96-142 | started and finished, the product is exact for every pattern of declines, completions and failures |
| `Interp.WeightRange` | src/sw/project/dav2_ops.c:2418-2503 | weights are at most 256, and 0 on the last source row |
| `Interp.WeightRounds` | src/sw/project/dav2_ops.c:2418-2503 | each weight is the exact fraction rounded to 256ths |
| `Interp.MixForms` | src/sw/project/dav2_ops.c:2250-2368 | the one-product form of the interpolation equals the two-product form, and both are the weighted mean in 256ths rounded down |
| `Interp.DownRange` | src/sw/project/dav2_ops.c:2297-2368 | both vertical forms stay in 16 bits and agree |
| `InterpProducer.RowAcross` | src/sw/project/dav2_ops.c:2250-2291 | one or two pixels at a time, the row is the horizontal formula |
| `InterpProducer.TwoRowsDown` | src/sw/project/dav2_ops.c:2329-2346 | two output rows at once are the same as one after the other |
| `InterpProducer.Producer.Fetch` | src/sw/project/dav2_ops.c:2312-2326 | the buffer holds the row asked for, the other needed row stays, and a row is made only if no buffer holds it and it comes after all rows made so far, so no source row is made twice |
| `InterpProducer.Producer.Step` | src/sw/project/dav2_ops.c:2297-2368 | progress until done; rows below done_pix never change again |
| `InterpProducer.Serve` | src/sw/project/dav2_ops.c:511-565 | the same for the producer that works step by step: every interleaving of need, idle and complete calls ends with the plain bilinear formula at every element |
| `InterpProducer.Interpolate` | src/sw/project/dav2_ops.c:2505-2518 | the branch that does every step at once gives that formula |
| `InterpLerp.LerpIs` | src/sw/project/dav2_ops.c:2391-2416 | the interpolation between a row and the one behind it is the vertical formula, and the spare row is read only with weight 0 |
| `InterpLerp.LerpProducer.Chunk` | src/sw/project/dav2_ops.c:2391-2416 | by a job, or on the CPU after a decline or a failure, the chunk has the formula's values |
| `InterpLerp.LerpProducer.Need` | src/sw/project/dav2_ops.c:2391-2416 | the pixels asked for are there, rows below done_pix never change again, and no job is left |
| `InterpLerp.LerpProducer.Complete` | src/sw/project/dav2_ops.c:557-565 | the result is the same bilinear formula as without jobs |
| `InterpLerp.Serve` | src/sw/project/dav2_ops.c:511-565 | every interleaving of need, idle and complete calls, with any pattern of declined, finished and failed jobs and of steps in the waits, ends with the bilinear formula at every element |
| `InterpLerp.Interpolate` | src/sw/project/dav2_ops.c:2505-2518 | the formula on both branches, with jobs and without |
| `HostIo.EnqueuedIs` | src/sw/sys/hostio.c:22-24 | the occupancy computed from wrapped indices is the true count while less than a ring is outstanding |
| `HostIo.TargetKeeps` | src/sw/sys/hostio.c:32-38 | every memory access of `obuf_putc` keeps the ring invariant, despite the stale read index |
| `HostIo.DebuggerKeeps` | flow/tools/openocd.py:94-111 | every access of `hostio_read` keeps it, despite the cached word |
| `HostIo.PrintedIsPrefix` | src/sw/sys/hostio.c:32-38 | in every interleaving what is printed is a prefix of what was passed to `obuf_putc`, at most a ring behind |
| `HostIo.PassedGrows` | src/sw/sys/hostio.c:32-38 | each call of `obuf_putc` adds its character to what was passed, and no other access changes that |
| `HostIo.WaitsIff` | src/sw/sys/hostio.c:32-38 | `obuf_putc` waits exactly when all but one of the slots hold characters that are not acknowledged |
| `HostIo.Sends` | src/sw/sys/hostio.c:32-38 | with room in the ring some turns of the target alone send the character in hand |
| `HostIo.CatchesUp` | flow/tools/openocd.py:94-111 | from every state some turns of the debugger alone print everything and acknowledge it |
| `HostIo.PrintsAll` | src/sw/sys/hostio.c:32-38 | from every state the two programs can go on until everything passed to `obuf_putc` is printed and the call has returned |
| `HostIo.NeverFull` | flow/tools/openocd.py:113-124 | the test the debugger waits for is never true |
| `HostIo.GotIsPrefix` | src/sw/sys/hostio.c:40-48 | while the occupancy stays below the ring size the target gets a prefix of what was typed |
| `HostIo.GetsAll` | src/sw/sys/hostio.c:40-48 | in such a state turns of the target alone get everything that was typed |
| `HostIo.NextIs` | src/sw/sys/hostio.c:40-48 | which character the target gets next for every occupancy, and exactly when it is the right one |
| `HostIo.GetsNext` | src/sw/sys/hostio.c:40-48 | three turns of the target get that character; when there is none its turns change nothing |
| `HostIo.Overrun` | flow/tools/openocd.py:113-124 | one character more than the ring holds is delivered out of order |
| `Fixed.RoundUpNearest` | src/sw/project/dav2_ops.c:212-240 | rounding half up is nearest, within half a unit |
| `Fixed.ApplyIs` | src/sw/project/dav2_ops.c:212-240 | all branches of the 32-bit form compute the rounding of the 64-bit product, modulo 2^32 |
| `Fixed.ApplyExactIff` | src/sw/project/dav2_ops.c:212-240 | it is the exact rounding if and only if that fits 32 bits |
| `Fixed.RoundMono` | src/sw/project/dav2_ops.c:584-610 | the rounding is monotone for a multiplier that is not negative |
| `Fixed.ExtremesCommute` | src/sw/project/dav2_ops.c:584-610 | requantising a column's extremes gives the extremes of the requantised column, values that occur in it |
| `Fixed.ColumnExtremes` | src/sw/project/dav2_ops.c:600-610 | each column's maximum and minimum without a scan |
| `Fixed.ShortIs` | src/sw/project/dav2_ops.c:1904-1981 | the split-multiplier form is the same rounding for 15-bit values, with no wrap |
| `Fixed.ShiftedIs` | src/sw/project/dav2_ops.c:1934-1953 | the high-word form is the same rounding for 16-bit values and shifts up to 47 |
| `Fixed.ShiftedIff` | src/sw/project/dav2_ops.c:1934-1953 | with a normalised factor it is the rounding for all 16-bit values if and only if the shift is at most 47 |
| `Fixed.PathsAgree` | src/sw/project/dav2_ops.c:1904-1981 | all paths agree on every element unless the second is taken with a shift above 47 |
| `Fixed.PathsAgreeIff` | src/sw/project/dav2_ops.c:1904-1981 | for all factors that `xf_to_mult` yields, the paths agree on all operands if and only if that is not so |
| `Fixed.FarInput` | src/sw/project/dav2_ops.c:1934-1953 | for every factor with a shift of 49 to 62, 8191 + 0 gives 8191 where the rounded sum is 0 |
| `Fixed.AddRange` | src/sw/project/dav2_ops.c:1904-1981 | exactly the elements of the range are written, each by the path taken, and as `apply_multiplier` gives it unless a shift is too far; the largest magnitude is exact |
| `CombSort.GapFalls` | src/sw/sys/qsort.c:14-23 | the gap falls strictly until it is 1 and stays within the array: to 11 from 12 to 15, to ten thirteenths rounded down from any other |
| `CombSort.SwapNeighbours` | src/sw/sys/qsort.c:40-46 | exchanging neighbours in the wrong order removes exactly one inversion |
| `CombSort.Pass` | src/sw/sys/qsort.c:37-46 | a pass permutes; one that swaps at gap 1 has fewer inversions, one that does not leaves elements gap apart in order |
| `CombSort.Sort` | src/sw/sys/qsort.c:25-48 | terminates with a sorted permutation for every total preorder |
| `Text.UnsignedToText` | src/sw/sys/tinyprintf.c:108-125 | the digits of every 32-bit number in bases 8, 10 and 16 fit the 12-byte buffer with their terminator |
| `Text.Put` | src/sw/sys/tinyprintf.c:172-219 | spaces, sign, prefix, zeros and digits in that order for every flag, and the count of what is written |
| `Text.ShownLength` | src/sw/sys/tinyprintf.c:172-219 | the length is the larger of the width and the natural length |
| `Text.StrToUMax` | src/sw/sys/strntoumax.c:27-79 | the value of the text as section 7.8.2.3 of ISO/IEC 9899:1999 reads it, except that it is taken modulo 2^64, and the end of what was read, for every text, base and length |
| `Text.SignsAndSpaces` | src/sw/sys/strntoumax.c:33-46 | leading spaces and a plus sign change nothing, a minus sign negates |
| `Text.BaseDetected` | src/sw/sys/strntoumax.c:48-66 | in base 0 a number in decimal, with 0 in octal, and with 0x or 0X in hexadecimal reads back as itself |
| `Text.DigitsBack` | src/sw/sys/strntoumax.c:69-73 | the digits of a number read back as the number |
| `Text.RoundTrip` | src/sw/sys/tinyprintf.c:172-219 | parsing in the matching base returns the number and reads the whole text, for every width, fill and prefix |
| `Text.Printed` | src/sw/sys/tinyprintf.c:108-134 | printing signed and unsigned numbers and parsing them is the identity modulo 2^64 |
| `Attention.OrIs` | src/sw/project/dav2_engine.c:155-165 | a bit is set in the OR of the magnitudes if it is set in one of them |
| `Attention.QShift` | src/sw/project/dav2_engine.c:149-171 | the least shift that brings every magnitude to 11 bits; every shifted value then has 12 bits, and all are within 2047 if and only if no value is below -(2047 << shift) |
| `Attention.BelowTheLimit` | src/sw/project/dav2_engine.c:168-172 | for q = -8191 alone the shift is 2 and the shifted value -2048 |
| `Attention.Split` | src/sw/project/dav2_engine.c:173-188 | the two bytes give the value back, for both split widths, with both parts in a signed byte |
| `Attention.PrepQ` | src/sw/project/dav2_engine.c:149-189 | the byte arrays are the split of the shifted q, with the same condition for 2047 |
| `Attention.PrepV` | src/sw/project/dav2_engine.c:192-224 | the byte arrays are the split of v transposed and padded with zeros |
| `Attention.ScoreExact` | src/sw/project/dav2_engine.c:149-189 | 16 S_hi + S_lo is k . (q >> q_sh), with every 32-bit intermediate exact |
| `Attention.Sums` | src/sw/project/dav2_engine.c:456-490 | the packed T/H accumulators give the exact sum of every column |
| `Attention.ScaledFits` | src/sw/project/dav2_engine.c:493-524 | normalised entries never exceed 32767 and the product stays below 2^31 |
| `Attention.StoredRow` | src/sw/project/dav2_engine.c:493-524 | a row of P as it is stored is the query's column of P^T, scaled by its own sum, and zeros |
| `Attention.StoredTotal` | src/sw/project/dav2_engine.c:493-524 | every stored row totals 32767 within n/2 and sum/2^16, or is zero if its sum is, and fits 16 bits |
| `Attention.ZeroRow` | src/sw/project/dav2_engine.c:493-524 | a row that adds up to zero stays all zeros |
| `Attention.Norm` | src/sw/project/dav2_engine.c:493-524 | exactly the rows asked for are written, transposed, padded and within 32767 |
| `Attention.ContextExact` | src/sw/project/dav2_engine.c:527-561 | 64 C_hi + C_lo is P . v with every 32-bit intermediate exact |
| `Attention.ContextRounds` | src/sw/project/dav2_engine.c:543-557 | the context is P . v / 2^15 rounded half up and clamped, for every row up to 16 bits; up to 2^15 the clamp does nothing |
| `Attention.StoredContext` | src/sw/project/dav2_engine.c:493-561 | for every row the normalisation stores and every column of the split v, all 32-bit intermediates are exact and the context is that rounding |

## Left out

- Heap.Arena.Malloc: requests within 31 bytes of the top of `size_t` wrap at line 155 of malloc.c and are excluded; `Heap.RequestHoldsIff` shows that these are exactly the ones whose rounded request does not hold them.
- Heap: the lock callbacks (the lock always succeeds), `realloc`, `calloc`, and the debug fill of dead blocks. Addresses are naturals; each header field is a map from header addresses.
- CoreList.CalcFunc: the state and matrix kernels are an arbitrary answer for each item and dtype, which covers what they depend on because an item is computed at most once in a pass; `res->crc`, `crcstate` and `crcmatrix` are not computed.
- CoreList.Mergesort: `insize` is unbounded, so its overflow for lists of more than 2^30 cells is not modelled; the empty list is excluded because line 585 dereferences `tail`.
- CorePass.BenchList: `core_list_init`, which makes the list, and the debug output.
- Xf: `sh` is unbounded, not an `int32_t`; `xf_from_f32_bits`, `xf_to_mult`, `xf_neg` and `xf_abs` are easy.
- Crossbar.Xbar.ConnectNodes: nodes are indices instead of names, and only host to device edges are connected, as the configuration does; an edge that exists is refused.
- Crossbar.Xbar.Elaborate: the pipeline pass, socket attributes such as hdepth and dpass, and node names.
- AddrMap.SimplifyAddr: entries are numbers instead of hexadecimal strings, and a device is its list of ranges; crossbar nodes without ranges are skipped by the source with a log line. That the ranges are disjoint to begin with, which validate.py checks afterwards, is required.
- Accel: registers, timeouts, capabilities, alignment (one flag), range statistics, requantisation, LayerNorm, transposition and on-chip jobs, counters and the boot checks. Operands are values read when a job starts, rows still being made by a producer being the exception that is modelled.
- Accel.Driver.Run: the tile height is arbitrary but at least one row, where the source computes it from the row length and the block's memory.
- AccelEngine.Engine.Gemm: other accelerator calls must be preceded by `gemm_i32_finish`, and operands stay unchanged while a job is left running, as the source asks of its callers.
- AccelMath.QgemmCpu: elements one at a time; the inner kernel's four products per step have the same sums.
- Fixed.AddRange: two values packed in one word are modelled as two elements; `add_params`, which finds the factors, is not modelled, so whether it ever asks for a shift above 47 is open.
- Fixed.ApplyIs: shifts outside 0..62 are undefined in C and excluded; the full `qgemm_impl`, `mean_q16`, LayerNorm and GELU are not modelled.
- InterpProducer.Producer.Step: the row buffers hold elements, not packed words; the two-at-a-time forms are modelled element by element.
- HostIo.GotIsPrefix: assumes the occupancy stays below the ring size, which `hostio_write` does not enforce; `HostIo.NextIs` has the exact condition. The printing of a carriage return before each newline, the stdin and stdout wrappers and openocd's transport are left out.
- Text.Put: the `long` variants, `%c`, `%s` and the format parser of `tfp_format`; `strntoumax` reads only the n characters it is given, so a text that ends with a zero character before that stops there as any character that is no digit does.
- CombSort.Sort: `gap * 10` is unbounded, and elements are values of any type rather than bytes moved by memswap.
- Attention.Sums: the softmax tables and exponentials that produce the entries; the entries are bounded as the source bounds them, and the number of tokens is even as the packed loops require.
- The network in `dav2_infer`, weight lookup, profiling, `main.c`, the microbenchmarks, the generators' templates, and the FPGA and simulator flows.
