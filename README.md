# Reserved-region partitioning of the generic SRAM driver

This project models `sram_reserve_regions` in `drivers/misc/sram.c`, together with its sort
comparator `sram_reserve_cmp`, and proves properties of that model in Dafny.

The generic on-chip SRAM driver hands one physical region `[res.start, res.end]` (inclusive end)
to a `gen_pool` allocator. Before it does, it carves out the sub-ranges that the device tree
reserves as child nodes of the SRAM node. The function works in five steps:

1. It visits the children in device-tree order. A child whose address cannot be translated fails
   the call with `-EINVAL`, and so does a child that starts below or ends above the region.
2. It turns each child into a block `{start, size}` measured from the region start.
3. It appends a sentinel block `{size, 0}` that marks the end of the region.
4. It sorts the blocks with `list_sort` and `sram_reserve_cmp`.
5. It sweeps the sorted blocks with a cursor that starts at 0:
   - a block below the cursor is an overlap and returns `-EINVAL`;
   - a block at the cursor moves the cursor past it;
   - a block above the cursor first hands the gap before it to the pool with
     `gen_pool_add_virt`, at `virt_base + cur` and `res.start + cur`, and then moves the cursor
     past the block.

   A failing `gen_pool_add_virt` returns its error (`-ENOMEM`) at once. Chunks that were already
   added stay in the pool.

Layout:

- `spans.dfy`, modules `Errno` and `Spans`: the error codes, the block type `Span`, and what
  "laid out one after the other", "pairwise disjoint" and "covers an offset" mean for block lists.
- `reserve_sort.dfy`, module `ReserveSort`: `sram_reserve_cmp` with its 32-bit arithmetic, and
  the sort, modelled as a stable insertion sort by that comparator.
- `gen_pool.dfy`, module `GenAlloc`: the pool as a class whose `chunks` sequence
  `gen_pool_add_virt` appends to.
- `sweep.dfy`, module `GapSweep`: the sweep as a function of the sorted blocks, the starting
  cursor and the pool's verdicts, with its properties.
- `sram.dfy`, module `SramReserve`: the child ranges, the function's outcome as a whole
  (`Reserve`), and the imperative `ReserveRegions` method. The method is the collection loop plus
  the sweep loop, proved against `Reserve`.
- `sram_properties.dfy`, module `ReserveProperties`: what the whole function guarantees.

`gen_pool_add_virt` may refuse a chunk, because allocating its descriptor can fail. The model
takes that verdict from a function `canAdd` supplied by the environment, indexed by the number
of chunks the pool already holds.

The result depends on the order of the children in one case. A zero-size child that starts where
a non-empty child starts is accepted when it comes first in the child list. It is rejected with
`-EINVAL` when it comes after. The sort is stable (`ReserveSort.SortStable`), so the two blocks
keep their list order, and the sweep accepts a block at the cursor only before it passes the
non-empty block.
`ReserveProperties.ZeroSizeBlockOrderMatters` proves this for every such pair. Sorting therefore
does not make the order of the children irrelevant. The model follows the code here. Only two
order-independence results are proved. First, for children of positive size and a pool that
accepts every chunk, whether the call succeeds does not depend on their order
(`ReserveProperties.ReserveSucceedsIff`). Second, when the call succeeds, the offsets that end up
in the pool do not depend on the order (`ReserveProperties.ReserveCoverage`). On failure the
chunks already added stay in the pool, so which chunks they are can depend on the order.

## Model

| member | source | states |
|---|---|---|
| ReserveSort.ToInt32 | drivers/misc/sram.c:51 | the u32 difference read as an int lies in [-2^31, 2^31) and is the value itself or the value minus 2^32 |
| ReserveSort.ReserveCmp | drivers/misc/sram.c:45-52 | the comparator's result is a 32-bit int; when the starts differ by less than 2^31 it is negative exactly when the first start is smaller and zero exactly when the starts are equal |
| ReserveSort.Insert | drivers/misc/sram.c:113 | inserting a block keeps every block: the result is the old list plus the block, as a multiset |
| ReserveSort.SortSpans | drivers/misc/sram.c:113 | the sort returns a permutation of the blocks (multiset equality) |
| ReserveSort.SortSorted | drivers/misc/sram.c:113 | with starts below 2^31 the sorted list is ascending by start |
| ReserveSort.StartingAt | drivers/misc/sram.c:113 | the blocks of a list that start at a given offset, each taken from the list |
| ReserveSort.InsertStable | drivers/misc/sram.c:113 | inserting into a sorted list puts the new block after every block with the same start |
| ReserveSort.SortStable | drivers/misc/sram.c:113 | the sort is stable: for every start, the blocks with that start leave the sort in the order they entered it |
| ReserveSort.SortKeepsGreatestLast | drivers/misc/sram.c:108-113 | a block appended last that starts at or after every other block stays last, after the sorted rest |
| ReserveSort.SortDisjoint | drivers/misc/sram.c:113 | the sorted list has two overlapping blocks exactly when the unsorted one does |
| ReserveSort.SortSum | drivers/misc/sram.c:113 | sorting keeps the total size of the blocks |
| ReserveSort.SortedDisjointSeparated | drivers/misc/sram.c:117-131 | ascending, pairwise disjoint blocks of positive size lie one after the other |
| ReserveSort.SortSeparated | drivers/misc/sram.c:113-131 | sorting disjoint blocks of positive size lays them out one after the other from any cursor at or below their starts |
| GenAlloc.GenPool.AddVirt | drivers/misc/sram.c:143-147 | gen_pool_add_virt returns 0 and appends exactly the chunk (virt, phys, size), or returns -ENOMEM and leaves the pool unchanged, as the pool's verdict says |
| GapSweep.Sweep | drivers/misc/sram.c:115-151 | the sweep never moves the cursor backwards |
| GapSweep.SweepReturnCodes | drivers/misc/sram.c:119-147 | the sweep returns 0, -EINVAL or -ENOMEM and nothing else |
| GapSweep.SweepConcat | drivers/misc/sram.c:117-151 | sweeping a + b is sweeping a and, only if that returned 0, going on with b from where it stopped: an error stops the loop and keeps the chunks added before it |
| GapSweep.SweepExtend | drivers/misc/sram.c:119-150 | after a successful prefix, one more block below the cursor returns -EINVAL with the chunks kept; at the cursor it adds nothing and moves the cursor to its end; above the cursor it adds exactly the gap [cursor, start), unless the pool refuses it (-ENOMEM, chunks kept), and moves the cursor to its end |
| GapSweep.SweepChunksInOrder | drivers/misc/sram.c:138-150 | whatever the outcome, the chunks handed out are non-empty, ascending, each ending at or before the next begins, and end at or before the final cursor |
| GapSweep.SweepFinalCursor | drivers/misc/sram.c:128-150 | a successful sweep stops at the end of the last block |
| GapSweep.SweepOkSeparated | drivers/misc/sram.c:119-131 | a successful sweep saw the blocks laid out one after the other |
| GapSweep.SweepSeparatedNoOverlap | drivers/misc/sram.c:119-125 | blocks laid out one after the other never make the sweep return -EINVAL |
| GapSweep.SweepPoolAccepts | drivers/misc/sram.c:143-147 | a pool that accepts every chunk never makes the sweep return -ENOMEM |
| GapSweep.SweepTiles | drivers/misc/sram.c:128-150 | on success the final cursor is the start cursor plus the chunk sizes plus the block sizes |
| GapSweep.SweepCoverage | drivers/misc/sram.c:115-151 | on success an offset between the start and the final cursor lies in a chunk exactly when it lies in no block |
| SramReserve.Inside | drivers/misc/sram.c:80-99 | a child passes the checks only if its address was translated and it starts at or above the region start; for such a child it passes exactly when its block ends within the region size |
| SramReserve.AllInside | drivers/misc/sram.c:77-96 | the collection loop gets through every child exactly when no child is untranslatable, starts below the region or ends above it |
| SramReserve.Sentinel | drivers/misc/sram.c:108-110 | the sentinel starts at or after the end of the block of every child inside the region |
| SramReserve.Reserve | drivers/misc/sram.c:54-157 | the call returns 0, -EINVAL or -ENOMEM; an untranslatable child or one outside the region gives -EINVAL with no chunk; otherwise the outcome is the sweep from 0 of the sorted child blocks plus the sentinel |
| SramReserve.ToSpan | drivers/misc/sram.c:98-99 | a child's block starts at its offset from the region start and ends one past its inclusive end, so it ends inside the region when the child does |
| SramReserve.ReservedSpans | drivers/misc/sram.c:76-106 | one block per child, in visiting order, each the child's offset and size, all ending within the region size |
| SramReserve.Place | drivers/misc/sram.c:143-145 | one pool chunk per free span, the i-th at virt_base + offset and res.start + offset of the i-th span, with its size |
| SramReserve.ReserveRegions | drivers/misc/sram.c:54-157 | the return code is that of the model of the whole function, and the pool gains exactly the chunks of its free spans, in order |
| SramReserve.SweepStep | drivers/misc/sram.c:117-150 | one round of the loop after a successful prefix: a block below the cursor ends the whole sweep with -EINVAL and a refused chunk with -ENOMEM, both keeping the chunks so far; a block at the cursor adds nothing; a block above it adds the gap before it; the cursor then moves to the block's end |
| SramReserve.SweepIntoPool | drivers/misc/sram.c:115-151 | the sweep loop returns the sweep's code and appends exactly the sweep's chunks, placed at virt_base and res.start plus their offsets |
| ReserveProperties.SortedBlockList | drivers/misc/sram.c:108-113 | the list the loop walks is the sorted child blocks followed by exactly one sentinel {size, 0}; it is ascending and holds the child blocks plus the sentinel |
| ReserveProperties.ReserveRejectsOutside | drivers/misc/sram.c:77-96 | an untranslatable child or one outside the region gives -EINVAL with no chunk added |
| ReserveProperties.ReserveSuccessLayout | drivers/misc/sram.c:115-151 | on success all children lie in the region, the chunks are non-empty, ascending, disjoint and inside [0, size), and the cursor ends at size |
| ReserveProperties.ReserveSuccessSizes | drivers/misc/sram.c:115-151 | on success the chunk sizes plus the reserved sizes add up to the region size |
| ReserveProperties.ReserveSuccessDisjoint | drivers/misc/sram.c:117-131 | on success no two reserved blocks overlap |
| ReserveProperties.ReserveRejectsOverlap | drivers/misc/sram.c:117-125 | two overlapping children make the call fail, with -EINVAL when the pool accepts every chunk |
| ReserveProperties.SortedListSeparated | drivers/misc/sram.c:108-131 | disjoint children of positive size inside the region sort into blocks laid out one after the other, the sentinel last |
| ReserveProperties.ReserveSucceedsIff | drivers/misc/sram.c:77-151 | with children of positive size and a pool that accepts every chunk, the call returns 0 exactly when every child is inside the region and no two overlap, whatever their order |
| ReserveProperties.ReserveCoverage | drivers/misc/sram.c:115-151 | on success an offset of the region is in a chunk exactly when it is in no reserved block, so the offsets handed to the pool do not depend on the order of the children |
| ReserveProperties.ReserveNoChildren | drivers/misc/sram.c:108-151 | without children the pool gets the single chunk [0, size), no chunk for an empty region, or -ENOMEM if the pool refuses |
| ReserveProperties.ZeroSizeBlockOrderMatters | drivers/misc/sram.c:113-131 | a zero-size child at the start of a non-empty one is rejected with -EINVAL when it comes after it and accepted when it comes before it |
| ReserveProperties.ZeroSizeLast | drivers/misc/sram.c:117-125 | the zero-size child listed after the non-empty one gives -EINVAL |
| ReserveProperties.ZeroSizeFirst | drivers/misc/sram.c:128-131 | the zero-size child listed before the non-empty one is passed over and the call returns 0 |
| ReserveProperties.SameStartSort | drivers/misc/sram.c:113 | two blocks with the same start keep their list order in front of a later sentinel |

## Left out

- `sram_probe`, `sram_remove` and driver registration: the region lookup, mapping, pool creation
  and clock handling are kernel plumbing. The region, the virtual base and the pool are inputs.
- The `kmalloc` of the block array and its `-ENOMEM` failure, `kfree`, and the `dev_err` and
  `dev_dbg` logging. Blocks are kept in a sequence instead of the array.
- Device-tree enumeration: the available children arrive as a sequence in visiting order.
  A missing SRAM node behaves like an empty sequence. A failed `of_address_to_resource` is the
  `Unmapped` child and gives `-EINVAL`, the code that lookup returns.
- `gen_pool` internals (granularity, bitmap, allocation and freeing) are not part of this model.
  `gen_pool_add_virt` is an append that may fail, decided by the environment's `canAdd`.
- Machine-word wrap-around of `virt_base + cur_start` and of the u32 block fields: addresses and
  offsets are unbounded naturals. Under the 2 GiB bound below every offset fits.
- A zero-size child at physical address 0 cannot be written as an inclusive range of naturals,
  because its end would wrap to the largest address.
- SramReserve.ReserveRegions: requires the region to be smaller than 2 GiB. Only then is
  `sram_reserve_cmp` a consistent order. The sort is modelled as a stable insertion sort, which
  gives the same list as the kernel's stable merge sort only under a consistent order.
- SramReserve.ReserveRegions: requires every child range to be well formed (start at most one
  past end), which is what address translation guarantees.
- `list_sort` is modelled by its result, a stable sort, not by its in-place relinking of the list.
