# memblock in Dafny

A model of `memblock`, the early-boot physical-memory allocator of the
buildingblockx kernel, and proofs about it.

The allocator keeps two region types, `memory` (usable RAM) and `reserved`
(memory handed out or otherwise taken). Each is a fixed array of 128
half-open intervals `[base, base + size)` with a live count `index`, a
capacity `max` and a cached `total_size`. An address ceiling `limit` is
shared by both.

- **Adding** a range inserts the pieces of it that are not yet covered,
  then merges touching neighbours. The walk runs twice: once to count the
  pieces, once to insert them.
- **Removing** a range first isolates it, cutting the regions that cross
  its ends, and then drops the regions inside it.
- **Allocating** walks the free ranges (memory minus reserved) bottom-up,
  takes the first aligned block that fits, and reserves it.
- **Freeing** removes the range from `reserved`.

## Layout

- `regions.dfy`, module `Regions`:
  - `struct memblock_region` as the datatype `Region`.
  - The covered address set, the size sum, and the two invariants of a
    type: `Ordered` (non-empty, sorted, disjoint) and `Minimal` (no
    touching neighbours left).
- Specification functions, each with the lemmas that give it meaning:
  - `merge_spec.dfy` (`Merged`).
  - `add_spec.dfy` (`Gaps`, `Fill`).
  - `isolate_spec.dfy` (`Split`, `Isolated`, `RemovedFrom`).
  - `free_spec.dfy` (`ScanEx`, `NextFree`, `Walk`).
  - `fit_spec.dfy` (`Clamp`, `RoundUp`, `FirstFit`).
- `region_type.dfy`, module `RegionArray`:
  - `struct memblock_type` as the class `RegionType`, which holds the
    array, `index` and `totalSize`.
  - Its in-place operations as methods, each proved against the
    specification functions: insert, remove, merge, the two add passes,
    isolate and remove.
- `memblock.dfy`, module `Allocator`:
  - `struct memblock` as the class `Memblock`.
  - The free-range iterator as a method proved against `NextFree`.
  - The bottom-up search proved against `FirstFit`.
  - The alloc, free, add and remove wrappers.
  - The end-to-end lemmas about allocation.

## How the model follows the code

- **Resize loops.** Both "resize" loops (`__memblock_add` when the
  pieces do not fit, `memblock_isolate_range` when two more regions might
  not fit) spin forever in the code without changing anything. The model
  returns the status `Stuck` in exactly those cases and proves that
  nothing changed. `Done` stands for the code's return value 0, which is
  the only value it ever returns.
- **Address 0.** `memblock_find_bottom_up` answers 0 both for "nothing
  fits" and for a fit at address 0. `__memblock_alloc` reads 0 as failure.
  The model keeps this:
  - `FitSpec.ZeroFitMasksOthers` shows that with free memory `[0, 4096)`
    an 8-byte block aligned to 8 fits at address 8, yet the search
    answers 0, because its first fit is at address 0.
  - The allocation then fails and nothing is reserved, as in the code.
- **Search window.** The code clamps each free range to `[start, end]`
  with `end = min(end, limit)`, and the model does the same.
- **Free.** `memblock_free` removes the range from `reserved` without
  checking that it was reserved. `Memblock.Free` does the same.
  `Allocator.FreeUndoesReserve` shows that freeing a block that was free
  before it was reserved restores `reserved`'s covered addresses and total
  size.
- **Isolation spin.** `memblock_isolate_range` spins whenever
  `index + 2 > max` and the resized range is non-empty, even when no cut
  would be needed.
- **Unsigned arithmetic.** Addresses and sizes are unbounded naturals.
  - `memblock_resize` cuts each range at `limit`, so `base + size` never
    wraps.
  - `Ordered` keeps every region end at or below `PHYS_ADDR_MAX`.
  - `round_up` wraps to 0 past the largest address, and `RoundUp` models
    that wrap explicitly.

## Model

| member | source | states |
|---|---|---|
| Regions.SumIsMeasure | include/memblock.h:19 | for a sorted, disjoint type the sum of the region sizes (what `total_size` caches) is the number of covered addresses |
| RegionArray.Resize | sources/memblock.c:28-31 | the clamped size never exceeds the request, keeps `base + size <= limit`, is the request when that fits, and otherwise ends exactly at `limit` |
| RegionArray.ResizedEnd | sources/memblock.c:83 | the end of the clamped range lies in `[base, limit]` and is `base` plus the clamped size |
| RegionArray.RegionType.constructor | sources/memblock.c:3-18 | a type starts with capacity regions, none live, `total_size` 0, sorted and merged |
| RegionArray.RegionType.InsertRegion | sources/memblock.c:37-47 | with room left, the live regions become the old ones with `(base, size)` put at position i; `index` grows by one and `total_size` by size |
| RegionArray.RegionType.RemoveRegion | sources/memblock.c:279-292 | the live regions lose region i and the later ones shift down; `index` drops by one and `total_size` by the size of region i; an emptied type has slot 0 reset to `{0, 0}` |
| RegionArray.RegionType.MergeRegions | sources/memblock.c:52-71 | the live regions become `Merged` of the old ones and `total_size` is unchanged |
| MergeSpec.MergedCovered | sources/memblock.c:52-71 | merging keeps the set of covered addresses |
| MergeSpec.MergedSum | sources/memblock.c:52-71 | merging keeps the sum of the sizes, so the unchanged `total_size` stays correct |
| MergeSpec.MergedLength | sources/memblock.c:52-71 | the region count drops by exactly the number of touching pairs |
| MergeSpec.MergedOrdered | sources/memblock.c:52-71 | merging a sorted, disjoint sequence leaves it sorted and disjoint with no touching pair left |
| MergeSpec.MergedIdentity | sources/memblock.c:52-71 | a sequence with no touching pair is left as it is |
| MergeSpec.MergedAbsorbs | sources/memblock.c:52-71 | every region ends up inside some merged region: none is shrunk |
| RegionArray.RegionType.CountPieces | sources/memblock.c:100-154 | the first pass of the add walk (`insert` false) counts exactly the uncovered pieces of `[base, iend)` |
| RegionArray.RegionType.InsertStep | sources/memblock.c:121-143 | one turn of the second pass: a region below the range is passed over; otherwise the gap below the region is inserted when there is one, and the walk moves past the region while keeping the array equal to the done part followed by `Fill` of the rest |
| RegionArray.RegionType.InsertPieces | sources/memblock.c:100-151 | the second pass of the add walk (`insert` true) turns the live regions into `Fill` of the old ones: the uncovered pieces of `[base, iend)` inserted at their sorted positions |
| AddSpec.FillLength | sources/memblock.c:100-154 | the second pass inserts exactly as many regions as the first pass counted |
| AddSpec.FillSum | sources/memblock.c:100-154 | the inserted pieces raise the size sum by their own sizes |
| AddSpec.FillCovered | sources/memblock.c:100-154 | after the insertions the covered set is the old covered set together with `[base, iend)` |
| AddSpec.FillOrdered | sources/memblock.c:121-151 | the pieces go at ascending, correctly shifted positions: a sorted, disjoint type stays sorted and disjoint |
| AddSpec.GapsAbove | sources/memblock.c:134-150 | every inserted piece is non-empty and lies inside `[base, iend)` |
| AddSpec.GapsEmptyIffCovered | sources/memblock.c:153-154 | no piece is counted exactly when `[base, iend)` is already covered |
| AddSpec.GapsEmptyRange | sources/memblock.c:88-89 | an empty range yields no piece |
| AddSpec.AddNoGaps | sources/memblock.c:153-154 | when no piece is counted, a merged type is left unchanged |
| AddSpec.AddCoveredUnchanged | sources/memblock.c:153-154 | adding a range that is already covered leaves a merged type unchanged |
| AddSpec.AddToEmpty | sources/memblock.c:91-98 | an empty type becomes exactly the one region `[base, iend)`, with size sum `iend - base` |
| AddSpec.AddOrdered | sources/memblock.c:170 | inserting and then merging leaves the type sorted, disjoint and fully merged |
| AddSpec.AddEffect | sources/memblock.c:79-173 | after an add the covered set is the old one together with `[base, iend)`, the type is sorted, disjoint and merged, and the size sum grows by exactly the number of newly covered addresses |
| AddSpec.AddKeeps | sources/memblock.c:74-77 | every old region lies inside some region afterwards: existing regions are never shrunk |
| RegionArray.RegionType.AddWalk | sources/memblock.c:100-172 | on a non-empty merged type it is Stuck exactly when `index` plus the number of pieces exceeds `max`, changing nothing; otherwise the regions become `Merged(Fill(old, base, iend))` and stay canonical |
| RegionArray.RegionType.Add | sources/memblock.c:79-173 | `__memblock_add`: Stuck exactly when the type is non-empty, the clamped range is non-empty and its pieces do not fit, changing nothing; otherwise the regions become `Merged(Fill(old, base, base + clamped size))` and stay canonical |
| IsolateSpec.SplitOrdered | sources/memblock.c:249-266 | cutting a region at an inner point keeps the sequence sorted and disjoint |
| IsolateSpec.SplitCovered | sources/memblock.c:249-266 | cutting a region keeps the covered set and the size sum |
| IsolateSpec.IsolateStart | sources/memblock.c:213-240 | the isolation walk starts on the untouched type with nothing recorded |
| IsolateSpec.IsolateSkip | sources/memblock.c:246-247 | a region ending at or below base is passed over without breaking the walk invariant |
| IsolateSpec.IsolateCutLow | sources/memblock.c:249-257 | cutting a region that crosses base keeps the walk invariant at the next index, and it happens at most once |
| IsolateSpec.IsolateCutHigh | sources/memblock.c:258-266 | cutting a region that crosses end keeps the walk invariant at the same index, and it happens at most once |
| IsolateSpec.IsolateRecord | sources/memblock.c:267-273 | a region inside the range extends the recorded index range `[start_region, end_region)` |
| IsolateSpec.IsolateFinish | sources/memblock.c:240-276 | when the walk stops, no region crosses base or end, `[start_region, end_region)` is exactly the indices of the regions inside, covered set and size sum are unchanged, and at most two regions were added |
| IsolateSpec.IsolatedOutside | sources/memblock.c:240-274 | after isolation every region outside the recorded index range lies wholly outside the range |
| RegionArray.RegionType.CutRegion | sources/memblock.c:249-266 | a cut narrows region i to its upper half in place and inserts the lower half before it: the regions become `Split(old, i, x)`, `index` grows by one and `total_size` is unchanged |
| RegionArray.RegionType.IsolateStep | sources/memblock.c:240-274 | one turn of the isolation loop keeps the walk invariant and either adds a region or moves to a later index |
| RegionArray.RegionType.IsolateRange | sources/memblock.c:205-277 | `memblock_isolate_range`: an empty clamped range, or a Stuck call (exactly when `index + 2 > max`), changes nothing and reports `[0, 0)`; otherwise the type is isolated for `[base, end)` with covered set and `total_size` unchanged |
| RegionArray.RegionType.RemoveRange | sources/memblock.c:305-306 | removing indices `end_region - 1` down to `start_region` leaves the regions before and after that index range; if that empties the type, slot 0 is reset to `{0, 0}` |
| IsolateSpec.RemovedCovered | sources/memblock.c:305-306 | dropping the isolated inside regions removes exactly the range from the covered set |
| IsolateSpec.RemovedSum | sources/memblock.c:305-306 | dropping them lowers the size sum by the number of covered addresses in the range |
| IsolateSpec.RemovedOrdered | sources/memblock.c:305-306 | dropping a slice keeps the type sorted and disjoint |
| IsolateSpec.RemovedMinimal | sources/memblock.c:305-306 | after isolating a merged type, dropping the inside regions leaves no touching pair |
| IsolateSpec.RemovedKeeps | sources/memblock.c:305-306 | every region lying outside the range survives the removal |
| IsolateSpec.RemovedEffect | sources/memblock.c:294-308 | isolating a merged type and dropping the inside regions removes the range from the covered set, lowers the size sum by the overlap, keeps every region outside the range, and leaves the type sorted and merged |
| IsolateSpec.RemovedNothing | sources/memblock.c:213-216 | an empty range removes nothing |
| RegionArray.RegionType.Remove | sources/memblock.c:294-308 | `__memblock_remove`: Stuck exactly when the clamped range is non-empty and `index + 2 > max`, changing nothing; otherwise the covered set loses the range, `total_size` drops by the overlap, outside regions survive, and the type stays canonical; a type emptied by the removal has slot 0 reset to `{0, 0}` |
| FreeSpec.ScanEx | sources/memblock.c:369-411 | the scan against an excluded list yields a range only with a cursor that never moves back and strictly shrinks the work left |
| FreeSpec.ScanIn | sources/memblock.c:357-366 | without an excluded list, region i is yielded exactly when it exists, and the cursor moves to region i + 1 |
| FreeSpec.NextFree | sources/memblock.c:336-417 | every yielded step strictly advances the cursor, so the iteration reaches the end sentinel |
| FreeSpec.ScanExStep | sources/memblock.c:369-411 | the yielded range plus what remains from the new cursor is exactly the free part that remained from the old cursor; the rest lies above the range, and the range is non-empty when the excluded list is merged |
| FreeSpec.WalkExact | sources/memblock.c:336-417 | from a cursor `At(i, j)` the walk yields exactly the addresses, at or above the start of excluded gap j, of included regions i onwards that no excluded region covers, in ascending non-empty ranges when the excluded list is merged |
| FreeSpec.FreeWalkExact | include/memblock.h:43-48 | `for_each_free_memblock_region` yields exactly memory minus reserved, ascending and non-empty when reserved is merged |
| FreeSpec.WalkWhole | sources/memblock.c:357-366 | with a NULL excluded type every included region is yielded whole, in order |
| Allocator.NextFreeRegion | sources/memblock.c:336-417 | the two nested loops compute `NextFree`, for a NULL excluded type and for a present one |
| FitSpec.Clamp | sources/memblock.c:426-427 | the clamped value lies in `[lo, hi]` when `lo <= hi`, never exceeds hi, and is the value itself when it already lies inside |
| FitSpec.RoundUp | sources/memblock.c:429 | for the power-of-two alignments on which it agrees with the macro: the rounded address is a multiple of align, at most `PHYS_ADDR_MAX`, not below x unless it wrapped to 0, and not above any aligned address at or above x |
| FitSpec.FirstFit | sources/memblock.c:419-435 | the search result is a valid physical address |
| FitSpec.FitsInside | sources/memblock.c:426-430 | an accepted block lies inside both its free range and the window |
| FitSpec.CandidateLeast | sources/memblock.c:426-431 | whenever a free range holds an aligned block, the search accepts that range, and the rounded start is its lowest fit |
| FitSpec.FirstFitFound | sources/memblock.c:425-432 | a non-zero result is the lowest fit of some free range, and no earlier free range holds any fit |
| FitSpec.FirstFitMiss | sources/memblock.c:425-434 | over ascending free ranges a result of 0 means no range holds any fit, unless one would take the block at address 0 |
| FitSpec.ZeroFitMasksOthers | sources/memblock.c:429-434 | with free memory `[0, 4096)` an 8-byte block fits at 8, yet the search answers 0, which the caller reads as failure |
| Allocator.EffectiveAlign | sources/memblock.c:451-454 | an alignment of 0 becomes `sizeof(phys_addr_t)`; any other is kept |
| Allocator.Memblock.constructor | sources/memblock.c:6-18 | the static memblock: both types empty with capacity 128, `limit` at `PHYS_ADDR_MAX` |
| Allocator.Memblock.FindBottomUp | sources/memblock.c:419-435 | the loop over `for_each_free_memblock_region` returns `FirstFit` of the free ranges |
| Allocator.AllocatedIsFree | sources/memblock.c:419-463 | a non-zero search result is aligned, lies in the window, and every address of the block is memory that is not reserved |
| Allocator.AllocMissMeansNoFit | sources/memblock.c:425-434 | with a merged reserved type, a 0 answer means no free range holds a fit, unless one would take the block at address 0 |
| Allocator.Memblock.AddMemory | sources/memblock.c:178-184 | `__memblock_add` on memory, with reserved unchanged |
| Allocator.Memblock.AddReserve | sources/memblock.c:189-195 | `__memblock_add` on reserved, with memory unchanged |
| Allocator.Memblock.RemoveMemory | sources/memblock.c:313-319 | `__memblock_remove` on memory, with reserved unchanged |
| Allocator.Memblock.RemoveReserve | sources/memblock.c:324-330 | `__memblock_remove` on reserved, with memory unchanged |
| Allocator.Memblock.AllocRange | sources/memblock.c:437-463 | the window becomes `[max(start, kernel_end), min(end, limit)]` and alignment 0 becomes 8; a search answer of 0 gives NULL and no change; otherwise the block is added to reserved and its address is returned, except that the status is Stuck (nothing reserved, NULL) exactly when the pieces of the block do not fit in reserved, the resize loop that spins; memory never changes |
| Allocator.Memblock.Alloc | sources/memblock.c:468-481 | the same over the whole window `[0, limit]` |
| Allocator.Memblock.Free | sources/memblock.c:486-489 | `__memblock_remove` on reserved, with no check that the range was reserved |
| Allocator.FreeUndoesReserve | sources/memblock.c:486-489 | freeing a block that was not reserved before it was added to reserved restores reserved's covered addresses and size sum |

## Left out

- Logging through `pr_debug` and `pr_warn` (sources/memblock.c:162, 180-181, 453 and others). It has no effect on state.
- The zero-fill by `memset` and the translation by `phys_to_virt` in `memblock_alloc` and `__memblock_alloc`. Allocation returns the physical address; the memory contents are not modelled.
- `__pa_symbol(_end)`. The code stubs `kernel_end` to 0, which is the constant `KERNEL_END`.
- `memblock_init`, which is empty, and `memblock_print_all_region`, which only prints. `for_each_memblock_region` is modelled only as the add and isolate loops that use it.
- `memblock_double_array`, which is commented out in the code. The resize loops that would call it are the `Stuck` status.
- Packing the cursor into one `u64` (low 32 bits included index, high 32 bits excluded index). The cursor is the pair `At(indexIn, indexEx)` with `Exhausted` for `ULLONG_MAX`.
- The optional `out_start`/`out_end` pointers of `__next_free_memblock_region`. The range is always returned, as its only caller asks for both.
- The `name` field of `struct memblock_type`, used only in log messages.
- The header defining `min`, `max`, `clamp`, `round_up` and `PHYS_ADDR_MAX` is not part of this model. They are defined by their usual meanings:
  - `round_up` is taken as the least multiple of the alignment at or above the value, wrapping to 0 past `PHYS_ADDR_MAX`. The kernel macro `((x - 1) | (a - 1)) + 1` gives that value only for power-of-two alignments.
- test/memblock_test.c, a smoke test with no assertions that uses host `malloc` buffers as physical memory.
- The global `memblock` is an object passed to the methods. The `limit` argument of the `RegionType` methods is always `PHYS_ADDR_MAX` there.
- `RegionType.Add`, `RegionType.IsolateRange` and `RegionType.Remove` require the type to be canonical (sorted, disjoint, merged). The code assumes the same, and every public operation keeps it. The lower-level mutators (`InsertRegion`, `RemoveRegion`, `MergeRegions`, `InsertPieces`, `CutRegion`, `RemoveRange`) require only `Valid()`.
- FitSpec.RoundUp: it matches the code's `round_up` only when the alignment is a power of two. For other alignments the macro can return a value that is not a multiple of the alignment (`round_up(5, 12)` is 16), while `RoundUp(5, 12)` is 12. `AllocRange` and `Alloc` accept any positive alignment, as the code does.
- Allocator.AllocatedIsFree: its `Aligned(a, align)` clause holds for the code only when the alignment is a power of two, for the reason given for `FitSpec.RoundUp`. Its window and free-memory clauses rest on the test the code makes after rounding (the address lies below the clamped range end with room for the size), so they do not depend on the alignment.
- Allocator.AllocMissMeansNoFit: it states the absence of a fit per free range, not per address interval. It does not rule out a block spanning two free ranges that touch.
- Allocator.FreeUndoesReserve: it shows that reserved gets back the same covered addresses and size sum. It does not prove the same array contents, though both sides are canonical.
