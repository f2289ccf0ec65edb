/**
  * struct memblock and the allocator built on its two region types: the
  * free-range iterator, the bottom-up first-fit search, allocation as
  * reservation, and the public add, remove and free wrappers.
  */
module Allocator {
  import opened Regions
  import opened MergeSpec
  import opened AddSpec
  import opened IsolateSpec
  import opened FreeSpec
  import opened FitSpec
  import opened RegionArray

  /** kernel_end, the lowest address handed out; the kernel image symbol is stubbed to 0. */
  const KERNEL_END: nat := 0

  /** The alignment __memblock_alloc uses: 0 becomes sizeof(phys_addr_t). */
  function EffectiveAlign(align: nat): (a: nat)
    ensures 0 < a
    ensures align != 0 ==> a == align
    ensures align == 0 ==> a == PHYS_ADDR_BYTES
  {
    if align == 0 then PHYS_ADDR_BYTES else align
  }

  /**
    * __next_free_memblock_region: from cursor c, scan the regions of typeIn
    * and, unless typeEx is NULL, the gaps of typeEx for the next range of
    * typeIn outside typeEx; hand it back with the advanced cursor, or
    * report the end of the iteration.
    */
  method NextFreeRegion(c: Cursor, typeIn: RegionType, typeEx: RegionType?) returns (r: FreeStep)
    requires typeIn.Valid() && (typeEx != null ==> typeEx.Valid())
    ensures typeEx == null ==> r == NextFree(typeIn.Regions(), None, c)
    ensures typeEx != null ==> r == NextFree(typeIn.Regions(), Some(typeEx.Regions()), c)
  {
    if c.Exhausted? {
      return Finished;
    }
    ghost var ins := typeIn.Regions();
    ghost var ex := if typeEx == null then [] else typeEx.Regions();
    ghost var goal := ScanEx(ins, ex, c.indexIn, c.indexEx);
    var indexIn: nat, indexEx: nat := c.indexIn, c.indexEx;
    while indexIn < typeIn.index
      invariant typeEx == null ==> indexIn == c.indexIn && indexEx == c.indexEx
      invariant typeEx != null ==> ScanEx(ins, ex, indexIn, indexEx) == goal
      decreases typeIn.index - indexIn
    {
      var startIn, endIn := typeIn.regions[indexIn].base, typeIn.regions[indexIn].End();
      assert typeIn.regions[indexIn] == ins[indexIn];
      if typeEx == null {
        return Found(Range(startIn, endIn), At(indexIn + 1, indexEx));
      }
      while indexEx < typeEx.index + 1
        invariant ScanEx(ins, ex, indexIn, indexEx) == goal
        decreases typeEx.index + 1 - indexEx
      {
        var startExp := if indexEx > 0 then typeEx.regions[indexEx - 1].End() else 0;
        var endExp := if indexEx < typeEx.index then typeEx.regions[indexEx].base else PHYS_ADDR_MAX;
        if startExp >= endIn {
          assert ScanEx(ins, ex, indexIn, indexEx) == ScanEx(ins, ex, indexIn + 1, indexEx);
          break;
        }
        if startIn < endExp {
          var next := if endIn <= endExp then At(indexIn + 1, indexEx) else At(indexIn, indexEx + 1);
          return Found(Range(Max(startIn, startExp), Min(endIn, endExp)), next);
        }
        indexEx := indexEx + 1;
      }
      indexIn := indexIn + 1;
    }
    return Finished;
  }

  /**
    * A block handed out by the search is free memory: it is aligned, lies
    * inside the window [start, end], and every address in it is in memory
    * and in no reserved region.
    */
  lemma AllocatedIsFree(memory: seq<Region>, reserved: seq<Region>, start: nat, end: nat, size: nat, align: nat, a: nat)
    requires Ordered(memory) && Ordered(reserved) && 0 < align && end <= PHYS_ADDR_MAX
    requires a == FirstFit(Walk(memory, Some(reserved), At(0, 0)), start, end, size, align) && a != 0
    ensures Aligned(a, align) && start <= a && a + size <= end
    ensures Span(a, a + size) <= Covered(memory) - Covered(reserved)
  {
    var rs := Walk(memory, Some(reserved), At(0, 0));
    FirstFitFound(rs, start, end, size, align);
    var k :| 0 <= k < |rs| && LowestFit(rs, k, a, start, end, size, align);
    FitsInside(rs[k], a, start, end, size, align);
    RangesSpan(rs, k);
    FreeWalkExact(memory, reserved);
    assert Span(a, a + size) <= Span(rs[k].start, rs[k].end);
  }

  /**
    * A search answering 0 over merged types means that no free range holds
    * an aligned block of the size inside the window, unless one would hold
    * it at address 0 itself.
    */
  lemma AllocMissMeansNoFit(memory: seq<Region>, reserved: seq<Region>, start: nat, end: nat, size: nat, align: nat)
    requires Ordered(memory) && Ordered(reserved) && Minimal(reserved) && 0 < align && end <= PHYS_ADDR_MAX
    requires FirstFit(Walk(memory, Some(reserved), At(0, 0)), start, end, size, align) == 0
    ensures var rs := Walk(memory, Some(reserved), At(0, 0));
            (forall l :: 0 <= l < |rs| ==> !Fits(rs[l], 0, start, end, size, align)) ==>
              forall k, x :: 0 <= k < |rs| ==> !Fits(rs[k], x, start, end, size, align)
  {
    var rs := Walk(memory, Some(reserved), At(0, 0));
    FreeWalkExact(memory, reserved);
    if forall l :: 0 <= l < |rs| ==> !Fits(rs[l], 0, start, end, size, align) {
      FirstFitMiss(rs, start, end, size, align);
    }
  }

  /**
    * Freeing a block that was free before it was reserved gives reserved
    * back the addresses and the total size it had: adding [a, e) to a
    * merged type that did not cover any of it and then removing [a, e)
    * from the result restores both.
    */
  lemma FreeUndoesReserve(reserved: seq<Region>, s: seq<Region>, a: nat, e: nat)
    requires Ordered(reserved) && Minimal(reserved) && e <= PHYS_ADDR_MAX
    requires Span(a, e) * Covered(reserved) == {}
    requires RemovedFrom(Merged(Fill(reserved, a, e)), s, a, e)
    ensures Covered(s) == Covered(reserved)
    ensures Sum(s) == Sum(reserved)
  {
    var t := Merged(Fill(reserved, a, e));
    var held, block := Covered(reserved), Span(a, e);
    AddEffect(reserved, a, e);
    assert Covered(t) == held + block;
    assert block - held == block;
    assert Covered(t) * block == block;
    assert (held + block) - block == held;
  }

  /** struct memblock: the address ceiling and the memory and reserved region types. */
  class Memblock {
    const limit: nat
    const memory: RegionType
    const reserved: RegionType

    /** Two distinct types of capacity 128, each sorted, disjoint and merged, under the ceiling PHYS_ADDR_MAX. */
    ghost predicate Valid()
      reads this, memory, memory.regions, reserved, reserved.regions
    {
      && limit == PHYS_ADDR_MAX
      && memory != reserved && memory.regions != reserved.regions
      && memory.Canonical() && reserved.Canonical()
      && memory.max == INIT_MEMBLOCK_REGIONS && reserved.max == INIT_MEMBLOCK_REGIONS
    }

    /** The free ranges for_each_free_memblock_region visits: memory walked from cursor 0, excluding reserved. */
    function FreeRanges(): seq<Range>
      reads this, memory, memory.regions, reserved, reserved.regions
      requires Valid()
    {
      Walk(memory.Regions(), Some(reserved.Regions()), At(0, 0))
    }

    /** The static memblock: both types empty, the ceiling at PHYS_ADDR_MAX. */
    constructor ()
      ensures Valid()
      ensures memory.Regions() == [] && reserved.Regions() == []
      ensures memory.totalSize == 0 && reserved.totalSize == 0
    {
      limit := PHYS_ADDR_MAX;
      memory := new RegionType(INIT_MEMBLOCK_REGIONS);
      reserved := new RegionType(INIT_MEMBLOCK_REGIONS);
    }

    /** memblock_add: __memblock_add on memory; reserved is left alone. */
    method AddMemory(base: nat, size: nat) returns (status: Status)
      requires Valid() && base <= PHYS_ADDR_MAX
      modifies memory, memory.regions
      ensures Valid()
      ensures unchanged(reserved) && unchanged(reserved.regions)
      ensures status == Stuck <==>
                && old(memory.index) > 0 && Resize(base, size, limit) > 0
                && old(memory.index) + |Gaps(old(memory.Regions()), base, base + Resize(base, size, limit))| > memory.max
      ensures status == Stuck ==> unchanged(memory) && unchanged(memory.regions)
      ensures status == Done ==>
                memory.Regions() == Merged(Fill(old(memory.Regions()), base, base + Resize(base, size, limit)))
    {
      status := memory.Add(base, size, limit);
    }

    /** memblock_add_reserve: __memblock_add on reserved; memory is left alone. */
    method AddReserve(base: nat, size: nat) returns (status: Status)
      requires Valid() && base <= PHYS_ADDR_MAX
      modifies reserved, reserved.regions
      ensures Valid()
      ensures unchanged(memory) && unchanged(memory.regions)
      ensures status == Stuck <==>
                && old(reserved.index) > 0 && Resize(base, size, limit) > 0
                && old(reserved.index) + |Gaps(old(reserved.Regions()), base, base + Resize(base, size, limit))| > reserved.max
      ensures status == Stuck ==> unchanged(reserved) && unchanged(reserved.regions)
      ensures status == Done ==>
                reserved.Regions() == Merged(Fill(old(reserved.Regions()), base, base + Resize(base, size, limit)))
    {
      status := reserved.Add(base, size, limit);
    }

    /** memblock_remove: __memblock_remove on memory; reserved is left alone. */
    method RemoveMemory(base: nat, size: nat) returns (status: Status)
      requires Valid() && base <= PHYS_ADDR_MAX
      modifies memory, memory.regions
      ensures Valid()
      ensures unchanged(reserved) && unchanged(reserved.regions)
      ensures status == Stuck <==> Resize(base, size, limit) > 0 && old(memory.index) + 2 > memory.max
      ensures status == Stuck ==> unchanged(memory) && unchanged(memory.regions)
      ensures status == Done ==> RemovedFrom(old(memory.Regions()), memory.Regions(), base, ResizedEnd(base, size, limit))
    {
      status := memory.Remove(base, size, limit);
    }

    /** memblock_remove_reserve: __memblock_remove on reserved; memory is left alone. */
    method RemoveReserve(base: nat, size: nat) returns (status: Status)
      requires Valid() && base <= PHYS_ADDR_MAX
      modifies reserved, reserved.regions
      ensures Valid()
      ensures unchanged(memory) && unchanged(memory.regions)
      ensures status == Stuck <==> Resize(base, size, limit) > 0 && old(reserved.index) + 2 > reserved.max
      ensures status == Stuck ==> unchanged(reserved) && unchanged(reserved.regions)
      ensures status == Done ==> RemovedFrom(old(reserved.Regions()), reserved.Regions(), base, ResizedEnd(base, size, limit))
    {
      status := reserved.Remove(base, size, limit);
    }

    /**
      * memblock_find_bottom_up: walk the free ranges in ascending order,
      * clamp each to [start, end], round its start up to align, and return
      * the first address where size bytes fit, or 0.
      */
    method FindBottomUp(start: nat, end: nat, size: nat, align: nat) returns (addr: nat)
      requires Valid() && 0 < align
      ensures addr == FirstFit(FreeRanges(), start, end, size, align)
    {
      ghost var ins, ex := memory.Regions(), Some(reserved.Regions());
      var i := At(0, 0);
      var step := NextFreeRegion(i, memory, reserved);
      while step.Found?
        invariant step == NextFree(ins, ex, i)
        invariant FirstFit(Walk(ins, ex, i), start, end, size, align) == FirstFit(FreeRanges(), start, end, size, align)
        decreases Measure(ins, ex, i)
      {
        assert Walk(ins, ex, i) == [step.range] + Walk(ins, ex, step.next);
        assert Walk(ins, ex, i)[1..] == Walk(ins, ex, step.next);
        var thisStart := Clamp(step.range.start, start, end);
        var thisEnd := Clamp(step.range.end, start, end);
        addr := RoundUp(thisStart, align);
        if addr < thisEnd && thisEnd - addr >= size {
          return addr;
        }
        i := step.next;
        step := NextFreeRegion(i, memory, reserved);
      }
      return 0;
    }

    /**
      * __memblock_alloc: search [max(start, kernel_end), min(end, limit)]
      * bottom-up with the effective alignment; on a non-zero answer reserve
      * size bytes there and return the address, otherwise return NULL
      * (None) and change nothing. Stuck is the resize loop of the
      * reservation, taken exactly when the pieces of the block do not fit
      * in reserved; in every other case a found block is reserved.
      */
    method AllocRange(size: nat, align: nat, start: nat, end: nat) returns (status: Status, ptr: Option<nat>)
      requires Valid()
      modifies reserved, reserved.regions
      ensures Valid()
      ensures unchanged(memory) && unchanged(memory.regions)
      ensures var a := FirstFit(old(FreeRanges()), Max(start, KERNEL_END), Min(end, limit), size, EffectiveAlign(align));
              && (a == 0 ==> status == Done && ptr == None && unchanged(reserved) && unchanged(reserved.regions))
              && (a != 0 && status == Done ==>
                    && ptr == Some(a)
                    && reserved.Regions() == Merged(Fill(old(reserved.Regions()), a, a + Resize(a, size, limit))))
              && (status == Stuck ==> a != 0 && ptr == None && unchanged(reserved) && unchanged(reserved.regions))
              && (status == Stuck <==>
                    && a != 0 && old(reserved.index) > 0 && Resize(a, size, limit) > 0
                    && old(reserved.index) + |Gaps(old(reserved.Regions()), a, a + Resize(a, size, limit))| > reserved.max)
    {
      ghost var a := FirstFit(FreeRanges(), Max(start, KERNEL_END), Min(end, limit), size, EffectiveAlign(align));
      ghost var want := Merged(Fill(reserved.Regions(), a, a + Resize(a, size, limit)));
      ghost var full := reserved.index > 0 && Resize(a, size, limit) > 0
                        && reserved.index + |Gaps(reserved.Regions(), a, a + Resize(a, size, limit))| > reserved.max;
      var lo := Max(start, KERNEL_END);
      var hi := Min(end, limit);
      var al := EffectiveAlign(align);
      var addr := FindBottomUp(lo, hi, size, al);
      assert addr == a;
      if addr != 0 {
        status := AddReserve(addr, size);
        assert status == Stuck <==> full;
        if status == Done {
          assert reserved.Regions() == want;
          ptr := Some(addr);
        } else {
          ptr := None;
        }
      } else {
        status, ptr := Done, None;
      }
    }

    /** memblock_alloc: __memblock_alloc over the whole window [0, limit]. */
    method Alloc(size: nat, align: nat) returns (status: Status, ptr: Option<nat>)
      requires Valid()
      modifies reserved, reserved.regions
      ensures Valid()
      ensures unchanged(memory) && unchanged(memory.regions)
      ensures var a := FirstFit(old(FreeRanges()), 0, PHYS_ADDR_MAX, size, EffectiveAlign(align));
              && (a == 0 ==> status == Done && ptr == None && unchanged(reserved) && unchanged(reserved.regions))
              && (a != 0 && status == Done ==>
                    && ptr == Some(a)
                    && reserved.Regions() == Merged(Fill(old(reserved.Regions()), a, a + Resize(a, size, limit))))
              && (status == Stuck ==> a != 0 && ptr == None && unchanged(reserved) && unchanged(reserved.regions))
              && (status == Stuck <==>
                    && a != 0 && old(reserved.index) > 0 && Resize(a, size, limit) > 0
                    && old(reserved.index) + |Gaps(old(reserved.Regions()), a, a + Resize(a, size, limit))| > reserved.max)
    {
      status, ptr := AllocRange(size, align, 0, limit);
    }

    /** memblock_free: remove [base, base + size) from reserved, whether or not it was reserved. */
    method Free(base: nat, size: nat) returns (status: Status)
      requires Valid() && base <= PHYS_ADDR_MAX
      modifies reserved, reserved.regions
      ensures Valid()
      ensures unchanged(memory) && unchanged(memory.regions)
      ensures status == Stuck <==> Resize(base, size, limit) > 0 && old(reserved.index) + 2 > reserved.max
      ensures status == Stuck ==> unchanged(reserved) && unchanged(reserved.regions)
      ensures status == Done ==> RemovedFrom(old(reserved.Regions()), reserved.Regions(), base, ResizedEnd(base, size, limit))
    {
      status := RemoveReserve(base, size);
    }
  }
}
