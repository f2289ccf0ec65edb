/**
  * struct memblock_type and the operations of memblock.c on one type: the
  * array primitives that shift regions in place, __memblock_add,
  * memblock_isolate_range and __memblock_remove.
  */
module RegionArray {
  import opened Regions
  import opened MergeSpec
  import opened AddSpec
  import opened IsolateSpec

  /** INIT_MEMBLOCK_MEMORY_REGIONS, which INIT_MEMBLOCK_RESERVED_REGIONS repeats. */
  const INIT_MEMBLOCK_REGIONS: nat := 128

  /**
    * How a mutator ended. Stuck stands for the resize loop, which spins
    * forever when the array has no room; it is reached without any change.
    */
  datatype Status = Done | Stuck

  /** memblock_resize: size cut back so that [base, base + size) ends at or below limit. */
  function Resize(base: nat, size: nat, limit: nat): (r: nat)
    requires base <= limit
    ensures r <= size && base + r <= limit
    ensures base + size <= limit ==> r == size
    ensures r < size ==> base + r == limit
  {
    Min(size, limit - base)
  }

  /** The end of [base, base + size) once memblock_resize has cut it at limit. */
  function ResizedEnd(base: nat, size: nat, limit: nat): (e: nat)
    requires base <= limit
    ensures base <= e <= limit && e - base == Resize(base, size, limit)
  {
    base + Resize(base, size, limit)
  }

  /** Element-wise description of s with x put at position i. */
  lemma ShiftedUp(r: seq<Region>, s: seq<Region>, i: nat, x: Region)
    requires i <= |s| && |r| == |s| + 1 && r[i] == x
    requires forall k :: 0 <= k < i ==> r[k] == s[k]
    requires forall k :: i < k < |r| ==> r[k] == s[k - 1]
    ensures r == s[..i] + [x] + s[i..]
  {
  }

  /** Element-wise description of s with position i dropped. */
  lemma ShiftedDown(r: seq<Region>, s: seq<Region>, i: nat)
    requires i < |s| && |r| == |s| - 1
    requires forall k :: 0 <= k < i ==> r[k] == s[k]
    requires forall k :: i <= k < |r| ==> r[k] == s[k + 1]
    ensures r == s[..i] + s[i + 1..]
  {
  }

  /** Element-wise description of s with positions i and i + 1 replaced by x. */
  lemma ShiftedJoin(r: seq<Region>, s: seq<Region>, i: nat, x: Region)
    requires i + 1 < |s| && |r| == |s| - 1 && r[i] == x
    requires forall k :: 0 <= k < i ==> r[k] == s[k]
    requires forall k :: i < k < |r| ==> r[k] == s[k + 1]
    ensures r == s[..i] + [x] + s[i + 2..]
  {
  }

  lemma SumInserted(s: seq<Region>, i: nat, x: Region)
    requires i <= |s|
    ensures Sum(s[..i] + [x] + s[i..]) == Sum(s) + x.size
  {
    var a, b := s[..i], s[i..];
    assert s == a + b;
    SumConcat(a, b);
    SumConcat(a + [x], b);
    SumConcat(a, [x]);
    assert Sum([x]) == x.size by {
      assert [x][1..] == [];
    }
  }

  lemma SumRemoved(s: seq<Region>, i: nat)
    requires i < |s|
    ensures Sum(s[..i] + s[i + 1..]) == Sum(s) - s[i].size
  {
    var a, b := s[..i], s[i + 1..];
    assert s == (a + [s[i]]) + b;
    SumConcat(a, b);
    SumConcat(a + [s[i]], b);
    SumConcat(a, [s[i]]);
    assert Sum([s[i]]) == s[i].size by {
      assert [s[i]][1..] == [];
    }
  }

  lemma SumUpdated(s: seq<Region>, i: nat, v: Region)
    requires i < |s|
    ensures Sum(s[i := v]) == Sum(s) - s[i].size + v.size
  {
    var u := s[i := v];
    assert s == s[..i] + ([s[i]] + s[i + 1..]);
    assert u == s[..i] + ([v] + s[i + 1..]);
    SumConcat(s[..i], [s[i]] + s[i + 1..]);
    SumConcat(s[..i], [v] + s[i + 1..]);
    assert ([s[i]] + s[i + 1..])[1..] == s[i + 1..];
    assert ([v] + s[i + 1..])[1..] == s[i + 1..];
  }

  /**
    * Cutting region i of s at x in place: u is s with region i narrowed to
    * its upper half [x, end); inserting the lower half before it gives the
    * cut sequence.
    */
  lemma CutInPlace(s: seq<Region>, i: nat, x: nat, u: seq<Region>, lower: Region)
    requires i < |s| && Straddles(s[i], x)
    requires u == s[i := Region(x, s[i].End() - x)] && lower == Region(s[i].base, x - s[i].base)
    ensures u[..i] + [lower] + u[i..] == Split(s, i, x)
  {
    var v := u[i];
    assert u[..i] == s[..i];
    assert u[i..] == [v] + s[i + 1..];
    Regroup(s[..i] + [lower], [v], s[i + 1..]);
    Regroup(s[..i], [lower], [v]);
    assert [lower] + [v] == [lower, v];
  }

  /** Dropping position k of s[..k + 1] + s[en..] leaves s[..k] + s[en..]. */
  lemma DropBelow(s: seq<Region>, k: nat, en: nat)
    requires k < en <= |s|
    ensures var t := s[..k + 1] + s[en..]; t[..k] + t[k + 1..] == s[..k] + s[en..]
  {
    var t := s[..k + 1] + s[en..];
    assert t[..k] == s[..k];
    assert t[k + 1..] == s[en..];
  }

  /** struct memblock_type: a fixed array of regions, its live count and the cached total size. */
  class RegionType {
    const regions: array<Region>
    const max: nat
    var index: nat
    var totalSize: nat

    /** The live regions regions[0 .. index). */
    function Regions(): seq<Region>
      reads this, regions
      requires index <= regions.Length
    {
      regions[..index]
    }

    /** The array has capacity max, at most max regions are live, and total_size is the sum of their sizes. */
    ghost predicate Valid()
      reads this, regions
    {
      regions.Length == max && 0 < max && index <= max && totalSize == Sum(regions[..index])
    }

    /** What every type keeps between calls: sorted, disjoint, non-empty regions with no adjacent pair left. */
    ghost predicate Canonical()
      reads this, regions
    {
      Valid() && Ordered(regions[..index]) && Minimal(regions[..index])
    }

    /** A type with capacity regions, all zero, none live. */
    constructor (capacity: nat)
      requires 0 < capacity
      ensures Canonical() && max == capacity && Regions() == [] && totalSize == 0
      ensures fresh(regions)
    {
      regions := new Region[capacity](_ => Region(0, 0));
      max := capacity;
      index := 0;
      totalSize := 0;
    }

    /** memblock_insert_region: shift regions [i, index) up by one and put (base, size) at i. */
    method InsertRegion(i: nat, base: nat, size: nat)
      requires Valid() && i <= index < max
      modifies this, regions
      ensures Valid()
      ensures index == old(index) + 1 && totalSize == old(totalSize) + size
      ensures Regions() == old(Regions()[..i]) + [Region(base, size)] + old(Regions()[i..])
    {
      forall k | i < k <= index {
        regions[k] := regions[k - 1];
      }
      regions[i] := Region(base, size);
      index := index + 1;
      totalSize := totalSize + size;
      ghost var s := old(Regions());
      ShiftedUp(Regions(), s, i, Region(base, size));
      SumInserted(s, i, Region(base, size));
    }

    /** memblock_remove_region: drop region i, shifting the later ones down; an emptied type gets slot 0 cleared. */
    method RemoveRegion(i: nat)
      requires Valid() && i < index
      modifies this, regions
      ensures Valid()
      ensures index == old(index) - 1 && totalSize == old(totalSize) - old(regions[i].size)
      ensures Regions() == old(Regions()[..i]) + old(Regions()[i + 1..])
      ensures index == 0 ==> regions[0] == Region(0, 0)
    {
      ghost var s := Regions();
      SumRemoved(s, i);
      totalSize := totalSize - regions[i].size;
      forall k | i <= k < index - 1 {
        regions[k] := regions[k + 1];
      }
      index := index - 1;
      ShiftedDown(Regions(), s, i);
      if index == 0 {
        regions[0] := Region(0, 0);
      }
    }

    /** memblock_merge_regions: one pass that joins each region with a next one starting where it ends. */
    method MergeRegions()
      requires Valid() && 1 <= index
      modifies this, regions
      ensures Valid() && totalSize == old(totalSize)
      ensures Regions() == Merged(old(Regions()))
    {
      var i := 0;
      while i < index - 1
        invariant regions.Length == max && 1 <= index <= max && i < index
        invariant totalSize == old(totalSize)
        invariant Regions()[..i] + Merged(Regions()[i..]) == Merged(old(Regions()))
        decreases index - i
      {
        ghost var s := Regions();
        var this_, next := regions[i], regions[i + 1];
        if this_.End() != next.base {
          MergeStepSkip(s, i);
          i := i + 1;
        } else {
          MergeStepJoin(s, i);
          regions[i] := Join(this_, next);
          forall k | i + 1 <= k < index - 1 {
            regions[k] := regions[k + 1];
          }
          index := index - 1;
          ShiftedJoin(Regions(), s, i, Join(s[i], s[i + 1]));
        }
      }
      assert Regions() == Regions()[..i] + Regions()[i..];
      MergedSum(old(Regions()));
    }

    /**
      * The first pass of the region walk in __memblock_add (the loop after
      * the repeat label with insert false): it counts the pieces of
      * [base, iend) that no region covers, and changes nothing.
      */
    method CountPieces(base: nat, iend: nat) returns (insertNum: nat)
      requires Valid()
      ensures insertNum == |Gaps(Regions(), base, iend)|
    {
      var ibase: nat := base;
      insertNum := 0;
      var i: nat := 0;
      while i < index
        invariant i <= index
        invariant insertNum + |Gaps(Regions()[i..], ibase, iend)| == |Gaps(Regions(), base, iend)|
        decreases index - i
      {
        ghost var todo := Regions()[i..];
        assert regions[i] == todo[0] && todo[1..] == Regions()[i + 1..];
        var rbase := regions[i].base;
        var rend := rbase + regions[i].size;
        if rbase >= iend {
          break;
        }
        GapsStep(todo, ibase, iend);
        if rend <= ibase {
          i := i + 1;
          continue;
        }
        if rbase > ibase {
          insertNum := insertNum + 1;
        }
        ibase := Min(rend, iend);
        i := i + 1;
      }
      assert Gaps(Regions()[i..], ibase, iend) == Piece(ibase, iend);
      if ibase < iend {
        insertNum := insertNum + 1;
      }
    }

    /**
      * Where the second pass stands: pre, the regions walked, and todo, the
      * regions still to visit, make up the array; the pieces still to
      * insert fit; and what has been walked followed by the rest of the
      * walk from cursor ibase is the final result full.
      */
    ghost predicate Walking(pre: seq<Region>, todo: seq<Region>, ibase: nat, iend: nat, full: seq<Region>)
      reads this, regions
    {
      && Valid() && Regions() == pre + todo
      && index + |Gaps(todo, ibase, iend)| <= max
      && pre + Fill(todo, ibase, iend) == full
    }

    /**
      * One turn of the second pass at regions[i], a region starting below
      * iend: a region ending at or below the cursor is skipped; otherwise
      * the piece below it, if any, is inserted in front of it, and the
      * cursor moves to its end (at most iend). j is the next index to visit.
      */
    method InsertStep(i: nat, ibase: nat, iend: nat, ghost pre: seq<Region>, ghost todo: seq<Region>, ghost full: seq<Region>)
      returns (j: nat, next: nat, ghost pre': seq<Region>, ghost todo': seq<Region>)
      requires Walking(pre, todo, ibase, iend, full) && i == |pre| && i < index && regions[i].base < iend
      modifies this, regions
      ensures Walking(pre', todo', next, iend, full) && j == |pre'| && todo != [] && todo' == todo[1..]
    {
      assert regions[i] == Regions()[i] == todo[0];
      var rbase := regions[i].base;
      var rend := rbase + regions[i].size;
      if rend <= ibase {
        WalkSkip(pre, todo, ibase, iend, full);
        j, next, pre', todo' := i + 1, ibase, pre + [todo[0]], todo[1..];
      } else if rbase > ibase {
        next := Min(rend, iend);
        ghost var x := Region(ibase, rbase - ibase);
        GapsInsert(todo, ibase, next, iend, x);
        ghost var before := Regions();
        InsertRegion(i, ibase, rbase - ibase);
        WalkInsert(pre, todo, ibase, next, iend, full, x, before, Regions());
        j, pre', todo' := i + 2, pre + [x, todo[0]], todo[1..];
      } else {
        next := Min(rend, iend);
        WalkCovered(pre, todo, ibase, next, iend, full);
        j, pre', todo' := i + 1, pre + [todo[0]], todo[1..];
      }
    }

    /**
      * The second pass of the same walk (insert true): each uncovered piece
      * of [base, iend) is inserted in front of the region it precedes, and
      * the remainder after the last region.
      */
    method InsertPieces(base: nat, iend: nat)
      requires Valid() && index + |Gaps(Regions(), base, iend)| <= max
      modifies this, regions
      ensures Valid() && Regions() == Fill(old(Regions()), base, iend)
    {
      ghost var full := Fill(Regions(), base, iend);
      var ibase: nat := base;
      var i: nat := 0;
      ghost var pre: seq<Region> := [];
      ghost var todo := Regions();
      while i < index
        invariant Walking(pre, todo, ibase, iend, full) && i == |pre|
        decreases |todo|
      {
        if regions[i].base >= iend {
          break;
        }
        i, ibase, pre, todo := InsertStep(i, ibase, iend, pre, todo, full);
      }
      assert todo == [] || todo[0] == regions[i];
      ghost var before := Regions();
      assert Gaps(todo, ibase, iend) == Piece(ibase, iend);
      if ibase < iend {
        InsertRegion(i, ibase, iend - ibase);
      }
      WalkEnd(pre, todo, ibase, iend, full, before, Regions());
    }

    /**
      * A split in memblock_isolate_range: region i keeps its upper half
      * [x, end) in place, total_size drops by the lower half, and the lower
      * half [base, x) is inserted in front of it.
      */
    method CutRegion(i: nat, x: nat)
      requires Valid() && i < index < max && Straddles(regions[i], x)
      modifies this, regions
      ensures Valid()
      ensures index == old(index) + 1 && totalSize == old(totalSize)
      ensures Regions() == Split(old(Regions()), i, x)
    {
      ghost var s := Regions();
      assert regions[i] == s[i];
      var rbase := regions[i].base;
      var rend := rbase + regions[i].size;
      regions[i] := Region(x, rend - x);
      assert Regions() == s[i := Region(x, rend - x)];
      SumUpdated(s, i, Region(x, rend - x));
      totalSize := totalSize - (x - rbase);
      ghost var u := Regions();
      CutInPlace(s, i, x, u, Region(rbase, x - rbase));
      InsertRegion(i, rbase, x - rbase);
    }

    /**
      * Where the isolation walk stands: the array holds s0 with at most two
      * regions cut so far, there is room for two more regions than s0 has,
      * and IsolateInv describes the walk up to region i with [st, en) the
      * inside regions recorded.
      */
    ghost predicate Isolating(s0: seq<Region>, i: nat, st: nat, en: nat, lo: nat, hi: nat)
      reads this, regions
    {
      && Valid() && |s0| + 2 <= max && index <= |s0| + 2
      && IsolateInv(s0, Regions(), i, st, en, lo, hi)
    }

    /**
      * One turn of the memblock_isolate_range walk at regions[i], a region
      * starting below hi: a region ending at or below lo is passed over; one
      * crossing lo is cut there and the walk moves to its upper half; one
      * crossing hi is cut there and the walk revisits its lower half; a
      * region inside [lo, hi) is recorded in [st, en).
      */
    method IsolateStep(i: nat, st: nat, en: nat, lo: nat, hi: nat, ghost s0: seq<Region>)
      returns (next: nat, st': nat, en': nat)
      requires Isolating(s0, i, st, en, lo, hi) && i < index && regions[i].base < hi
      modifies this, regions
      ensures Isolating(s0, next, st', en', lo, hi)
      ensures old(index) < index || (index == old(index) && i < next)
    {
      ghost var s := Regions();
      assert regions[i] == s[i];
      var rbase := regions[i].base;
      var rend := rbase + regions[i].size;
      next, st', en' := i + 1, st, en;
      if rend <= lo {
        IsolateSkip(s0, s, i, st, en, lo, hi);
      } else if rbase < lo {
        IsolateCutLow(s0, s, i, st, en, lo, hi);
        CutRegion(i, lo);
      } else if rend > hi {
        IsolateCutHigh(s0, s, i, st, en, lo, hi);
        CutRegion(i, hi);
        next := i;
      } else {
        IsolateRecord(s0, s, i, st, en, lo, hi);
        if en == 0 {
          st' := i;
        }
        en' := i + 1;
      }
    }

    /**
      * memblock_isolate_range: cut the regions crossing base or the end of
      * [base, base + size), cut at limit, so that the regions inside form
      * the index range [startRegion, endRegion). An empty range changes
      * nothing and reports [0, 0); Stuck is the resize loop, which spins
      * whenever two more regions might not fit, needed or not.
      */
    method IsolateRange(base: nat, size: nat, limit: nat) returns (status: Status, startRegion: nat, endRegion: nat)
      requires Canonical() && base <= limit <= PHYS_ADDR_MAX
      modifies this, regions
      ensures Valid() && totalSize == old(totalSize)
      ensures status == Stuck <==> Resize(base, size, limit) > 0 && old(index) + 2 > max
      ensures status == Stuck || Resize(base, size, limit) == 0 ==>
                unchanged(this) && unchanged(regions) && startRegion == 0 && endRegion == 0
      ensures status == Done && Resize(base, size, limit) > 0 ==>
                Isolated(old(Regions()), Regions(), base, ResizedEnd(base, size, limit), startRegion, endRegion)
    {
      ghost var s0 := old(Regions());
      var hi := ResizedEnd(base, size, limit);
      startRegion, endRegion := 0, 0;
      if hi == base {
        return Done, 0, 0;
      }
      if index + 2 > max {
        return Stuck, 0, 0;
      }
      IsolateStart(s0, base, hi);
      var i: nat := 0;
      while i < index
        invariant Isolating(s0, i, startRegion, endRegion, base, hi)
        decreases |s0| + 2 - index, index - i
      {
        if regions[i].base >= hi {
          break;
        }
        i, startRegion, endRegion := IsolateStep(i, startRegion, endRegion, base, hi, s0);
      }
      IsolateFinish(s0, Regions(), i, startRegion, endRegion, base, hi);
      return Done, startRegion, endRegion;
    }

    /**
      * The loop of __memblock_remove: memblock_remove_region on each index
      * of [st, en), from the last one down, drops that index range.
      */
    method RemoveRange(st: nat, en: nat)
      requires Valid() && st <= en <= index
      modifies this, regions
      ensures Valid()
      ensures Regions() == old(Regions()[..st] + Regions()[en..])
      ensures st < en && index == 0 ==> regions[0] == Region(0, 0)
    {
      ghost var s := Regions();
      // k is one past the index the source's downward loop variable holds.
      var k := en;
      while k > st
        invariant Valid() && st <= k <= en <= |s|
        invariant Regions() == s[..k] + s[en..]
        invariant k < en && index == 0 ==> regions[0] == Region(0, 0)
        decreases k
      {
        k := k - 1;
        DropBelow(s, k, en);
        RemoveRegion(k);
      }
    }

    /**
      * __memblock_remove: isolate [base, base + size), cut at limit, then
      * drop the regions inside it. The addresses in the range are no longer
      * covered, total_size drops by as many, every region lying outside the
      * range survives, and the type stays sorted, disjoint and fully
      * merged. Stuck is the resize loop of the isolation.
      */
    method Remove(base: nat, size: nat, limit: nat) returns (status: Status)
      requires Canonical() && base <= limit <= PHYS_ADDR_MAX
      modifies this, regions
      ensures Canonical()
      ensures status == Stuck <==> Resize(base, size, limit) > 0 && old(index) + 2 > max
      ensures status == Stuck ==> unchanged(this) && unchanged(regions)
      ensures status == Done ==> RemovedFrom(old(Regions()), Regions(), base, ResizedEnd(base, size, limit))
      ensures old(index) > 0 && index == 0 ==> regions[0] == Region(0, 0)
    {
      ghost var s0 := old(Regions());
      ghost var hi := ResizedEnd(base, size, limit);
      var startRegion, endRegion;
      status, startRegion, endRegion := IsolateRange(base, size, limit);
      if status == Stuck {
        return;
      }
      ghost var s := Regions();
      RemoveRange(startRegion, endRegion);
      if hi > base {
        RemovedEffect(s0, s, base, hi, startRegion, endRegion);
      } else {
        assert s == s0 && startRegion == 0 && endRegion == 0;
        assert Regions() == s0;
        RemovedNothing(s0, base, hi);
      }
    }

    /**
      * The part of __memblock_add after the empty-type case: the first pass
      * counts the pieces of [base, iend) to insert; none means nothing
      * changes; when they do not fit the resize loop spins (Stuck);
      * otherwise the second pass inserts them and the regions are merged.
      */
    method AddWalk(base: nat, iend: nat) returns (status: Status)
      requires Canonical() && 0 < index && base < iend <= PHYS_ADDR_MAX
      modifies this, regions
      ensures Canonical()
      ensures status == Stuck <==> old(index) + |Gaps(old(Regions()), base, iend)| > max
      ensures status == Stuck ==> unchanged(this) && unchanged(regions)
      ensures status == Done ==> Regions() == Merged(Fill(old(Regions()), base, iend))
    {
      ghost var s0 := Regions();
      var n := CountPieces(base, iend);
      if n == 0 {
        AddNoGaps(s0, base, iend);
        return Done;
      }
      if index + n > max {
        return Stuck;
      }
      InsertPieces(base, iend);
      ghost var filled := Regions();
      FillLength(s0, base, iend);
      AddOrdered(s0, base, iend);
      MergeRegions();
      return Done;
    }

    /**
      * __memblock_add: make [base, base + size), cut at limit, covered. An
      * empty range changes nothing; an empty type takes the range as its
      * only region; otherwise the walk inserts the uncovered pieces and the
      * regions are merged. Stuck is the resize loop when the pieces do not
      * fit.
      */
    method Add(base: nat, size: nat, limit: nat) returns (status: Status)
      requires Canonical() && base <= limit <= PHYS_ADDR_MAX
      modifies this, regions
      ensures Canonical()
      ensures status == Stuck <==>
                && old(index) > 0 && Resize(base, size, limit) > 0
                && old(index) + |Gaps(old(Regions()), base, base + Resize(base, size, limit))| > max
      ensures status == Stuck ==> unchanged(this) && unchanged(regions)
      ensures status == Done ==> Regions() == Merged(Fill(old(Regions()), base, base + Resize(base, size, limit)))
    {
      ghost var s0 := old(Regions());
      ghost var want := Merged(Fill(old(Regions()), base, base + Resize(base, size, limit)));
      var iend := base + Resize(base, size, limit);
      var sz := iend - base;
      if sz == 0 {
        GapsEmptyRange(s0, base, iend);
        AddNoGaps(s0, base, iend);
        assert Regions() == want;
        return Done;
      }
      if index == 0 {
        regions[0] := Region(base, sz);
        totalSize := sz;
        index := index + 1;
        assert s0 == [] && Regions() == [Region(base, sz)];
        AddToEmpty(base, iend);
        assert Regions() == want;
        return Done;
      }
      status := AddWalk(base, iend);
      if status == Done {
        assert Regions() == want;
      }
    }
  }
}
