/**
  * What memblock_isolate_range and __memblock_remove compute. Isolation
  * cuts the regions that cross either boundary of [lo, hi); removal then
  * drops the regions that lie inside it.
  */
module IsolateSpec {
  import opened Regions

  /** Region r lies inside [lo, hi). */
  predicate Inside(r: Region, lo: nat, hi: nat) {
    lo <= r.base && r.End() <= hi
  }

  /** Region r lies entirely below lo or entirely at or above hi. */
  predicate Outside(r: Region, lo: nat, hi: nat) {
    r.End() <= lo || hi <= r.base
  }

  /** Region r contains addresses on both sides of the boundary x. */
  predicate Straddles(r: Region, x: nat) {
    r.base < x < r.End()
  }

  /** s with region i cut at x into [base, x) and [x, end). */
  function Split(s: seq<Region>, i: nat, x: nat): (t: seq<Region>)
    requires i < |s| && Straddles(s[i], x)
    ensures |t| == |s| + 1
  {
    s[..i] + [Region(s[i].base, x - s[i].base), Region(x, s[i].End() - x)] + s[i + 1..]
  }

  /** Neighbouring regions touch only at lo or hi: the shape isolation leaves behind in a merged type. */
  ghost predicate CutsOnly(s: seq<Region>, lo: nat, hi: nat) {
    forall k :: 0 <= k < |s| - 1 && s[k].End() == s[k + 1].base ==> s[k].End() == lo || s[k].End() == hi
  }

  /** No region of s crosses lo or hi. */
  ghost predicate NoStraddle(s: seq<Region>, lo: nat, hi: nat) {
    forall k :: 0 <= k < |s| ==> !Straddles(s[k], lo) && !Straddles(s[k], hi)
  }

  /** [st, en) is exactly the set of indices of the regions of s inside [lo, hi). */
  ghost predicate InsideRange(s: seq<Region>, lo: nat, hi: nat, st: nat, en: nat) {
    st <= en <= |s| && forall k :: 0 <= k < |s| ==> (st <= k < en <==> Inside(s[k], lo, hi))
  }

  /** Cutting a region keeps the sequence ordered. */
  lemma SplitOrdered(s: seq<Region>, i: nat, x: nat)
    requires Ordered(s) && i < |s| && Straddles(s[i], x)
    ensures Ordered(Split(s, i, x))
  {
    var t := Split(s, i, x);
    forall k, l | 0 <= k < l < |t| ensures t[k].End() <= t[l].base {
      var k' := if k <= i then k else k - 1;
      var l' := if l <= i then l else l - 1;
      assert t[k].End() <= s[k'].End();
      assert s[l'].base <= t[l].base;
      if k' < l' {
        assert s[k'].End() <= s[l'].base;
      }
    }
    forall k | 0 <= k < |t| ensures 0 < t[k].size && t[k].End() <= PHYS_ADDR_MAX {
      var k' := if k <= i then k else k - 1;
      assert t[k].End() <= s[k'].End();
    }
  }

  /** Replacing a middle part by one with the same addresses keeps the covered set. */
  lemma CoveredReplace(p: seq<Region>, m1: seq<Region>, m2: seq<Region>, q: seq<Region>)
    requires Covered(m1) == Covered(m2)
    ensures Covered(p + m1 + q) == Covered(p + m2 + q)
  {
    CoveredConcat(p + m1, q);
    CoveredConcat(p, m1);
    CoveredConcat(p + m2, q);
    CoveredConcat(p, m2);
  }

  /** Replacing a middle part by one of the same total size keeps the sum. */
  lemma SumReplace(p: seq<Region>, m1: seq<Region>, m2: seq<Region>, q: seq<Region>)
    requires Sum(m1) == Sum(m2)
    ensures Sum(p + m1 + q) == Sum(p + m2 + q)
  {
    SumConcat(p + m1, q);
    SumConcat(p, m1);
    SumConcat(p + m2, q);
    SumConcat(p, m2);
  }

  /** The two halves of a cut region cover what it covered, and their sizes add up to its size. */
  lemma HalvesCover(r: Region, x: nat)
    requires Straddles(r, x)
    ensures Covered([Region(r.base, x - r.base), Region(x, r.End() - x)]) == Covered([r])
    ensures Sum([Region(r.base, x - r.base), Region(x, r.End() - x)]) == Sum([r])
  {
    var a, b := Region(r.base, x - r.base), Region(x, r.End() - x);
    assert [a, b][1..] == [b];
    assert Covered([b]) == Span(b.base, b.End());
    assert Covered([a, b]) == Span(a.base, a.End()) + Covered([b]);
    assert Covered([r]) == Span(r.base, r.End());
    assert Span(r.base, r.End()) == Span(a.base, a.End()) + Span(b.base, b.End());
  }

  /** Cutting a region covers the same addresses and keeps the sum of the sizes. */
  lemma SplitCovered(s: seq<Region>, i: nat, x: nat)
    requires i < |s| && Straddles(s[i], x)
    ensures Covered(Split(s, i, x)) == Covered(s)
    ensures Sum(Split(s, i, x)) == Sum(s)
  {
    var p, h, q := s[..i], [Region(s[i].base, x - s[i].base), Region(x, s[i].End() - x)], s[i + 1..];
    HalvesCover(s[i], x);
    assert Split(s, i, x) == p + h + q;
    assert s == p + [s[i]] + q;
    CoveredReplace(p, h, [s[i]], q);
    SumReplace(p, h, [s[i]], q);
  }

  /** Cutting at lo or hi adds a touching pair at that boundary only. */
  lemma SplitCuts(s: seq<Region>, i: nat, x: nat, lo: nat, hi: nat)
    requires i < |s| && Straddles(s[i], x) && (x == lo || x == hi)
    requires CutsOnly(s, lo, hi)
    ensures CutsOnly(Split(s, i, x), lo, hi)
  {
    var t := Split(s, i, x);
    forall k | 0 <= k < |t| - 1 && t[k].End() == t[k + 1].base ensures t[k].End() == lo || t[k].End() == hi {
      if k < i - 1 {
        assert t[k] == s[k] && t[k + 1] == s[k + 1];
      } else if k == i - 1 {
        assert t[k] == s[k] && t[k + 1].base == s[i].base;
      } else if k == i {
      } else if k == i + 1 {
        assert t[k].End() == s[i].End() && t[k + 1] == s[i + 1];
      } else {
        assert t[k] == s[k - 1] && t[k + 1] == s[k];
      }
    }
  }

  /** Cutting a region leaves every other region in place. */
  lemma SplitKeeps(s: seq<Region>, i: nat, x: nat, r: Region)
    requires i < |s| && Straddles(s[i], x)
    requires r in s && r != s[i]
    ensures r in Split(s, i, x)
  {
    var k :| 0 <= k < |s| && s[k] == r;
    if k < i {
      assert Split(s, i, x)[k] == r;
    } else {
      assert Split(s, i, x)[k + 1] == r;
    }
  }

  /** Outside regions cover no address of [lo, hi). */
  lemma {:induction false} CoveredOutside(u: seq<Region>, lo: nat, hi: nat)
    requires forall k :: 0 <= k < |u| ==> Outside(u[k], lo, hi)
    ensures Covered(u) !! Span(lo, hi)
  {
    if u != [] {
      CoveredOutside(u[1..], lo, hi);
      assert Span(u[0].base, u[0].End()) !! Span(lo, hi);
    }
  }

  /** In an isolated sequence every region outside the reported index range lies outside [lo, hi). */
  lemma IsolatedOutside(s: seq<Region>, lo: nat, hi: nat, st: nat, en: nat, k: nat)
    requires Ordered(s) && lo < hi && NoStraddle(s, lo, hi) && InsideRange(s, lo, hi, st, en)
    requires k < |s| && !(st <= k < en)
    ensures Outside(s[k], lo, hi)
  {
    assert !Inside(s[k], lo, hi) && !Straddles(s[k], lo) && !Straddles(s[k], hi);
  }

  lemma SetCut(a: set<nat>, m: set<nat>, b: set<nat>, z: set<nat>)
    requires a !! z && b !! z && m <= z
    ensures a + b == (a + m + b) - z
  {
  }

  /**
    * Dropping the isolated index range removes exactly [lo, hi) from the
    * covered addresses.
    */
  lemma RemovedCovered(s: seq<Region>, lo: nat, hi: nat, st: nat, en: nat)
    requires Ordered(s) && lo < hi && NoStraddle(s, lo, hi) && InsideRange(s, lo, hi, st, en)
    ensures Covered(s[..st] + s[en..]) == Covered(s) - Span(lo, hi)
  {
    var a, m, b := s[..st], s[st..en], s[en..];
    assert s == a + m + b;
    CoveredConcat(a + m, b);
    CoveredConcat(a, m);
    CoveredConcat(a, b);
    forall k | 0 <= k < |a| ensures Outside(a[k], lo, hi) {
      IsolatedOutside(s, lo, hi, st, en, k);
    }
    forall k | 0 <= k < |b| ensures Outside(b[k], lo, hi) {
      assert b[k] == s[en + k];
      IsolatedOutside(s, lo, hi, st, en, en + k);
    }
    forall k | 0 <= k < |m| ensures lo <= m[k].base && m[k].End() <= hi {
      assert m[k] == s[st + k];
    }
    CoveredOutside(a, lo, hi);
    CoveredOutside(b, lo, hi);
    CoveredBounds(m, lo, hi);
    SetCut(Covered(a), Covered(m), Covered(b), Span(lo, hi));
  }

  /** Dropping any index range of an ordered sequence leaves it ordered. */
  lemma RemovedOrdered(s: seq<Region>, st: nat, en: nat)
    requires Ordered(s) && st <= en <= |s|
    ensures Ordered(s[..st] + s[en..])
  {
    var a, b := s[..st], s[en..];
    OrderedSlice(s, 0, st);
    OrderedSlice(s, en, |s|);
    forall k, l | 0 <= k < |a| && 0 <= l < |b| ensures a[k].End() <= b[l].base {
      assert a[k] == s[k] && b[l] == s[en + l];
    }
    OrderedConcat(a, b);
  }

  /** Two ordered regions outside [lo, hi) that touch only at lo or hi do not touch at all. */
  lemma OutsidePairApart(x: Region, y: Region, lo: nat, hi: nat)
    requires lo < hi && 0 < x.size && 0 < y.size && x.End() <= y.base
    requires Outside(x, lo, hi) && Outside(y, lo, hi)
    requires x.End() == y.base ==> x.End() == lo || x.End() == hi
    ensures x.End() < y.base
  {
  }

  /**
    * When neighbours touch only at the cut points (a merged type after
    * isolation), dropping the isolated range leaves a fully merged type.
    */
  lemma RemovedMinimal(s: seq<Region>, lo: nat, hi: nat, st: nat, en: nat)
    requires Ordered(s) && lo < hi && NoStraddle(s, lo, hi) && InsideRange(s, lo, hi, st, en)
    requires CutsOnly(s, lo, hi)
    ensures Minimal(s[..st] + s[en..])
  {
    var u := s[..st] + s[en..];
    forall k | 0 <= k < |u| - 1 ensures u[k].End() < u[k + 1].base {
      var i := if k < st then k else k - st + en;
      var j := if k + 1 < st then k + 1 else k + 1 - st + en;
      assert u[k] == s[i] && u[k + 1] == s[j];
      IsolatedOutside(s, lo, hi, st, en, i);
      IsolatedOutside(s, lo, hi, st, en, j);
      if j == i + 1 {
        OutsidePairApart(s[i], s[j], lo, hi);
      } else {
        assert Inside(s[st], lo, hi);
        assert s[i].End() <= s[st].base && s[st].End() <= s[j].base;
      }
    }
  }

  /**
    * The state of the memblock_isolate_range walk at region i: s is the
    * original s0 with at most two regions cut. Every region before i lies
    * below lo or inside [lo, hi), and [st, en) holds exactly the inside ones
    * seen so far (en == 0 until the first). After a cut no region from i on
    * starts below lo, and after two no region from i on crosses hi.
    */
  ghost predicate IsolateInv(s0: seq<Region>, s: seq<Region>, i: nat, st: nat, en: nat, lo: nat, hi: nat) {
    && lo < hi
    && Ordered(s) && |s0| <= |s| <= |s0| + 2 && i <= |s|
    && Covered(s) == Covered(s0) && Sum(s) == Sum(s0)
    && (forall k :: 0 <= k < i ==> s[k].End() <= lo || Inside(s[k], lo, hi))
    && ((en == 0 && st == 0 && forall k :: 0 <= k < i ==> s[k].End() <= lo)
        || (st < en == i && forall k :: 0 <= k < i ==> (st <= k <==> Inside(s[k], lo, hi))))
    && (|s0| < |s| ==> forall k :: i <= k < |s| ==> lo <= s[k].base)
    && (|s0| + 1 < |s| ==> forall k :: i <= k < |s| ==> !Straddles(s[k], hi))
    && (forall r :: r in s0 && !Straddles(r, lo) && !Straddles(r, hi) ==> r in s)
    && (Minimal(s0) ==> CutsOnly(s, lo, hi))
  }

  /** The walk starts on the untouched sequence with nothing recorded. */
  lemma IsolateStart(s0: seq<Region>, lo: nat, hi: nat)
    requires Ordered(s0) && lo < hi
    ensures IsolateInv(s0, s0, 0, 0, 0, lo, hi)
  {
  }

  /** A region entirely below lo is passed over. */
  lemma IsolateSkip(s0: seq<Region>, s: seq<Region>, i: nat, st: nat, en: nat, lo: nat, hi: nat)
    requires IsolateInv(s0, s, i, st, en, lo, hi) && i < |s| && s[i].End() <= lo
    ensures IsolateInv(s0, s, i + 1, st, en, lo, hi)
  {
    assert 0 < i ==> s[i - 1].End() <= s[i].base;
  }

  /** A region crossing lo is cut there; the walk moves on to the upper half. */
  lemma IsolateCutLow(s0: seq<Region>, s: seq<Region>, i: nat, st: nat, en: nat, lo: nat, hi: nat)
    requires IsolateInv(s0, s, i, st, en, lo, hi) && i < |s| && Straddles(s[i], lo)
    ensures |s| == |s0|
    ensures IsolateInv(s0, Split(s, i, lo), i + 1, st, en, lo, hi)
  {
    var t := Split(s, i, lo);
    assert 0 < i ==> s[i - 1].End() <= s[i].base;
    SplitOrdered(s, i, lo);
    SplitCovered(s, i, lo);
    forall r | r in s0 && !Straddles(r, lo) && !Straddles(r, hi) ensures r in t {
      SplitKeeps(s, i, lo, r);
    }
    if Minimal(s0) {
      SplitCuts(s, i, lo, lo, hi);
    }
    forall k | i + 1 <= k < |t| ensures lo <= t[k].base {
      if k > i + 1 {
        assert t[k] == s[k - 1];
      }
    }
    forall k | 0 <= k < i + 1 ensures t[k].End() <= lo {
      if k < i {
        assert t[k] == s[k];
      }
    }
  }

  /** A region crossing hi is cut there; the walk revisits the lower half. */
  lemma IsolateCutHigh(s0: seq<Region>, s: seq<Region>, i: nat, st: nat, en: nat, lo: nat, hi: nat)
    requires IsolateInv(s0, s, i, st, en, lo, hi) && i < |s| && lo <= s[i].base && Straddles(s[i], hi)
    ensures |s| < |s0| + 2
    ensures IsolateInv(s0, Split(s, i, hi), i, st, en, lo, hi)
  {
    var t := Split(s, i, hi);
    SplitOrdered(s, i, hi);
    SplitCovered(s, i, hi);
    forall r | r in s0 && !Straddles(r, lo) && !Straddles(r, hi) ensures r in t {
      SplitKeeps(s, i, hi, r);
    }
    if Minimal(s0) {
      SplitCuts(s, i, hi, lo, hi);
    }
    forall k | i <= k < |t| ensures lo <= t[k].base && !Straddles(t[k], hi) {
      if k > i + 1 {
        assert t[k] == s[k - 1];
        assert s[i].End() <= s[k - 1].base;
      }
    }
    assert forall k :: 0 <= k < i ==> t[k] == s[k];
  }

  /** A region inside [lo, hi) is recorded: the first one sets st, each one moves en past it. */
  lemma IsolateRecord(s0: seq<Region>, s: seq<Region>, i: nat, st: nat, en: nat, lo: nat, hi: nat)
    requires IsolateInv(s0, s, i, st, en, lo, hi) && i < |s| && Inside(s[i], lo, hi)
    ensures IsolateInv(s0, s, i + 1, if en == 0 then i else st, i + 1, lo, hi)
  {
  }

  /**
    * What memblock_isolate_range leaves of s0 for [lo, hi): the same
    * addresses and total size, still sorted and disjoint, at most two more
    * regions, none crossing lo or hi, [st, en) exactly the index range of
    * the regions inside [lo, hi), every region that crossed neither
    * boundary still present and, when s0 was fully merged, neighbours
    * touching only at lo or hi.
    */
  ghost predicate Isolated(s0: seq<Region>, s: seq<Region>, lo: nat, hi: nat, st: nat, en: nat) {
    && Ordered(s) && Covered(s) == Covered(s0) && Sum(s) == Sum(s0) && |s0| <= |s| <= |s0| + 2
    && NoStraddle(s, lo, hi) && InsideRange(s, lo, hi, st, en)
    && (forall r :: r in s0 && !Straddles(r, lo) && !Straddles(r, hi) ==> r in s)
    && (Minimal(s0) ==> CutsOnly(s, lo, hi))
  }

  /**
    * When the walk stops (past the last region, or at a region starting at
    * or above hi) the sequence is isolated: no region crosses lo or hi, and
    * [st, en) is exactly the index range of the regions inside [lo, hi).
    */
  lemma IsolateFinish(s0: seq<Region>, s: seq<Region>, i: nat, st: nat, en: nat, lo: nat, hi: nat)
    requires IsolateInv(s0, s, i, st, en, lo, hi) && (i == |s| || hi <= s[i].base)
    ensures Isolated(s0, s, lo, hi, st, en)
  {
    forall k | i <= k < |s| ensures hi <= s[k].base {
      if k > i {
        assert s[i].End() <= s[k].base;
      }
    }
  }

  lemma SetSplitCard(a: set<nat>, b: set<nat>)
    ensures |a - b| == |a| - |a * b|
  {
    assert a == (a - b) + (a * b);
    assert (a - b) * (a * b) == {};
  }

  /**
    * Dropping the isolated index range lowers the sum of the sizes by the
    * number of covered addresses that lie in [lo, hi).
    */
  lemma RemovedSum(s: seq<Region>, lo: nat, hi: nat, st: nat, en: nat)
    requires Ordered(s) && lo < hi && NoStraddle(s, lo, hi) && InsideRange(s, lo, hi, st, en)
    ensures Sum(s[..st] + s[en..]) == Sum(s) - |Covered(s) * Span(lo, hi)|
  {
    RemovedCovered(s, lo, hi, st, en);
    RemovedOrdered(s, st, en);
    SumIsMeasure(s);
    SumIsMeasure(s[..st] + s[en..]);
    SetSplitCard(Covered(s), Span(lo, hi));
  }

  /** Dropping the isolated index range keeps every region that lies outside [lo, hi). */
  lemma RemovedKeeps(s: seq<Region>, lo: nat, hi: nat, st: nat, en: nat, r: Region)
    requires Ordered(s) && InsideRange(s, lo, hi, st, en)
    requires r in s && Outside(r, lo, hi)
    ensures r in s[..st] + s[en..]
  {
    var k :| 0 <= k < |s| && s[k] == r;
    if k < st {
      assert (s[..st] + s[en..])[k] == r;
    } else {
      assert (s[..st] + s[en..])[k - en + st] == r;
    }
  }

  /**
    * What __memblock_remove leaves of s0 for [lo, hi): exactly the
    * addresses of [lo, hi) are no longer covered, the sum of the sizes drops
    * by the number of addresses of s0 in [lo, hi), every region outside
    * [lo, hi) survives, and the sequence is sorted, disjoint and fully merged.
    */
  ghost predicate RemovedFrom(s0: seq<Region>, s: seq<Region>, lo: nat, hi: nat) {
    && Covered(s) == Covered(s0) - Span(lo, hi)
    && Sum(s) == Sum(s0) - |Covered(s0) * Span(lo, hi)|
    && (forall r :: r in s0 && Outside(r, lo, hi) ==> r in s)
    && Ordered(s) && Minimal(s)
  }

  /**
    * __memblock_remove's effect: once s0, sorted, disjoint and fully merged,
    * is isolated for a non-empty [lo, hi) into s, dropping the inside
    * regions s[st..en) removes [lo, hi) from it.
    */
  lemma RemovedEffect(s0: seq<Region>, s: seq<Region>, lo: nat, hi: nat, st: nat, en: nat)
    requires Ordered(s0) && Minimal(s0) && lo < hi && Isolated(s0, s, lo, hi, st, en)
    ensures RemovedFrom(s0, s[..st] + s[en..], lo, hi)
  {
    RemovedCovered(s, lo, hi, st, en);
    RemovedSum(s, lo, hi, st, en);
    RemovedOrdered(s, st, en);
    RemovedMinimal(s, lo, hi, st, en);
    forall r | r in s0 && Outside(r, lo, hi) ensures r in s[..st] + s[en..] {
      RemovedKeeps(s, lo, hi, st, en, r);
    }
  }

  /** Removing an empty range leaves a sorted, disjoint, fully merged sequence as it is. */
  lemma RemovedNothing(s0: seq<Region>, lo: nat, hi: nat)
    requires Ordered(s0) && Minimal(s0) && lo == hi
    ensures RemovedFrom(s0, s0, lo, hi)
  {
    assert Span(lo, hi) == {};
    assert Covered(s0) - Span(lo, hi) == Covered(s0);
    assert Covered(s0) * Span(lo, hi) == {};
  }
}
