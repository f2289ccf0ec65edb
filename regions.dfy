/**
  * Address arithmetic and the abstract view of a memblock region array: the
  * set of addresses its regions cover, the sum of their sizes, and the
  * ordering invariant that every memblock type keeps between calls.
  */
module Regions {

  /** Largest value of phys_addr_t, a 64-bit unsigned integer. */
  const PHYS_ADDR_MAX: nat := 0xFFFF_FFFF_FFFF_FFFF

  /** sizeof(phys_addr_t), the default alignment of an allocation. */
  const PHYS_ADDR_BYTES: nat := 8

  function Min(a: nat, b: nat): nat { if a <= b then a else b }

  function Max(a: nat, b: nat): nat { if a >= b then a else b }

  /** struct memblock_region: the half-open interval [base, base + size). */
  datatype Region = Region(base: nat, size: nat) {
    function End(): nat { base + size }
  }

  /**
    * lo <= a < hi: address a lies in the half-open interval [lo, hi). Span
    * names it as the trigger of its comprehension; the bounds written out
    * beside it are what make that set finite.
    */
  predicate Within(a: nat, lo: nat, hi: nat) { lo <= a < hi }

  /** The addresses lo, lo + 1, ..., hi - 1. */
  ghost function Span(lo: nat, hi: nat): set<nat> {
    set a: nat | lo <= a < hi && Within(a, lo, hi)
  }

  /** Every address that lies in some region of s. */
  ghost function Covered(s: seq<Region>): set<nat> {
    if s == [] then {} else Span(s[0].base, s[0].End()) + Covered(s[1..])
  }

  /** The sum of the sizes of the regions of s (what total_size caches). */
  function Sum(s: seq<Region>): nat {
    if s == [] then 0 else s[0].size + Sum(s[1..])
  }

  /**
    * The invariant of a memblock type: no region is empty, none reaches past
    * the largest address, and the regions are sorted by base and pairwise
    * disjoint.
    */
  ghost predicate Ordered(s: seq<Region>) {
    && (forall k :: 0 <= k < |s| ==> 0 < s[k].size && s[k].End() <= PHYS_ADDR_MAX)
    && (forall k, l :: 0 <= k < l < |s| ==> s[k].End() <= s[l].base)
  }

  /** No region ends exactly where the next one begins: adjacency has been merged. */
  ghost predicate Minimal(s: seq<Region>) {
    forall k :: 0 <= k < |s| - 1 ==> s[k].End() < s[k + 1].base
  }

  lemma {:induction false} SumConcat(a: seq<Region>, b: seq<Region>)
    ensures Sum(a + b) == Sum(a) + Sum(b)
  {
    if a == [] {
      assert a + b == b;
    } else {
      assert (a + b)[1..] == a[1..] + b;
      SumConcat(a[1..], b);
    }
  }

  lemma {:induction false} CoveredConcat(a: seq<Region>, b: seq<Region>)
    ensures Covered(a + b) == Covered(a) + Covered(b)
  {
    if a == [] {
      assert a + b == b;
    } else {
      assert (a + b)[1..] == a[1..] + b;
      CoveredConcat(a[1..], b);
    }
  }

  /** An address is covered exactly when some region contains it. */
  lemma {:induction false} CoveredMember(s: seq<Region>, x: nat)
    ensures x in Covered(s) <==> exists k :: 0 <= k < |s| && s[k].base <= x < s[k].End()
  {
    if s != [] {
      CoveredMember(s[1..], x);
      if x in Covered(s[1..]) {
        var k :| 0 <= k < |s[1..]| && s[1..][k].base <= x < s[1..][k].End();
        assert s[k + 1] == s[1..][k];
      }
      if exists k :: 0 <= k < |s| && s[k].base <= x < s[k].End() {
        var k :| 0 <= k < |s| && s[k].base <= x < s[k].End();
        if k > 0 {
          assert s[1..][k - 1] == s[k];
        }
      }
    }
  }

  /** Regions that lie within [lo, hi) cover only addresses of [lo, hi). */
  lemma {:induction false} CoveredBounds(s: seq<Region>, lo: nat, hi: nat)
    requires forall k :: 0 <= k < |s| ==> lo <= s[k].base && s[k].End() <= hi
    ensures Covered(s) <= Span(lo, hi)
  {
    if s != [] {
      CoveredBounds(s[1..], lo, hi);
    }
  }

  lemma {:induction false} SpanCard(lo: nat, hi: nat)
    requires lo <= hi
    ensures |Span(lo, hi)| == hi - lo
    decreases hi - lo
  {
    if lo == hi {
      assert Span(lo, hi) == {};
    } else {
      SpanCard(lo + 1, hi);
      assert Span(lo, hi) == {lo} + Span(lo + 1, hi);
    }
  }

  /** Ordered regions do not overlap, so their sizes add up to the number of addresses they cover. */
  lemma {:induction false} SumIsMeasure(s: seq<Region>)
    requires Ordered(s)
    ensures Sum(s) == |Covered(s)|
  {
    if s != [] {
      var t := s[1..];
      assert Ordered(t) by {
        forall k, l | 0 <= k < l < |t| ensures t[k].End() <= t[l].base {
          assert t[k] == s[k + 1] && t[l] == s[l + 1];
        }
      }
      SumIsMeasure(t);
      SpanCard(s[0].base, s[0].End());
      assert forall k :: 0 <= k < |t| ==> s[0].End() <= t[k].base && t[k].End() <= PHYS_ADDR_MAX by {
        forall k | 0 <= k < |t| ensures s[0].End() <= t[k].base && t[k].End() <= PHYS_ADDR_MAX {
          assert t[k] == s[k + 1];
        }
      }
      CoveredBounds(t, s[0].End(), PHYS_ADDR_MAX);
      assert Span(s[0].base, s[0].End()) !! Covered(t);
    }
  }

  /** Ordered(a + b) follows from its halves when every region of a ends before each of b begins. */
  lemma OrderedConcat(a: seq<Region>, b: seq<Region>)
    requires Ordered(a) && Ordered(b)
    requires forall k, l :: 0 <= k < |a| && 0 <= l < |b| ==> a[k].End() <= b[l].base
    ensures Ordered(a + b)
  {
    var c := a + b;
    forall k, l | 0 <= k < l < |c| ensures c[k].End() <= c[l].base {
      if l < |a| {
      } else if k < |a| {
        assert c[l] == b[l - |a|];
      } else {
        assert c[k] == b[k - |a|] && c[l] == b[l - |a|];
      }
    }
  }

  /** A slice of an ordered sequence is ordered. */
  lemma OrderedSlice(s: seq<Region>, i: nat, j: nat)
    requires Ordered(s) && i <= j <= |s|
    ensures Ordered(s[i..j])
  {
    var t := s[i..j];
    forall k, l | 0 <= k < l < |t| ensures t[k].End() <= t[l].base {
      assert t[k] == s[i + k] && t[l] == s[i + l];
    }
  }
}
