/** spike_main/spike.cc: memory regions from the command line, page-aligned, sorted and merged. */
module MemRegions {
  import opened Bytes

  const TWO64 := 0x1_0000_0000_0000_0000
  const PGSIZE := 4096

  datatype Region = Region(base: u64, size: u64)

  function Wrap64(x: int): u64 { x % TWO64 }

  predicate Contains(r: Region, a: int) { r.base <= a < r.base + r.size }

  /** The address lies in one of the regions. */
  ghost predicate Covered(rs: seq<Region>, a: int) { exists k :: 0 <= k < |rs| && Contains(rs[k], a) }

  /** No region's end wraps around. */
  predicate NoOverflow(rs: seq<Region>) { forall k :: 0 <= k < |rs| ==> rs[k].base + rs[k].size < TWO64 }

  /** `sort_mem_region`. */
  predicate Before(a: Region, b: Region) { if a.base == b.base then a.size < b.size else a.base < b.base }

  predicate SortedByBase(rs: seq<Region>) { forall j, k :: 0 <= j < k < |rs| ==> rs[j].base <= rs[k].base }

  /** Sorted and pairwise disjoint: each region ends before the next begins. */
  predicate Apart(rs: seq<Region>) { forall j, k :: 0 <= j < k < |rs| ==> rs[j].base + rs[j].size <= rs[k].base }

  // ---------------------------------------------------------------- sorting

  /** The comparison used is a strict order on the pairs, so its sorted arrangement is sorted by base. */
  predicate Sorted(rs: seq<Region>) { forall j, k :: 0 <= j < k < |rs| ==> !Before(rs[k], rs[j]) }

  function Insert(rs: seq<Region>, r: Region): (s: seq<Region>)
    ensures |s| == |rs| + 1
  {
    if rs == [] || Before(r, rs[0]) then [r] + rs else [rs[0]] + Insert(rs[1..], r)
  }

  lemma {:induction false} InsertBag(rs: seq<Region>, r: Region)
    ensures multiset(Insert(rs, r)) == multiset(rs) + multiset{r}
  {
    hide Before;
    if rs != [] && !Before(r, rs[0]) {
      InsertBag(rs[1..], r);
      assert rs == [rs[0]] + rs[1..];
    }
  }

  lemma {:induction false} InsertSorted(rs: seq<Region>, r: Region)
    requires Sorted(rs)
    ensures Sorted(Insert(rs, r))
  {
    var s := Insert(rs, r);
    if rs == [] || Before(r, rs[0]) {
      assert forall k :: 0 <= k < |rs| ==> s[k + 1] == rs[k];
    } else {
      InsertSorted(rs[1..], r);
      forall k | 1 <= k < |s| ensures !Before(s[k], s[0]) {
        InsertMember(rs[1..], r, k - 1);
      }
    }
  }

  lemma {:induction false} InsertMember(rs: seq<Region>, r: Region, k: nat)
    requires k <= |rs|
    ensures Insert(rs, r)[k] == r || Insert(rs, r)[k] in rs
  {
    hide Before;
    if rs != [] && !Before(r, rs[0]) && k > 0 {
      InsertMember(rs[1..], r, k - 1);
    }
  }

  /** `std::sort` with that comparison: any sorted permutation would do. */
  method Sort(rs: seq<Region>) returns (s: seq<Region>)
    ensures Sorted(s) && multiset(s) == multiset(rs)
  {
    s := [];
    var i := 0;
    while i < |rs|
      invariant 0 <= i <= |rs| && Sorted(s) && multiset(s) == multiset(rs[..i])
    {
      InsertSorted(s, rs[i]);
      InsertBag(s, rs[i]);
      s := Insert(s, rs[i]);
      assert rs[..i + 1] == rs[..i] + [rs[i]];
      i := i + 1;
    }
    assert rs[..|rs|] == rs;
  }

  lemma SameCover(rs: seq<Region>, s: seq<Region>, a: int)
    requires multiset(rs) == multiset(s)
    ensures Covered(rs, a) <==> Covered(s, a)
  {
    HalfCover(rs, s, a);
    HalfCover(s, rs, a);
  }

  lemma HalfCover(rs: seq<Region>, s: seq<Region>, a: int)
    requires multiset(rs) == multiset(s)
    ensures Covered(rs, a) ==> Covered(s, a)
  {
    if Covered(rs, a) {
      var k :| 0 <= k < |rs| && Contains(rs[k], a);
      assert rs[k] in multiset(s);
      var j :| 0 <= j < |s| && s[j] == rs[k];
    }
  }

  lemma SameOverflow(rs: seq<Region>, s: seq<Region>)
    requires multiset(rs) == multiset(s) && NoOverflow(rs)
    ensures NoOverflow(s) && |s| == |rs|
  {
    forall k | 0 <= k < |s| ensures s[k].base + s[k].size < TWO64 {
      assert s[k] in multiset(rs);
      var j :| 0 <= j < |rs| && rs[j] == s[k];
    }
    assert |multiset(rs)| == |rs| && |multiset(s)| == |s|;
  }

  // ---------------------------------------------------------------- merging

  /** Region `i` erased, and the one before it replaced by one that covers both. */
  lemma Absorb(rs: seq<Region>, i: nat, r: Region, a: int)
    requires 1 <= i < |rs| && (Contains(r, a) <==> Contains(rs[i - 1], a) || Contains(rs[i], a))
    ensures Covered(rs[i - 1 := r][..i] + rs[i + 1..], a) <==> Covered(rs, a)
  {
    var s := rs[i - 1 := r][..i] + rs[i + 1..];
    if Covered(s, a) {
      var k :| 0 <= k < |s| && Contains(s[k], a);
      if k == i - 1 {
        assert Contains(rs[i - 1], a) || Contains(rs[i], a);
      } else {
        assert Contains(rs[if k < i then k else k + 1], a);
      }
    }
    if Covered(rs, a) {
      var k :| 0 <= k < |rs| && Contains(rs[k], a);
      assert Contains(s[if k < i - 1 then k else if k <= i then i - 1 else k - 1], a);
    }
  }

  /** The same addresses are covered. */
  ghost predicate SameAddresses(rs: seq<Region>, s: seq<Region>) { forall a :: Covered(rs, a) <==> Covered(s, a) }

  /** The first `it` regions are done; the others follow in order. */
  ghost predicate Merging(rs: seq<Region>, rs0: seq<Region>, it: nat) {
    1 <= it <= |rs| && NoOverflow(rs) && SortedByBase(rs) && Apart(rs[..it]) && SameAddresses(rs, rs0)
  }

  /** Region `it` is absorbed by the one before it, now `r`. */
  function Absorbed(rs: seq<Region>, it: nat, r: Region): seq<Region>
    requires 1 <= it < |rs|
  {
    rs[..it - 1] + [r] + rs[it + 1..]
  }

  lemma AbsorbedMerging(rs: seq<Region>, rs0: seq<Region>, it: nat, r: Region)
    requires Merging(rs, rs0, it) && it < |rs| && r.base == rs[it - 1].base && r.base + r.size < TWO64
    requires forall a :: Contains(r, a) <==> Contains(rs[it - 1], a) || Contains(rs[it], a)
    ensures Merging(Absorbed(rs, it, r), rs0, it)
  {
    hide Contains;
    var s := Absorbed(rs, it, r);
    AbsorbedOrder(rs, it, r);
    forall a ensures Covered(s, a) <==> Covered(rs0, a) {
      Absorb(rs, it, r, a);
      assert rs[it - 1 := r][..it] + rs[it + 1..] == s;
      assert Covered(rs, a) <==> Covered(rs0, a);
    }
  }

  lemma AbsorbedOrder(rs: seq<Region>, it: nat, r: Region)
    requires 1 <= it < |rs| && NoOverflow(rs) && SortedByBase(rs) && Apart(rs[..it])
    requires r.base == rs[it - 1].base && r.base + r.size < TWO64
    ensures var s := Absorbed(rs, it, r); NoOverflow(s) && SortedByBase(s) && Apart(s[..it])
  {
    var s := Absorbed(rs, it, r);
    forall k | 0 <= k < |s| ensures s[k].base == rs[if k < it then k else k + 1].base && s[k].base + s[k].size < TWO64 {
      assert s[k] == if k == it - 1 then r else rs[if k < it then k else k + 1];
    }
    forall j, k | 0 <= j < k < it ensures s[j].base + s[j].size <= s[k].base {
      assert rs[..it][j] == rs[j] == s[j];
      assert rs[..it][k].base == rs[k].base == s[k].base;
    }
  }

  /** Contained in the region before it: erased. */
  lemma ContainedStep(rs: seq<Region>, rs0: seq<Region>, it: nat)
    requires Merging(rs, rs0, it) && it < |rs| && rs[it].base + rs[it].size <= rs[it - 1].base + rs[it - 1].size
    ensures Merging(rs[..it] + rs[it + 1..], rs0, it)
  {
    AbsorbedMerging(rs, rs0, it, rs[it - 1]);
    assert Absorbed(rs, it, rs[it - 1]) == rs[..it] + rs[it + 1..];
  }

  /** Overlapping or adjoining at its start: the region before it is extended. */
  lemma ExtendedStep(rs: seq<Region>, rs0: seq<Region>, it: nat, r: Region)
    requires Merging(rs, rs0, it) && it < |rs| && rs[it].base < rs[it - 1].base + rs[it - 1].size
    requires r.base == rs[it - 1].base && r.base + r.size < TWO64
    requires r.base + r.size == if rs[it - 1].base + rs[it - 1].size < rs[it].base + rs[it].size
                                then rs[it].base + rs[it].size else rs[it - 1].base + rs[it - 1].size
    ensures Merging(rs[it - 1 := r][..it] + rs[it - 1 := r][it + 1..], rs0, it)
  {
    AbsorbedMerging(rs, rs0, it, r);
    assert Absorbed(rs, it, r) == rs[it - 1 := r][..it] + rs[it - 1 := r][it + 1..];
  }

  lemma KeptMerging(rs: seq<Region>, rs0: seq<Region>, it: nat)
    requires Merging(rs, rs0, it) && it < |rs| && rs[it - 1].base + rs[it - 1].size <= rs[it].base
    ensures Merging(rs, rs0, it + 1)
  {
    hide Covered;
    forall j, k | 0 <= j < k < it + 1 ensures rs[j].base + rs[j].size <= rs[k].base {
      if k < it {
        assert rs[..it][j].base + rs[..it][j].size <= rs[..it][k].base;
      } else if j < it - 1 {
        assert rs[..it][j].base + rs[..it][j].size <= rs[..it][it - 1].base;
      }
    }
  }

  lemma SortedMerging(rs0: seq<Region>, rs: seq<Region>)
    requires rs0 != [] && NoOverflow(rs0) && Sorted(rs) && multiset(rs) == multiset(rs0)
    ensures Merging(rs, rs0, 1)
  {
    hide Covered;
    SameOverflow(rs0, rs);
    forall a ensures Covered(rs, a) <==> Covered(rs0, a) {
      SameCover(rs, rs0, a);
    }
    forall j, k | 0 <= j < k < |rs| ensures rs[j].base <= rs[k].base {
      assert !Before(rs[k], rs[j]);
    }
  }

  class MemMap {
    var mems: seq<Region>

    constructor (mems: seq<Region>)
      ensures this.mems == mems
    {
      this.mems := mems;
    }

    /** `merge_overlapping_memory_regions`: sorted, disjoint, and covering exactly the same addresses. */
    method Merge()
      requires mems != [] && NoOverflow(mems)
      modifies this
      ensures mems != [] && NoOverflow(mems) && Apart(mems) && SameAddresses(mems, old(mems))
    {
      hide SameAddresses, Apart, Contains;
      ghost var mems0 := mems;
      mems := Sort(mems);
      SortedMerging(mems0, mems);
      var it := 1;
      while it != |mems|
        invariant Merging(mems, mems0, it)
        decreases |mems| - it
      {
        var start, end := mems[it - 1].base, mems[it - 1].base + mems[it - 1].size;
        var start2, end2 := mems[it].base, mems[it].base + mems[it].size;
        if start2 >= start && end2 <= end {
          ContainedStep(mems, mems0, it);
          mems := mems[..it] + mems[it + 1..];
        } else if start2 >= start && start2 < end {
          var merged := Region(start, (if end < end2 then end2 else end) - start);
          ExtendedStep(mems, mems0, it, merged);
          mems := mems[it - 1 := merged];
          mems := mems[..it] + mems[it + 1..];
        } else {
          KeptMerging(mems, mems0, it);
          it := it + 1;
        }
      }
      assert mems[..it] == mems;
    }
  }

  // ---------------------------------------------------------------- page alignment

  /** The next multiple of the page size. */
  function PageUp(x: nat): nat { (x + PGSIZE - 1) / PGSIZE * PGSIZE }

  /** The rounding in `make_mems`, in 64-bit arithmetic; None stands for the usage message. */
  function RoundPages(base0: u64, size0: u64): Option<Region> {
    var size1 := Wrap64(size0 + base0 % PGSIZE);
    var base: u64 := base0 - base0 % PGSIZE;
    var size := if size1 % PGSIZE != 0 then Wrap64(size1 + (PGSIZE - size1 % PGSIZE)) else size1;
    if Wrap64(base + size) < base then None else Some(Region(base, size))
  }

  /**
   An accepted region is page-aligned; it covers the requested range, as the smallest page-aligned region
   that does, exactly when the rounded size is below 2^64. Otherwise the rounding has wrapped around
   unnoticed and what is left of the size is at most one page.
   */
  lemma RoundedCovers(base0: u64, size0: u64)
    requires RoundPages(base0, size0).Some?
    ensures var r, need := RoundPages(base0, size0).value, PageUp(size0 + base0 % PGSIZE);
      && r.base % PGSIZE == 0 && r.size % PGSIZE == 0 && r.base + r.size < TWO64
      && (r.base <= base0 && base0 + size0 <= r.base + r.size <==> need < TWO64)
      && (need < TWO64 ==> r.size == need && base0 < r.base + PGSIZE && r.base + r.size < base0 + size0 + PGSIZE)
      && (need >= TWO64 ==> r.size <= PGSIZE)
  {
    hide PageUp, RoundPages;
    var off := base0 % PGSIZE;
    PageUpFacts(size0 + off);
    RoundedSize(base0, size0);
    Pages(base0);
  }

  lemma PageUpFacts(x: nat)
    ensures x <= PageUp(x) < x + PGSIZE && PageUp(x) % PGSIZE == 0
  {
  }

  lemma Pages(base: u64)
    ensures (base - base % PGSIZE) % PGSIZE == 0 && TWO64 % PGSIZE == 0
  {
  }

  /** The two wrapping additions amount to one rounding modulo 2^64. */
  lemma RoundedSize(base0: u64, size0: u64)
    ensures var base, size := base0 - base0 % PGSIZE, Wrap64(PageUp(size0 + base0 % PGSIZE));
      && RoundPages(base0, size0) == (if Wrap64(base + size) < base then None else Some(Region(base, size)))
      && size % PGSIZE == 0
      && (PageUp(size0 + base0 % PGSIZE) < TWO64 ==> size == PageUp(size0 + base0 % PGSIZE))
      && (PageUp(size0 + base0 % PGSIZE) >= TWO64 ==> size == PageUp(size0 + base0 % PGSIZE) - TWO64 <= PGSIZE)
  {
    hide PageUp, Wrap64;
    var x := size0 + base0 % PGSIZE;
    PageUpFacts(x);
    PageUpWraps(x);
    WrapOnce(PageUp(x));
  }

  lemma WrapOnce(x: nat)
    requires x <= TWO64 + PGSIZE && x % PGSIZE == 0
    ensures Wrap64(x) == (if x < TWO64 then x else x - TWO64) && Wrap64(x) % PGSIZE == 0
  {
  }

  lemma PageUpWraps(x: nat)
    requires x < TWO64 + PGSIZE
    ensures var s := Wrap64(x);
      (if s % PGSIZE != 0 then Wrap64(s + (PGSIZE - s % PGSIZE)) else s) == Wrap64(PageUp(x))
  {
    var s := Wrap64(x);
    if x < TWO64 {
      PageUpIs(x);
    } else {
      PageUpIs(s);
      PageUpShift(s);
    }
  }

  lemma PageUpIs(x: nat)
    ensures PageUp(x) == if x % PGSIZE != 0 then x + (PGSIZE - x % PGSIZE) else x
  {
  }

  lemma PageUpShift(x: nat)
    ensures PageUp(x + TWO64) == PageUp(x) + TWO64
  {
    assert TWO64 == 4503599627370496 * PGSIZE;
  }

  /** The wrap-around is possible: all but one byte is asked for, and nothing or a single page is given. */
  lemma RoundingWraps()
    ensures RoundPages(0, 0xffff_ffff_ffff_ffff) == Some(Region(0, 0))
    ensures RoundPages(2, 0xffff_ffff_ffff_ffff) == Some(Region(0, 4096))
  {
  }
}
