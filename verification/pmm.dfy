/** The physical page allocator (kernel/pmm.c). */
module PhysicalPages {
  import opened Bits
  import opened BootInformation

  const WORD_COUNT: nat := 0x4000

  /** `page` is the smallest member of `pages`. */
  ghost predicate Lowest(page: nat, pages: set<nat>) {
    page in pages && forall q :: q in pages ==> page <= q
  }

  lemma OneMore(pages: set<nat>, page: nat)
    requires page !in pages
    ensures |pages + {page}| == |pages| + 1
  {
  }

  lemma SubsetSize(small: set<nat>, large: set<nat>)
    requires small <= large
    ensures |small| <= |large|
    ensures |small| == |large| ==> small == large
    ensures |small| < |large| ==> large - small != {}
  {
    assert |large - small| == |large| - |small|;
    if |small| == |large| { assert large - small == {}; }
  }

  /** Reads bit `page`, writes bit `page`: `bit`, `set` and `clear`. */
  method TestPage(bitmap: array<u64>, page: nat) returns (b: bool)
    requires bitmap.Length == WORD_COUNT && page < PAGE_COUNT
    ensures b <==> page in Pages(bitmap[..], PAGE_COUNT)
  {
    b := And(bitmap[page / 64], Pow2(page % 64)) != 0;
    PagesMember(bitmap[..], PAGE_COUNT, page);
    TestBit(bitmap[page / 64], page % 64);
  }

  method SetPage(bitmap: array<u64>, page: nat)
    requires bitmap.Length == WORD_COUNT && page < PAGE_COUNT
    modifies bitmap
    ensures Pages(bitmap[..], PAGE_COUNT) == old(Pages(bitmap[..], PAGE_COUNT)) + {page}
  {
    PagesSet(bitmap[..], PAGE_COUNT, page);
    SetInWord(bitmap[page / 64], page % 64);
    ghost var words := WithBit(bitmap[..], page);
    bitmap[page / 64] := Or(bitmap[page / 64], Pow2(page % 64));
    assert bitmap[..] == words;
  }

  method ClearPage(bitmap: array<u64>, page: nat)
    requires bitmap.Length == WORD_COUNT && page < PAGE_COUNT
    modifies bitmap
    ensures Pages(bitmap[..], PAGE_COUNT) == old(Pages(bitmap[..], PAGE_COUNT)) - {page}
  {
    PagesClear(bitmap[..], PAGE_COUNT, page);
    AndNotBound(bitmap[page / 64], Pow2(page % 64));
    ghost var words := WithoutBit(bitmap[..], page);
    bitmap[page / 64] := AndNot(bitmap[page / 64], Pow2(page % 64));
    assert bitmap[..] == words;
  }

  /** The comparison with wrapping sums finds exactly the overlapping descriptors. */
  lemma OverlapTest(d: Descriptor, other: Descriptor)
    requires ValidDescriptor(d) && ValidDescriptor(other)
    ensures (&& d.start < Wrap(other.start + Wrap(other.pages * PAGE_SIZE))
             && other.start < Wrap(d.start + Wrap(d.pages * PAGE_SIZE))) <==> !Disjoint(d, other)
  {
    EndDoesNotWrap(d);
    EndDoesNotWrap(other);
  }

  lemma OneMoreDescriptor(ds: seq<Descriptor>, i: nat)
    requires i < |ds| && WellFormedMap(ds[..i]) && ValidDescriptor(ds[i])
    requires forall k :: 0 <= k < i ==> Disjoint(ds[i], ds[k])
    ensures WellFormedMap(ds[..i + 1])
  {
    hide ValidDescriptor, Disjoint;
    assert ds[..i + 1] == ds[..i] + [ds[i]];
  }

  /** The two nested loops that reject overlapping and malformed descriptors. */
  method ValidMapRanges(info: BootInfo) returns (ok: bool)
    requires info.Readable()
    ensures ok <==> WellFormedMap(info.Map())
  {
    hide ValidDescriptor, Disjoint, Wrap;
    ghost var ds := info.Map();
    for i := 0 to info.Count()
      invariant WellFormedMap(ds[..i])
    {
      var d := info.descriptors[i];
      assert ds[i] == d;
      if !ValidDescriptor(d) { return false; }
      var end := Wrap(d.start + Wrap(d.pages * PAGE_SIZE));
      for j := 0 to i
        invariant forall k :: 0 <= k < j ==> Disjoint(d, ds[k])
      {
        var other := info.descriptors[j];
        assert other == ds[..i][j] == ds[j];
        OverlapTest(d, other);
        if d.start < Wrap(other.start + Wrap(other.pages * PAGE_SIZE)) && other.start < end {
          assert !Disjoint(ds[i], ds[j]);
          return false;
        }
      }
      OneMoreDescriptor(ds, i);
    }
    assert ds[..info.Count()] == ds;
    ok := true;
  }

  ghost predicate Between(page: nat, low: nat, high: nat) {
    low <= page < high
  }

  ghost function PageRange(low: nat, high: nat): set<nat> {
    set page | 0 <= page < PAGE_COUNT && Between(page, low, high)
  }

  lemma ExtendConventional(ds: seq<Descriptor>, d: Descriptor)
    ensures ConventionalPages(ds + [d])
         == ConventionalPages(ds) + (set p | LOW_PAGE <= p < PAGE_COUNT && d.Conventional() && d.Covers(p))
  {
    forall p | Managed(p)
      ensures ConventionalPage(ds + [d], p) <==> ConventionalPage(ds, p) || (d.Conventional() && d.Covers(p))
    {
      if ConventionalPage(ds, p) {
        var i :| 0 <= i < |ds| && ds[i].Conventional() && ds[i].Covers(p);
        assert (ds + [d])[i] == ds[i];
      }
      assert (ds + [d])[|ds|] == d;
    }
  }

  /** The page numbers between the clipped bounds are the managed pages of the descriptor. */
  lemma ClippedPages(d: Descriptor, begin: nat, end: nat)
    requires ValidDescriptor(d)
    requires begin == (if d.start < LOW_LIMIT then LOW_LIMIT else d.start)
    requires end == (if d.End() > PMM_LIMIT then PMM_LIMIT else d.End())
    ensures forall p: nat :: Between(p, begin / PAGE_SIZE, end / PAGE_SIZE) <==> Managed(p) && d.Covers(p)
  {
    assert d.End() % PAGE_SIZE == 0;
  }

  /** Rounding a byte range outward to pages gives exactly the pages it touches. */
  lemma TouchedPages(base: nat, size: nat, page: nat)
    requires size > 0 && page < PAGE_COUNT
    ensures Touches(base, size, page)
       <==> base / PAGE_SIZE <= page < ((if base + size > PMM_LIMIT then PMM_LIMIT else base + size) + 4095) / 4096
  {
  }

  class PageAllocator {
    const eligible: array<u64>
    const inUse: array<u64>
    var totalPages: nat
    var freePages: nat
    var cursor: nat
    var ready: bool

    /** The pages under management. */
    ghost function Eligible(): set<nat>
      reads eligible
      requires eligible.Length == WORD_COUNT
    {
      Pages(eligible[..], PAGE_COUNT)
    }

    /** The pages currently handed out. */
    ghost function Allocated(): set<nat>
      reads inUse
      requires inUse.Length == WORD_COUNT
    {
      Pages(inUse[..], PAGE_COUNT)
    }

    ghost predicate Valid()
      reads this, eligible, inUse
      ensures Valid() ==> eligible.Length == WORD_COUNT && inUse.Length == WORD_COUNT
    {
      && eligible.Length == WORD_COUNT && inUse.Length == WORD_COUNT && eligible != inUse
      && (forall page :: page in Eligible() ==> Managed(page))
      && Allocated() <= Eligible()
      && totalPages == |Eligible()|
      && freePages == |Eligible()| - |Allocated()|
      && cursor < PAGE_COUNT
      // No free page lies below the roving cursor.
      && (forall page :: page in Eligible() - Allocated() ==> cursor <= page)
      && (!ready ==> Eligible() == {} && cursor == 0)
    }

    lemma TotalMeansReady()
      requires Valid() && totalPages > 0
      ensures ready
    {
    }

    lemma EligibleManaged()
      requires Valid()
      ensures forall page :: page in Eligible() ==> Managed(page)
      ensures Allocated() <= Eligible()
    {
    }

    /** Static storage: both bitmaps start zero and nothing is ready. */
    constructor ()
      ensures Valid() && !ready
      ensures fresh(eligible) && fresh(inUse)
    {
      eligible := new u64[WORD_COUNT](_ => 0);
      inUse := new u64[WORD_COUNT](_ => 0);
      totalPages, freePages, cursor, ready := 0, 0, 0, false;
      new;
      PagesOfZeros(eligible[..], PAGE_COUNT);
      PagesOfZeros(inUse[..], PAGE_COUNT);
    }

    /** `mark_usable_pages` */
    method MarkUsablePages(info: BootInfo)
      requires eligible.Length == WORD_COUNT && Eligible() == {}
      requires info.Readable() && WellFormedMap(info.Map())
      modifies eligible
      ensures Eligible() == ConventionalPages(info.Map())
    {
      ghost var ds := info.Map();
      for i := 0 to info.Count()
        invariant Eligible() == ConventionalPages(ds[..i])
      {
        var d := info.descriptors[i];
        assert d == ds[i] && ds[..i + 1] == ds[..i] + [d];
        if !d.Conventional() {
          assert ConventionalPages(ds[..i + 1]) == ConventionalPages(ds[..i]) by { ExtendConventional(ds[..i], d); }
          continue;
        }
        EndDoesNotWrap(d);
        var begin, end := d.start, Wrap(d.start + Wrap(d.pages * PAGE_SIZE));
        if begin < LOW_LIMIT { begin := LOW_LIMIT; }
        if end > PMM_LIMIT { end := PMM_LIMIT; }
        var page := begin / PAGE_SIZE;
        while page < end / PAGE_SIZE
          invariant begin / PAGE_SIZE <= page && (page <= end / PAGE_SIZE || page == begin / PAGE_SIZE)
          invariant Eligible() == ConventionalPages(ds[..i]) + PageRange(begin / PAGE_SIZE, page)
        {
          SetPage(eligible, page);
          page := page + 1;
        }
        ClippedPages(d, begin, end);
        ExtendConventional(ds[..i], d);
      }
      assert ds[..info.Count()] == ds;
    }

    /** `reserve`: withdraws every page that the byte range touches. */
    method Reserve(base: u64, size: u64)
      requires eligible.Length == WORD_COUNT && ValidRange(base, size)
      requires forall page :: page in Eligible() ==> Managed(page)
      modifies eligible
      ensures Eligible() == set page | page in old(Eligible()) && !Touches(base, size, page)
    {
      if base >= PMM_LIMIT { return; }
      var end := Wrap(base + size);
      if end > PMM_LIMIT { end := PMM_LIMIT; }
      var page := base / PAGE_SIZE;
      while page < (end + 4095) / 4096
        invariant base / PAGE_SIZE <= page <= (end + 4095) / 4096
        invariant Eligible() == set p | p in old(Eligible()) && !(base / PAGE_SIZE <= p < page)
      {
        ClearPage(eligible, page);
        page := page + 1;
      }
      forall p | p in old(Eligible())
        ensures Touches(base, size, p) <==> base / PAGE_SIZE <= p < page
      {
        TouchedPages(base, size, p);
      }
    }

    /** `reserve_boot_regions` */
    method ReserveBootRegions(info: BootInfo)
      requires eligible.Length == WORD_COUNT && ValidBootInfo(info)
      requires forall page :: page in Eligible() ==> Managed(page)
      modifies eligible
      ensures Eligible() == set page | page in old(Eligible()) && !Reserved(info, page)
    {
      Reserve(info.kernelBase, info.kernelSize);
      Reserve(info.address, BOOT_INFO_SIZE);
      Reserve(info.memoryMap, info.memoryMapSize);
      Reserve(info.stackBase, info.stackSize);
    }

    /** The two state-changing phases of `pmm_init` between validation and counting. */
    method FindUsablePages(info: BootInfo)
      requires eligible.Length == WORD_COUNT && Eligible() == {}
      requires ValidBootInfo(info) && info.Readable() && WellFormedMap(info.Map())
      modifies eligible
      ensures Eligible() == UsablePages(info)
      ensures forall page :: page in Eligible() ==> Managed(page)
    {
      MarkUsablePages(info);
      ReserveBootRegions(info);
    }

    /** The counting loop of `pmm_init`. */
    method CountEligible() returns (count: nat)
      requires eligible.Length == WORD_COUNT
      ensures count == |Eligible()|
    {
      PagesBounded(eligible[..], PAGE_COUNT);
      count := 0;
      ghost var seen: set<nat> := {};
      for page := 0 to PAGE_COUNT
        invariant seen == (set p | p in Eligible() && p < page) && count == |seen|
      {
        var isEligible := TestPage(eligible, page);
        if isEligible {
          count := count + 1;
          seen := seen + {page};
        }
      }
      assert seen == Eligible();
    }

    /** `pmm_init`: succeeds once, on a valid hand-off; any refusal changes nothing. */
    method Init(boot: Option<BootInfo>) returns (ok: bool)
      requires Valid()
      requires boot.Some? && ValidBootInfo(boot.value) ==> boot.value.Readable()
      modifies this, eligible
      ensures Valid()
      ensures ok <==> !old(ready) && boot.Some? && ValidBootInfo(boot.value) && WellFormedMap(boot.value.Map())
      ensures ok ==>
        && boot.value.magic == 0x4f53_4249_4e46_4f31 && boot.value.version == 2 && boot.value.size == 88 && boot.value.flags == 1
        && boot.value.descriptorSize >= 40 && boot.value.memoryMapSize % boot.value.descriptorSize == 0
      ensures ok ==> ready && Eligible() == UsablePages(boot.value) && Allocated() == {}
      ensures !ok ==> unchanged(this) && unchanged(eligible)
    {
      if ready || boot.None? || !ValidBootInfo(boot.value) { return false; }
      var info := boot.value;
      assert info.magic == BOOT_INFO_MAGIC;
      ok := ValidMapRanges(info);
      if !ok { return; }
      assert Allocated() == {};
      FindUsablePages(info);
      totalPages := CountEligible();
      freePages := totalPages;
      ready := true;
      assert Allocated() == {} && cursor == 0;
    }

    /** `pmm_alloc`: the lowest free page, or nothing exactly when none is free. */
    method Alloc() returns (r: Option<nat>)
      requires Valid()
      modifies this`freePages, this`cursor, inUse
      ensures Valid()
      ensures Eligible() == old(Eligible())
      ensures r.None? <==> old(Eligible()) == old(Allocated())
      ensures r.None? ==> Allocated() == old(Allocated()) && freePages == old(freePages)
      ensures r.Some? ==> Lowest(r.value, old(Eligible() - Allocated()))
      ensures r.Some? ==> Allocated() == old(Allocated()) + {r.value} && freePages == old(freePages) - 1
    {
      SubsetSize(Allocated(), Eligible());
      if !ready || freePages == 0 { return None; }
      assert Eligible() - Allocated() != {};
      ghost var someFree :| someFree in Eligible() - Allocated();
      for scanned := 0 to PAGE_COUNT
        invariant Valid() && cursor == old(cursor) && freePages == old(freePages)
        invariant inUse[..] == old(inUse[..])
        invariant forall q :: q in Eligible() - Allocated() ==> cursor + scanned <= q
      {
        var page := (cursor + scanned) % PAGE_COUNT;
        var isEligible := TestPage(eligible, page);
        var isAllocated := TestPage(inUse, page);
        if !isEligible || isAllocated { continue; }
        assert page in Eligible() - Allocated();
        assert Lowest(page, Eligible() - Allocated());
        OneMore(Allocated(), page);
        SetPage(inUse, page);
        freePages := freePages - 1;
        cursor := (page + 1) % PAGE_COUNT;
        assert forall q :: q in Eligible() - Allocated() ==> q in old(Eligible() - Allocated()) && q != page;
        return Some(page);
      }
      assert false;
      r := None;
    }

    /** `pmm_free`: gives back one page; anything that is not an inUse page is refused. */
    method Free(address: u64) returns (ok: bool)
      requires Valid()
      modifies this`freePages, this`cursor, inUse
      ensures Valid()
      ensures Eligible() == old(Eligible())
      ensures ok <==> address % PAGE_SIZE == 0 && address / PAGE_SIZE in old(Allocated())
      ensures ok ==> Allocated() == old(Allocated()) - {address / PAGE_SIZE} && freePages == old(freePages) + 1
      ensures !ok ==> Allocated() == old(Allocated()) && freePages == old(freePages)
    {
      if !ready || address % PAGE_SIZE != 0 || address >= PMM_LIMIT { return false; }
      var page := address / PAGE_SIZE;
      var isEligible := TestPage(eligible, page);
      var isAllocated := TestPage(inUse, page);
      if !isEligible || !isAllocated { return false; }
      ghost var before := Allocated();
      ClearPage(inUse, page);
      OneMore(Allocated(), page);
      assert before == Allocated() + {page};
      freePages := freePages + 1;
      if page < cursor { cursor := page; }
      assert forall q :: q in Eligible() - Allocated() ==> q == page || q in Eligible() - before;
      ok := true;
    }

    /** `pmm_is_allocated` */
    method IsAllocated(address: u64) returns (b: bool)
      requires Valid()
      ensures b <==> address % PAGE_SIZE == 0 && address / PAGE_SIZE in Allocated()
    {
      b := false;
      if ready && address < PMM_LIMIT && address % PAGE_SIZE == 0 {
        var isEligible := TestPage(eligible, address / PAGE_SIZE);
        var isAllocated := TestPage(inUse, address / PAGE_SIZE);
        b := isEligible && isAllocated;
      }
    }
  }
}
