/** What `paging_init` is to map, and what stays mapped after the guard pages are removed. */
module IdentityMap {
  import opened Bits
  import opened BootInformation
  import opened RadixTree
  import opened Accounting

  /** The page boundaries that the linker script defines. */
  datatype Layout = Layout(textStart: u64, textEnd: u64, rodataStart: u64, rodataEnd: u64, guardLow: u64, guardHigh: u64)

  /** Code is read and executed, read-only data only read, all other RAM read and written. */
  function Identity(layout: Layout, page: nat): Translation {
    var address := page * PAGE_SIZE;
    if layout.textStart <= address < layout.textEnd then Translation(page, false, true)
    else if layout.rodataStart <= address < layout.rodataEnd then Translation(page, false, false)
    else Translation(page, true, false)
  }

  /** The leaf of `map_page`: the address or-ed with the flags of its section. */
  function IdentityLeaf(layout: Layout, address: u64): (leaf: Word)
    requires address % PAGE_SIZE == 0 && address < PMM_LIMIT
    ensures var to := Identity(layout, address / PAGE_SIZE); leaf == LeafWord(to.frame, to.write, to.exec)
  {
    IdentityBits(address / PAGE_SIZE);
    OrTopBit(FLAGS);
    OrTopBit(1);
    var flags :=
      if layout.textStart <= address < layout.textEnd then 1
      else if layout.rodataStart <= address < layout.rodataEnd then Or(1, NX)
      else Or(FLAGS, NX);
    Decode(Or(address, flags))
  }

  /** Code is mapped to be read and executed, constants to be read, all else to be read and written. */
  lemma IdentityLeafRights(layout: Layout, address: u64)
    requires address % PAGE_SIZE == 0 && address < PMM_LIMIT
    ensures var leaf, frame := IdentityLeaf(layout, address), address / PAGE_SIZE;
      var text := layout.textStart <= address < layout.textEnd; var rodata := layout.rodataStart <= address < layout.rodataEnd;
      && (text ==> leaf == LeafWord(frame, false, true))
      && (!text && rodata ==> leaf == LeafWord(frame, false, false))
      && (!text && !rodata ==> leaf == LeafWord(frame, true, false))
  {
    hide IdentityLeaf;
  }

  /** Exactly these pages are mapped, each to itself with the rights of its section. */
  ghost predicate MapsIdentically(t: Tree, layout: Layout, pages: set<nat>) {
    t.leaves.Keys == pages && forall p :: p in pages ==> Managed(p) && t.leaves[p] == Identity(layout, p)
  }

  // ---------------------------------------------------------------- the pages to map

  /** The clipped range of the descriptor is not empty. */
  ghost predicate InManagedRange(d: Descriptor) {
    d.start < PMM_LIMIT && LOW_LIMIT < d.End()
  }

  /** All RAM that is to be mapped supports write-back caching. */
  ghost predicate AllWriteBack(ds: seq<Descriptor>) {
    forall i :: 0 <= i < |ds| && ds[i].Ram() && InManagedRange(ds[i]) ==> ds[i].writeBack
  }

  ghost function DescriptorPages(d: Descriptor): set<nat> {
    set p | LOW_PAGE <= p < PAGE_COUNT && d.Ram() && d.Covers(p)
  }

  lemma ExtendRam(ds: seq<Descriptor>, d: Descriptor)
    ensures RamPages(ds + [d]) == RamPages(ds) + DescriptorPages(d)
  {
    forall p | Managed(p)
      ensures RamPage(ds + [d], p) <==> RamPage(ds, p) || (d.Ram() && d.Covers(p))
    {
      if RamPage(ds, p) {
        var i :| 0 <= i < |ds| && ds[i].Ram() && ds[i].Covers(p);
        assert (ds + [d])[i] == ds[i];
      }
      assert (ds + [d])[|ds|] == d;
    }
  }

  lemma RamOfPrefix(ds: seq<Descriptor>, n: nat)
    requires n <= |ds|
    ensures RamPages(ds[..n]) <= RamPages(ds)
  {
    forall p | p in RamPages(ds[..n])
      ensures p in RamPages(ds)
    {
      var i :| 0 <= i < n && ds[..n][i].Ram() && ds[..n][i].Covers(p);
      assert ds[i].Ram() && ds[i].Covers(p);
    }
  }

  /** How many table frames the identity map of some pages takes. */
  ghost function Needed(pages: set<nat>): (n: nat)
    ensures n > 0
  {
    1 + |Spine(pages)|
  }

  lemma NeededMonotone(pages: set<nat>, more: set<nat>)
    requires pages <= more
    ensures Spine(pages) <= Spine(more) && Needed(pages) <= Needed(more)
  {
    assert more == pages + (more - pages);
    SpineOfUnion(pages, more - pages);
    assert |Spine(more)| == |Spine(pages)| + |Spine(more) - Spine(pages)|;
  }

  lemma {:induction false} Below(numbers: set<nat>, n: nat)
    requires forall x :: x in numbers ==> x < n
    ensures |numbers| <= n
  {
    if n > 0 {
      Below(numbers - {n - 1}, n - 1);
    } else {
      assert numbers == {};
    }
  }

  /** Identity tables for 4 GiB never exhaust the table budget: at most 1 + 1 + 4 + 2048. */
  lemma IdentityBudget(pages: set<nat>)
    requires forall p :: p in pages ==> Managed(p)
    ensures Needed(pages) <= 2054
  {
    SpineSize(pages);
    Below(Distinct(pages, 0x800_0000), 1);
    Below(Distinct(pages, 0x4_0000), 4);
    Below(Distinct(pages, 0x200), 2048);
  }

  lemma IdentityTablesAreBoot(pages: set<nat>)
    requires forall p :: p in pages ==> Managed(p)
    ensures BootTables({ROOT} + Spine(pages)) && ROOT !in Spine(pages)
  {
    forall c | c in Spine(pages)
      ensures 1 <= c.level <= 3 && Top(c) != WINDOW_SLOT
    {
      SpineMember(pages, c);
      var v :| v in pages && At(v, c.level) == c;
      TopOfAt(v, c.level);
    }
    assert ROOT !in Spine(pages) by { SpineMember(pages, ROOT); }
  }

  // ---------------------------------------------------------------- required ranges and guards

  /** `mapped_range`: a non-empty byte range between 1 MiB and 4 GiB, all of it mapped. */
  ghost predicate RangeMapped(pages: set<nat>, base: nat, size: nat) {
    && size > 0 && LOW_LIMIT <= base < PMM_LIMIT && size <= PMM_LIMIT - base
    && forall p :: 0 <= p < PAGE_COUNT && Touches(base, size, p) ==> p in pages
  }

  /** `required_regions_mapped`, apart from the page tables themselves. */
  ghost predicate RegionsMapped(pages: set<nat>, info: BootInfo) {
    && RangeMapped(pages, info.kernelBase, info.kernelSize)
    && RangeMapped(pages, info.stackBase, info.stackSize)
    && RangeMapped(pages, info.address, BOOT_INFO_SIZE)
    && RangeMapped(pages, info.memoryMap, info.memoryMapSize)
  }

  /** The pages on either side of the kernel stack and of the double-fault stack. */
  function Guards(info: BootInfo, layout: Layout): seq<u64> {
    [Wrap(info.stackBase - PAGE_SIZE), Wrap(info.stackBase + info.stackSize), layout.guardLow, layout.guardHigh]
  }

  /** Removing guards one after the other, each of which must still be mapped. */
  ghost function Unguarded(pages: set<nat>, guards: seq<u64>): Option<set<nat>> {
    if guards == [] then Some(pages)
    else if RangeMapped(pages, guards[0], PAGE_SIZE) then Unguarded(pages - {guards[0] / PAGE_SIZE}, guards[1..])
    else None
  }

  ghost function GuardPages(guards: seq<u64>): set<nat> {
    if guards == [] then {} else {guards[0] / PAGE_SIZE} + GuardPages(guards[1..])
  }

  lemma {:induction false} GuardMember(guards: seq<u64>, page: nat)
    ensures page in GuardPages(guards) <==> exists i :: 0 <= i < |guards| && guards[i] / PAGE_SIZE == page
    decreases guards
  {
    if guards != [] {
      GuardMember(guards[1..], page);
      assert forall i :: 0 <= i < |guards| - 1 ==> guards[1..][i] == guards[i + 1];
      if page in GuardPages(guards[1..]) {
        var i :| 0 <= i < |guards| - 1 && guards[1..][i] / PAGE_SIZE == page;
        assert guards[i + 1] / PAGE_SIZE == page;
      }
      if i: nat :| i < |guards| && guards[i] / PAGE_SIZE == page && i > 0 {
        assert guards[1..][i - 1] / PAGE_SIZE == page;
      }
    }
  }

  lemma {:induction false} UnguardedPages(pages: set<nat>, guards: seq<u64>)
    ensures Unguarded(pages, guards).Some? ==> Unguarded(pages, guards).value == pages - GuardPages(guards)
    decreases guards
  {
    if guards != [] {
      UnguardedPages(pages - {guards[0] / PAGE_SIZE}, guards[1..]);
    }
  }

  ghost predicate DistinctPages(guards: seq<u64>) {
    forall i, j :: 0 <= i < j < |guards| ==> guards[i] / PAGE_SIZE != guards[j] / PAGE_SIZE
  }

  /** For page-aligned guards: all can be removed exactly if they are distinct mapped pages. */
  lemma {:induction false} GuardsRemovable(pages: set<nat>, guards: seq<u64>)
    requires forall p :: p in pages ==> Managed(p)
    requires forall i :: 0 <= i < |guards| ==> guards[i] % PAGE_SIZE == 0
    ensures Unguarded(pages, guards).Some? <==> GuardPages(guards) <= pages && DistinctPages(guards)
    decreases guards
  {
    if guards != [] {
      var first, rest := guards[0] / PAGE_SIZE, pages - {guards[0] / PAGE_SIZE};
      AlignedRange(pages, guards[0]);
      GuardsRemovable(rest, guards[1..]);
      if first in GuardPages(guards[1..]) {
        GuardMember(guards[1..], first);
        var k :| 0 <= k < |guards[1..]| && guards[1..][k] / PAGE_SIZE == first;
        assert guards[k + 1] / PAGE_SIZE == guards[0] / PAGE_SIZE;
      } else {
        DistinctTail(guards, first);
      }
    }
  }

  lemma DistinctTail(guards: seq<u64>, first: nat)
    requires guards != [] && first == guards[0] / PAGE_SIZE && first !in GuardPages(guards[1..])
    ensures DistinctPages(guards) <==> DistinctPages(guards[1..])
  {
    if DistinctPages(guards[1..]) {
      forall i, j | 0 <= i < j < |guards|
        ensures guards[i] / PAGE_SIZE != guards[j] / PAGE_SIZE
      {
        assert guards[j] == guards[1..][j - 1];
        GuardMember(guards[1..], guards[j] / PAGE_SIZE);
        if i > 0 { assert guards[i] == guards[1..][i - 1]; }
      }
    }
    if DistinctPages(guards) {
      forall i, j | 0 <= i < j < |guards[1..]|
        ensures guards[1..][i] / PAGE_SIZE != guards[1..][j] / PAGE_SIZE
      {
        assert guards[1..][i] == guards[i + 1] && guards[1..][j] == guards[j + 1];
      }
    }
  }

  lemma AlignedRange(pages: set<nat>, base: nat)
    requires base % PAGE_SIZE == 0 && forall p :: p in pages ==> Managed(p)
    ensures RangeMapped(pages, base, PAGE_SIZE) <==> base / PAGE_SIZE in pages
  {
    assert Touches(base, PAGE_SIZE, base / PAGE_SIZE);
    forall p | 0 <= p < PAGE_COUNT && Touches(base, PAGE_SIZE, p)
      ensures p == base / PAGE_SIZE
    {
    }
  }

  // ---------------------------------------------------------------- the hand-off contract

  const HANDOFF_PAGES: nat := 35
  const MAP_CAPACITY: nat := 0x1_0000

  /** Some descriptor of this type covers the page. */
  ghost predicate OwnedBy(ds: seq<Descriptor>, kind: nat, page: nat) {
    exists i :: 0 <= i < |ds| && ds[i].kind == kind && ds[i].Covers(page)
  }

  /**
    What the loader leaves behind: one allocation of loader data that holds the boot
    information, 64 KiB for the memory map, a guard, a 64 KiB stack and a guard; and the
    kernel in loader code.
  */
  ghost predicate LoaderLayout(info: BootInfo)
    requires info.Readable()
  {
    && info.address % PAGE_SIZE == 0
    && info.memoryMap == info.address + PAGE_SIZE && info.memoryMapSize <= MAP_CAPACITY
    && info.stackBase == info.memoryMap + MAP_CAPACITY + PAGE_SIZE && info.stackSize == MAP_CAPACITY
    && (forall page: nat :: Touches(info.address, HANDOFF_PAGES * PAGE_SIZE, page) ==> OwnedBy(info.Map(), LOADER_DATA, page))
    && (forall page: nat :: Touches(info.kernelBase, info.kernelSize, page) ==> OwnedBy(info.Map(), LOADER_CODE, page))
  }

  /** What the linker script fixes: code, constants and the guarded double-fault stack, in this order. */
  ghost predicate LinkerLayout(info: BootInfo, layout: Layout) {
    && info.kernelBase <= layout.textStart <= layout.textEnd <= layout.rodataStart <= layout.rodataEnd <= layout.guardLow
    && layout.guardLow % PAGE_SIZE == 0 && layout.guardHigh == layout.guardLow + 5 * PAGE_SIZE
    && layout.guardHigh + PAGE_SIZE <= info.kernelBase + info.kernelSize
  }

  ghost predicate HandOff(info: BootInfo, layout: Layout)
    requires info.Readable()
  {
    LoaderLayout(info) && LinkerLayout(info, layout)
  }

  /** A page has one owner, so it has one type. */
  lemma OneKind(ds: seq<Descriptor>, kind: nat, other: nat, page: nat)
    requires WellFormedMap(ds) && OwnedBy(ds, kind, page) && kind != other
    ensures !OwnedBy(ds, other, page) && (kind != CONVENTIONAL ==> !ConventionalPage(ds, page))
  {
    var i :| 0 <= i < |ds| && ds[i].kind == kind && ds[i].Covers(page);
    forall j | 0 <= j < |ds| && ds[j].kind != kind
      ensures !ds[j].Covers(page)
    {
      OneOwner(ds, i, j, page);
    }
  }

  lemma OwnedIsBelow(ds: seq<Descriptor>, kind: nat, page: nat)
    requires WellFormedMap(ds) && OwnedBy(ds, kind, page)
    ensures page * PAGE_SIZE < U64
  {
    var i :| 0 <= i < |ds| && ds[i].kind == kind && ds[i].Covers(page);
    EndDoesNotWrap(ds[i]);
  }

  /** Where the stack's guards are: right below and right above it, in loader data. */
  lemma StackGuards(info: BootInfo, layout: Layout)
    requires info.Readable() && WellFormedMap(info.Map()) && LoaderLayout(info)
    ensures var first := info.address / PAGE_SIZE; var guards := Guards(info, layout);
      && guards[0] == (first + 17) * PAGE_SIZE && guards[1] == (first + 34) * PAGE_SIZE
      && OwnedBy(info.Map(), LOADER_DATA, first + 17) && OwnedBy(info.Map(), LOADER_DATA, first + 34)
  {
    var first := info.address / PAGE_SIZE;
    assert info.address == first * PAGE_SIZE;
    assert Touches(info.address, HANDOFF_PAGES * PAGE_SIZE, first + 17);
    assert Touches(info.address, HANDOFF_PAGES * PAGE_SIZE, first + 34);
    OwnedIsBelow(info.Map(), LOADER_DATA, first + 34);
  }

  /** The page of a double-fault guard belongs to the kernel. */
  lemma KernelGuard(info: BootInfo, guard: u64)
    requires info.Readable() && WellFormedMap(info.Map()) && LoaderLayout(info)
    requires guard % PAGE_SIZE == 0 && info.kernelBase <= guard && guard + PAGE_SIZE <= info.kernelBase + info.kernelSize
    ensures Touches(info.kernelBase, info.kernelSize, guard / PAGE_SIZE)
    ensures OwnedBy(info.Map(), LOADER_CODE, guard / PAGE_SIZE)
  {
    assert guard == guard / PAGE_SIZE * PAGE_SIZE;
    assert Touches(info.kernelBase, info.kernelSize, guard / PAGE_SIZE);
  }

  /** The data that the kernel is handed, without the guards around its stack. */
  ghost predicate HandedData(info: BootInfo, page: nat) {
    || Touches(info.address, BOOT_INFO_SIZE, page)
    || Touches(info.memoryMap, info.memoryMapSize, page)
    || Touches(info.stackBase, info.stackSize, page)
  }

  lemma HandedDataPages(info: BootInfo, page: nat)
    requires info.Readable() && LoaderLayout(info) && HandedData(info, page)
    ensures var first := info.address / PAGE_SIZE; first <= page < first + 34 && page != first + 17
    ensures Touches(info.address, HANDOFF_PAGES * PAGE_SIZE, page)
  {
    assert info.address == info.address / PAGE_SIZE * PAGE_SIZE;
  }

  /** No guard page holds any of the data that the kernel is handed. */
  lemma GuardsAreApart(info: BootInfo, layout: Layout, page: nat)
    requires info.Readable() && WellFormedMap(info.Map()) && HandOff(info, layout)
    requires page in GuardPages(Guards(info, layout))
    ensures !HandedData(info, page)
  {
    hide HandedData, OwnedBy;
    var guards := Guards(info, layout);
    GuardMember(guards, page);
    StackGuards(info, layout);
    KernelGuard(info, layout.guardLow);
    KernelGuard(info, layout.guardHigh);
    if HandedData(info, page) {
      HandedDataPages(info, page);
      if OwnedBy(info.Map(), LOADER_CODE, page) { OneKind(info.Map(), LOADER_CODE, LOADER_DATA, page); }
    }
  }

  /** No page that the allocator hands out is a guard or belongs to a kernel section. */
  lemma UsablePagesArePlain(info: BootInfo, layout: Layout, page: nat)
    requires info.Readable() && WellFormedMap(info.Map()) && HandOff(info, layout)
    requires page in UsablePages(info)
    ensures page in RamPages(info.Map()) - GuardPages(Guards(info, layout))
    ensures Identity(layout, page) == Translation(page, true, false)
  {
    hide Guards, GuardPages, Identity, UsablePages, RamPages, LoaderLayout, LinkerLayout;
    UsableIsRam(info);
    if page in GuardPages(Guards(info, layout)) { GuardsAreUnusable(info, layout, page); }
    OutsideKernel(info, layout, page);
  }

  lemma OutsideKernel(info: BootInfo, layout: Layout, page: nat)
    requires info.Readable() && LinkerLayout(info, layout) && page in UsablePages(info)
    ensures Identity(layout, page) == Translation(page, true, false)
  {
    assert !Touches(info.kernelBase, info.kernelSize, page);
  }

  lemma GuardsAreUnusable(info: BootInfo, layout: Layout, page: nat)
    requires info.Readable() && WellFormedMap(info.Map()) && HandOff(info, layout)
    requires page in GuardPages(Guards(info, layout))
    ensures page !in UsablePages(info)
  {
    hide OwnedBy, ConventionalPages;
    var guards := Guards(info, layout);
    GuardMember(guards, page);
    StackGuards(info, layout);
    KernelGuard(info, layout.guardLow);
    KernelGuard(info, layout.guardHigh);
    var i :| 0 <= i < |guards| && guards[i] / PAGE_SIZE == page;
    if i < 2 { LoaderPageUnusable(info, page); }
  }

  lemma LoaderPageUnusable(info: BootInfo, page: nat)
    requires info.Readable() && WellFormedMap(info.Map()) && OwnedBy(info.Map(), LOADER_DATA, page)
    ensures page !in UsablePages(info)
  {
    OneKind(info.Map(), LOADER_DATA, CONVENTIONAL, page);
  }

  /** The stack, the boot information and the memory map stay mapped without the guards. */
  lemma RegionsSurvive(info: BootInfo, layout: Layout, pages: set<nat>)
    requires info.Readable() && WellFormedMap(info.Map()) && HandOff(info, layout) && RegionsMapped(pages, info)
    ensures var left := pages - GuardPages(Guards(info, layout));
      && RangeMapped(left, info.stackBase, info.stackSize)
      && RangeMapped(left, info.address, BOOT_INFO_SIZE)
      && RangeMapped(left, info.memoryMap, info.memoryMapSize)
  {
    hide HandOff, Guards, GuardPages;
    forall page | page in GuardPages(Guards(info, layout))
      ensures !HandedData(info, page)
    {
      GuardsAreApart(info, layout, page);
    }
  }
  /** The four guards are page-aligned and lie in four different pages. */
  lemma GuardsDistinct(info: BootInfo, layout: Layout)
    requires info.Readable() && WellFormedMap(info.Map()) && HandOff(info, layout)
    ensures var guards := Guards(info, layout);
      DistinctPages(guards) && forall i :: 0 <= i < |guards| ==> guards[i] % PAGE_SIZE == 0
  {
    hide OwnedBy;
    var guards := Guards(info, layout);
    StackGuards(info, layout);
    KernelGuard(info, layout.guardLow);
    KernelGuard(info, layout.guardHigh);
    forall i | 0 <= i < 2
      ensures forall j :: 2 <= j < 4 ==> guards[i] / PAGE_SIZE != guards[j] / PAGE_SIZE
    {
      OneKind(info.Map(), LOADER_DATA, LOADER_CODE, guards[i] / PAGE_SIZE);
    }
  }

  /** The guards by their addresses. */
  lemma GuardAddresses(info: BootInfo, layout: Layout, page: nat)
    requires info.Readable() && WellFormedMap(info.Map()) && HandOff(info, layout)
    ensures page in GuardPages(Guards(info, layout)) <==>
      || page * 4096 == info.stackBase - 4096 || page * 4096 == info.stackBase + info.stackSize
      || page * 4096 == layout.guardLow || page * 4096 == layout.guardHigh
  {
    hide LoaderLayout, OwnedBy, WellFormedMap;
    var guards := Guards(info, layout);
    StackGuards(info, layout);
    StackEnds(info);
    GuardMember(guards, page);
    assert guards[2] == layout.guardLow && guards[3] == layout.guardHigh;
    assert (exists i :: 0 <= i < |guards| && guards[i] / PAGE_SIZE == page) <==>
      || guards[0] / PAGE_SIZE == page || guards[1] / PAGE_SIZE == page
      || guards[2] / PAGE_SIZE == page || guards[3] / PAGE_SIZE == page;
  }

  lemma StackEnds(info: BootInfo)
    requires info.Readable() && LoaderLayout(info)
    ensures var first := info.address / PAGE_SIZE;
      info.stackBase - 4096 == (first + 17) * PAGE_SIZE && info.stackBase + info.stackSize == (first + 34) * PAGE_SIZE
  {
    HandOffBounds(info);
  }

  /** So they can be removed one after the other exactly if all four are mapped RAM. */
  lemma GuardsFit(info: BootInfo, layout: Layout)
    requires info.Readable() && WellFormedMap(info.Map()) && HandOff(info, layout)
    ensures Unguarded(RamPages(info.Map()), Guards(info, layout)).Some?
       <==> GuardPages(Guards(info, layout)) <= RamPages(info.Map())
  {
    hide HandOff, Guards, GuardPages, Unguarded;
    GuardsDistinct(info, layout);
    GuardsRemovable(RamPages(info.Map()), Guards(info, layout));
  }

  // ---------------------------------------------------------------- where the loader may put things

  /** Memory of the loader's own types is ordinary RAM. */
  ghost predicate LoaderRam(ds: seq<Descriptor>) {
    forall i :: 0 <= i < |ds| && (ds[i].kind == LOADER_CODE || ds[i].kind == LOADER_DATA) ==> !ds[i].runtime
  }

  /** The kernel lies between 1 MiB and 4 GiB, and so does the hand-off allocation with the upper guard. */
  ghost predicate WithinReach(info: BootInfo) {
    && info.kernelSize > 0 && LOW_LIMIT <= info.kernelBase && info.kernelBase + info.kernelSize <= PMM_LIMIT
    && info.memoryMapSize > 0 && LOW_LIMIT <= info.address && info.stackBase + info.stackSize < PMM_LIMIT
  }

  lemma LoaderPageIsRam(ds: seq<Descriptor>, kind: nat, page: nat)
    requires LoaderRam(ds) && OwnedBy(ds, kind, page) && (kind == LOADER_CODE || kind == LOADER_DATA)
    ensures page in RamPages(ds) <==> Managed(page)
  {
    var i :| 0 <= i < |ds| && ds[i].kind == kind && ds[i].Covers(page);
    assert ds[i].Ram();
  }

  /** The pages of the hand-off allocation. */
  lemma HandOffPage(info: BootInfo, page: nat)
    requires info.Readable() && LoaderLayout(info) && LoaderRam(info.Map())
    requires var first := info.address / PAGE_SIZE; first <= page < first + HANDOFF_PAGES
    ensures page in RamPages(info.Map()) <==> Managed(page)
  {
    hide OwnedBy, LoaderRam, RamPages;
    assert info.address == info.address / PAGE_SIZE * PAGE_SIZE;
    assert Touches(info.address, HANDOFF_PAGES * PAGE_SIZE, page);
    LoaderPageIsRam(info.Map(), LOADER_DATA, page);
  }

  lemma KernelMapped(info: BootInfo)
    requires info.Readable() && LoaderLayout(info) && LoaderRam(info.Map()) && WithinReach(info)
    ensures RangeMapped(RamPages(info.Map()), info.kernelBase, info.kernelSize)
  {
    hide OwnedBy, LoaderRam, RamPages;
    forall p | 0 <= p < PAGE_COUNT && Touches(info.kernelBase, info.kernelSize, p)
      ensures p in RamPages(info.Map())
    {
      LoaderPageIsRam(info.Map(), LOADER_CODE, p);
    }
  }

  lemma HandedDataMapped(info: BootInfo)
    requires info.Readable() && LoaderLayout(info) && LoaderRam(info.Map()) && WithinReach(info)
    ensures var pages := RamPages(info.Map());
      && RangeMapped(pages, info.stackBase, info.stackSize) && RangeMapped(pages, info.address, BOOT_INFO_SIZE)
      && RangeMapped(pages, info.memoryMap, info.memoryMapSize)
  {
    hide OwnedBy, LoaderRam, RamPages, LoaderLayout;
    forall p: nat | p < PAGE_COUNT && HandedData(info, p)
      ensures p in RamPages(info.Map())
    {
      HandedDataPages(info, p);
      HandOffPage(info, p);
    }
    HandOffBounds(info);
  }

  lemma HandOffBounds(info: BootInfo)
    requires info.Readable() && LoaderLayout(info)
    ensures info.stackBase == info.address + 18 * PAGE_SIZE && info.stackSize == 16 * PAGE_SIZE
    ensures info.memoryMap == info.address + PAGE_SIZE && info.memoryMapSize <= 16 * PAGE_SIZE
    ensures info.address == info.address / PAGE_SIZE * PAGE_SIZE
  {
  }

  lemma KernelGuardsMapped(info: BootInfo, layout: Layout)
    requires info.Readable() && WellFormedMap(info.Map()) && HandOff(info, layout)
    requires RegionsMapped(RamPages(info.Map()), info)
    ensures layout.guardLow / PAGE_SIZE in RamPages(info.Map()) && layout.guardHigh / PAGE_SIZE in RamPages(info.Map())
  {
    hide OwnedBy, RamPages, LoaderLayout;
    KernelGuard(info, layout.guardLow);
    KernelGuard(info, layout.guardHigh);
  }

  /** The upper guard of the stack decides how far up the allocation may lie. */
  lemma GuardsMapped(info: BootInfo, layout: Layout)
    requires info.Readable() && WellFormedMap(info.Map()) && HandOff(info, layout) && LoaderRam(info.Map())
    requires RegionsMapped(RamPages(info.Map()), info)
    ensures GuardPages(Guards(info, layout)) <= RamPages(info.Map()) <==> info.stackBase + info.stackSize < PMM_LIMIT
  {
    hide OwnedBy, LoaderRam, RamPages, LoaderLayout, LinkerLayout, Touches;
    var guards, first := Guards(info, layout), info.address / PAGE_SIZE;
    HandOffBounds(info);
    StackGuards(info, layout);
    HandOffPage(info, first + 17);
    HandOffPage(info, first + 34);
    KernelGuardsMapped(info, layout);
    assert guards[1] / PAGE_SIZE == first + 34;
    GuardMember(guards, first + 34);
    forall page | page in GuardPages(guards)
      ensures page == first + 34 || page in RamPages(info.Map())
    {
      GuardMember(guards, page);
      var i :| 0 <= i < |guards| && guards[i] / PAGE_SIZE == page;
    }
  }

  /**
    Where the loader may put the kernel and the hand-off allocation: every required region
    is mapped and every guard can be removed exactly if both lie within reach.
  */
  lemma ReachSuffices(info: BootInfo, layout: Layout)
    requires info.Readable() && WellFormedMap(info.Map()) && HandOff(info, layout) && LoaderRam(info.Map())
    ensures RegionsMapped(RamPages(info.Map()), info) && GuardPages(Guards(info, layout)) <= RamPages(info.Map())
       <==> WithinReach(info)
  {
    hide OwnedBy, LoaderRam, RamPages, LoaderLayout, LinkerLayout, Guards, GuardPages, Touches;
    if WithinReach(info) {
      KernelMapped(info);
      HandedDataMapped(info);
    }
    if RegionsMapped(RamPages(info.Map()), info) { GuardsMapped(info, layout); }
  }
}
