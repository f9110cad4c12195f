/** `initialize_memory` (kernel/main.c): both memory managers, from the hand-off to the running state. */
module MemoryStart {
  import opened BootInformation
  import opened PhysicalPages
  import opened RadixTree
  import opened TranslationCache
  import opened Accounting
  import opened IdentityMap
  import opened Paging
  import opened Clients
  import opened SelfTests
  import opened PlainPaging
  import opened AliasCheck
  import opened BootContract
  import PagingInit
  import KernelFaults

  ghost function StartMachine(info: BootInfo): Machine
    requires info.Readable()
  {
    Machine(UsablePages(info), Needed(RamPages(info.Map())))
  }

  /** `kernel_boot_info->stack_base - 4096` */
  function StackGuard(info: BootInfo, layout: Layout): u64 {
    Guards(info, layout)[0]
  }

  /** The frames that the paging check expects to be refused are none that the allocator manages. */
  lemma RefusedFrames(info: BootInfo, layout: Layout)
    requires info.Readable() && WellFormedMap(info.Map()) && HandOff(info, layout)
    ensures Unmanaged(StartMachine(info), layout, StackGuard(info, layout))
  {
    StackGuards(info, layout);
    LoaderPageUnusable(info, Guards(info, layout)[0] / PAGE_SIZE);
    InKernel(info, layout.textStart);
    InKernel(info, layout.rodataStart);
    InKernel(info, layout.guardLow);
  }

  lemma InKernel(info: BootInfo, address: u64)
    requires info.Readable() && info.kernelBase <= address < info.kernelBase + info.kernelSize
    ensures address / PAGE_SIZE !in UsablePages(info)
  {
    assert Touches(info.kernelBase, info.kernelSize, address / PAGE_SIZE);
  }

  /** Writing free pages disturbs no table. */
  lemma FreePagesWritten(k: PageTables, ram: Ram)
    requires k.Valid() && Spares(k.ram, ram, k.pmm.Eligible() - k.pmm.Allocated())
    ensures Stored(k.ram, k.tree) && Stored(ram, k.tree)
  {
    hide Coherent, PageAllocator.Valid, Balanced, SelfSupporting, LeavesOwned;
    k.OpenValid();
    forall p | p in k.tree.tables
      ensures ram[k.tree.tables[p]] == k.ram[k.tree.tables[p]]
    {
      assert k.tree.tables[p] in k.tree.tables.Values;
    }
    OtherFrames(k.ram, ram, k.tree);
  }

  /** `pmm_boot_check` while paging is active. */
  method RamCheck(k: PageTables) returns (ok: bool)
    requires k.Valid()
    modifies k`ram, k.pmm`freePages, k.pmm`cursor, k.pmm.inUse
    ensures k.Valid() && k.pmm.Eligible() == old(k.pmm.Eligible())
    ensures ok <==> old(k.pmm.freePages) >= 3
    ensures k.pmm.Allocated() == old(k.pmm.Allocated()) && k.pmm.freePages == old(k.pmm.freePages)
  {
    hide Stored, Shaped, Coherent, Consistent, PageAllocator.Valid, PageAllocator.Allocated, PageAllocator.Eligible, Spares;
    ghost var held, eligible := k.pmm.Allocated(), k.pmm.Eligible();
    KeepsWords(k);
    var ram;
    ok, ram := PmmBootCheck(k.pmm, k.ram);
    FreePagesWritten(k, ram);
    k.ram := ram;
  }

  lemma KeepsWords(k: PageTables)
    requires k.Valid()
    ensures k.pmm.Valid() && k.active && k.Storage() && k.Intact()
  {
  }

  /** `pmm_init` and the first `pmm_boot_check`. */
  method InitializePages(k: PageTables, info: BootInfo) returns (ok: bool)
    requires k.pmm.Valid() && !k.pmm.ready && k.Storage()
    requires ValidBootInfo(info) ==> info.Readable()
    modifies k`ram, k.pmm, k.pmm.eligible, k.pmm.inUse
    ensures k.pmm.Valid()
    ensures ok <==> ValidBootInfo(info) && WellFormedMap(info.Map()) && |UsablePages(info)| >= 3
    ensures ok ==> k.pmm.Eligible() == UsablePages(info) && k.pmm.Allocated() == {}
    ensures ok ==> k.pmm.freePages == k.pmm.totalPages == |UsablePages(info)|
  {
    hide PageAllocator.Eligible, PageAllocator.Allocated, ValidBootInfo, WellFormedMap, UsablePages, Spares;
    ok := k.pmm.Init(Some(info));
    if !ok { return; }
    assert |k.pmm.Allocated()| == 0;
    var ram;
    ok, ram := PmmBootCheck(k.pmm, k.ram);
    k.ram := ram;
    PagesCounted(k.pmm);
  }

  lemma PagesCounted(pmm: PageAllocator)
    requires pmm.Valid() && pmm.Allocated() == {}
    ensures pmm.freePages == pmm.totalPages == |pmm.Eligible()|
  {
  }

  /** Right after `paging_init`: nothing is mapped in the window, and no client owns a frame. */
  lemma JustStarted(k: PageTables, info: BootInfo, layout: Layout)
    requires info.Readable() && WellFormedMap(info.Map()) && HandOff(info, layout) && !k.interruptsEnabled
    requires PagingInit.Started(k, info, layout) && k.pmm.Eligible() == UsablePages(info)
    requires k.pmm.Allocated() - k.tree.tables.Values == {}
    ensures Represents(k, StartMachine(info), IdentityHalf(k.tree), Mapping({}, None, None))
    ensures Spare(StartMachine(info), Mapping({}, None, None)) == k.pmm.freePages == |UsablePages(info)| - Needed(RamPages(info.Map()))
    ensures StartMachine(info).identityTables == Needed(RamPages(info.Map())) <= 2054
    ensures MapsIdentically(Tree(map[], IdentityHalf(k.tree)), layout, RamPages(info.Map()) - GuardPages(Guards(info, layout)))
  {
    hide HandOff, Guards, GuardPages, PagingInit.Started, UsablePages, Represents, PageTables.Valid, MapsIdentically, Needed, WellFormedMap;
    PagingInit.StartedIsValid(k, info, layout);
    StartIsPlain(k, info, layout);
    BooksAgree(k);
    Counted(k, StartMachine(info), IdentityHalf(k.tree), Mapping({}, None, None));
    NoneSpent(StartMachine(info));
    SameLeaves(k.tree, layout, RamPages(info.Map()) - GuardPages(Guards(info, layout)));
  }

  lemma SameLeaves(t: Tree, layout: Layout, pages: set<nat>)
    requires MapsIdentically(Tree(t.tables, IdentityHalf(t)), layout, pages)
    ensures MapsIdentically(Tree(map[], IdentityHalf(t)), layout, pages)
  {
  }

  lemma NoneSpent(m: Machine)
    ensures Spare(m, Mapping({}, None, None)) == |m.eligible| - m.identityTables
  {
    CheckedTables();
    assert Mapping({}, None, None).pages.Keys == {};
  }

  /** The second `pmm_boot_check`, and `paging_boot_check`. */
  method CheckMemory(k: PageTables, layout: Layout, guard: u64, ghost m: Machine, ghost identity: map<nat, Translation>) returns (ok: bool)
    requires Represents(k, m, identity, Mapping({}, None, None)) && m.identityTables <= 2054 && Unmanaged(m, layout, guard)
    modifies k`ram, k`tree, k`cache, k`tableCount, k.tablePages, k.pmm`freePages, k.pmm`cursor, k.pmm.inUse
    ensures ok <==> old(k.pmm.freePages) >= 6
    ensures ok ==> Represents(k, m, identity, Mapping({}, None, None))
  {
    hide *;
    AliasCheck.EmptyWindow(k, m, identity, {});
    BooksAgree(k);
    ghost var held, tree := k.pmm.Allocated(), k.tree;
    ok := RamCheck(k);
    if !ok { return; }
    StillEmpty(k, m, identity, {}, held, tree);
    ok := PagingBootCheck(k, layout, guard, m, identity, {});
  }

  /** All RAM is write-back, the regions the kernel stands on are RAM, and so are the guard pages. */
  ghost predicate CanBegin(info: BootInfo, layout: Layout)
    requires info.Readable()
  {
    var pages := RamPages(info.Map());
    AllWriteBack(info.Map()) && RegionsMapped(pages, info) && GuardPages(Guards(info, layout)) <= pages
  }

  /**
    `initialize_memory`, given the hand-off contract: it succeeds exactly when the boot
    information and its map are valid, the processor is suitable, `CanBegin` holds, and six
    pages remain besides the tables. When the loader's memory is ordinary RAM, `CanBegin`
    means that all RAM is write-back and that the kernel and the hand-off allocation lie
    within reach. Then the machine is the plain one with nothing mapped and
    nothing owned, on an identity map of exactly the RAM pages but the guards.
  */
  method InitializeMemory(k: PageTables, info: BootInfo, layout: Layout, cpuSupported: bool)
    returns (ok: bool, ghost identity: map<nat, Translation>)
    requires k.pmm.Valid() && !k.pmm.ready && k.Storage() && k.tableCount == 0 && !k.active && !k.interruptsEnabled
    requires ValidBootInfo(info) ==> info.Readable()
    requires info.Readable() && WellFormedMap(info.Map()) ==> HandOff(info, layout)
    modifies k, k.tablePages, k.pmm, k.pmm.eligible, k.pmm.inUse
    ensures ok <==> ValidBootInfo(info) && WellFormedMap(info.Map()) && cpuSupported
                    && CanBegin(info, layout) && |UsablePages(info)| - Needed(RamPages(info.Map())) >= 6
    ensures ValidBootInfo(info) && WellFormedMap(info.Map()) && LoaderRam(info.Map()) ==>
      (ok <==> cpuSupported && AllWriteBack(info.Map()) && WithinReach(info)
               && |UsablePages(info)| - Needed(RamPages(info.Map())) >= 6)
    ensures ok ==> Represents(k, StartMachine(info), identity, Mapping({}, None, None))
    ensures ok ==> MapsIdentically(Tree(map[], identity), layout, RamPages(info.Map()) - GuardPages(Guards(info, layout)))
    ensures ok ==> KernelFaults.Running(k, info, layout, StartMachine(info), identity, Mapping({}, None, None))
  {
    hide PageAllocator.Eligible, PageAllocator.Allocated, PageAllocator.Valid, ValidBootInfo, WellFormedMap, UsablePages, HandOff;
    hide Represents, Guards, GuardPages, PagingInit.Started, MapsIdentically, Needed, RamPages, PagingInit.CanStart, PageTables.Valid;
    hide Mapping, Spare, Unmanaged;
    identity := map[];
    ok := InitializePages(k, info);
    if ValidBootInfo(info) && WellFormedMap(info.Map()) {
      PagingInit.CanStartExactly(info, layout, |UsablePages(info)|);
      if LoaderRam(info.Map()) { ReachSuffices(info, layout); }
    }
    if !ok { return; }
    ok := PagingInit.Init(k, Some(info), layout, cpuSupported);
    if !ok { return; }
    JustStarted(k, info, layout);
    RefusedFrames(info, layout);
    identity := IdentityHalf(k.tree);
    ok := CheckMemory(k, layout, StackGuard(info, layout), StartMachine(info), identity);
  }

  /**
    From the loader's own block to the running machine: with what `GetMemoryMap` has
    returned in the block that `start_kernel` hands over, the bring-up succeeds exactly if
    the firmware's figures and map are in order, all RAM is write-back, and the kernel and
    the hand-off allocation lie where the identity map reaches, with six pages to spare.
  */
  method StartFromLoader(k: PageTables, base: u64, kernel: u64, pages: nat, mapSize: u64, stride: u64, version: nat,
                         descriptors: seq<Descriptor>, layout: Layout, cpuSupported: bool)
    returns (ok: bool, ghost identity: map<nat, Translation>)
    requires k.pmm.Valid() && !k.pmm.ready && k.Storage() && k.tableCount == 0 && !k.active && !k.interruptsEnabled
    requires base % 4096 == 0 && base + 35 * 4096 < U64 && 0 < pages && kernel + pages * 4096 < U64 && mapSize <= 65536
    requires var info := LoaderBlock(base, kernel, pages, mapSize, stride, version, descriptors);
      && info.Readable()
      && (WellFormedMap(info.Map()) ==> HandOff(info, layout) && LoaderRam(info.Map()))
    modifies k, k.tablePages, k.pmm, k.pmm.eligible, k.pmm.inUse
    ensures var info := LoaderBlock(base, kernel, pages, mapSize, stride, version, descriptors);
      ok <==>
        && 0 < mapSize && 40 <= stride && stride % 8 == 0 && mapSize % stride == 0 && version == 1
        && WellFormedMap(info.Map()) && AllWriteBack(info.Map()) && cpuSupported
        && 0x10_0000 <= kernel && kernel + pages * 4096 <= 0x1_0000_0000
        && 0x10_0000 <= base && base + 34 * 4096 < 0x1_0000_0000
        && |UsablePages(info)| - Needed(RamPages(info.Map())) >= 6
    ensures ok ==> KernelFaults.Running(k, LoaderBlock(base, kernel, pages, mapSize, stride, version, descriptors), layout,
      StartMachine(LoaderBlock(base, kernel, pages, mapSize, stride, version, descriptors)), identity, Mapping({}, None, None))
  {
    hide *;
    var info := LoaderBlock(base, kernel, pages, mapSize, stride, version, descriptors);
    LoaderBlockIsValid(base, kernel, pages, mapSize, stride, version, descriptors);
    LoaderReach(base, kernel, pages, mapSize, stride, version, descriptors);
    ok, identity := InitializeMemory(k, info, layout, cpuSupported);
  }

  lemma LoaderReach(base: u64, kernel: u64, pages: nat, mapSize: u64, stride: u64, version: nat, descriptors: seq<Descriptor>)
    requires base + 35 * 4096 < U64 && kernel + pages * 4096 < U64 && 0 < pages
    ensures WithinReach(LoaderBlock(base, kernel, pages, mapSize, stride, version, descriptors)) <==>
      && 0 < mapSize && 0x10_0000 <= kernel && kernel + pages * 4096 <= 0x1_0000_0000
      && 0x10_0000 <= base && base + 34 * 4096 < 0x1_0000_0000
  {
  }
}
