/** The fixtures that touch the kernel's own pages (kernel/paging_check.c), in any state after the start. */
module KernelFaults {
  import opened Bits
  import opened BootInformation
  import opened RadixTree
  import opened Accounting
  import opened IdentityMap
  import opened Paging
  import opened PlainPaging

  /** The linker script aligns the sections to pages, and neither is empty. */
  ghost predicate Sections(layout: Layout) {
    && layout.textStart % PAGE_SIZE == 0 && layout.textEnd % PAGE_SIZE == 0 && layout.textStart < layout.textEnd
    && layout.rodataStart % PAGE_SIZE == 0 && layout.rodataEnd % PAGE_SIZE == 0 && layout.rodataStart < layout.rodataEnd
  }

  /** The machine after `initialize_memory`, whatever clients have done since. */
  ghost predicate Running(k: PageTables, info: BootInfo, layout: Layout, m: Machine, identity: map<nat, Translation>, s: Plain)
    reads k, k.tablePages, k.pmm, k.pmm.eligible, k.pmm.inUse
  {
    && Represents(k, m, identity, s) && OnIdentityMap(info, layout, identity)
  }

  ghost predicate OnIdentityMap(info: BootInfo, layout: Layout, identity: map<nat, Translation>) {
    && info.Readable() && WellFormedMap(info.Map()) && HandOff(info, layout)
    && RegionsMapped(RamPages(info.Map()), info) && GuardPages(Guards(info, layout)) <= RamPages(info.Map())
    && MapsIdentically(Tree(map[], identity), layout, RamPages(info.Map()) - GuardPages(Guards(info, layout)))
  }

  /** The word of an address, and its place in the page. */
  function WordIndex(address: u64): (index: nat)
    ensures index < ENTRIES
  {
    address % PAGE_SIZE / 8
  }

  /** An address in the kernel image outside its two guards. */
  ghost predicate InKernel(info: BootInfo, layout: Layout, address: u64) {
    && info.kernelBase <= address < info.kernelBase + info.kernelSize
    && address / PAGE_SIZE != layout.guardLow / PAGE_SIZE && address / PAGE_SIZE != layout.guardHigh / PAGE_SIZE
  }

  lemma KernelPage(info: BootInfo, layout: Layout, address: u64)
    requires info.Readable() && WellFormedMap(info.Map()) && HandOff(info, layout) && RegionsMapped(RamPages(info.Map()), info)
    requires InKernel(info, layout, address)
    ensures address / PAGE_SIZE in RamPages(info.Map()) - GuardPages(Guards(info, layout)) && address / PAGE_SIZE < PAGE_COUNT
  {
    hide OwnedBy, RamPages;
    var page, guards := address / PAGE_SIZE, Guards(info, layout);
    assert Touches(info.kernelBase, info.kernelSize, page);
    StackGuards(info, layout);
    GuardMember(guards, page);
    OneKind(info.Map(), LOADER_CODE, LOADER_DATA, page);
  }

  lemma StackPage(info: BootInfo, layout: Layout, address: u64)
    requires info.Readable() && WellFormedMap(info.Map()) && HandOff(info, layout) && RegionsMapped(RamPages(info.Map()), info)
    requires info.stackBase <= address < info.stackBase + info.stackSize
    ensures address / PAGE_SIZE in RamPages(info.Map()) - GuardPages(Guards(info, layout)) && address / PAGE_SIZE < PAGE_COUNT
    ensures Identity(layout, address / PAGE_SIZE) == Translation(address / PAGE_SIZE, true, false)
  {
    hide OwnedBy, RamPages, GuardPages, Guards;
    var page := address / PAGE_SIZE;
    assert Touches(info.stackBase, info.stackSize, page);
    if page in GuardPages(Guards(info, layout)) { GuardsAreApart(info, layout, page); }
    StackIsData(info, layout, page);
  }

  /** The stack lies in loader data, so in no section of the kernel. */
  lemma StackIsData(info: BootInfo, layout: Layout, page: nat)
    requires info.Readable() && WellFormedMap(info.Map()) && HandOff(info, layout)
    requires Touches(info.stackBase, info.stackSize, page)
    ensures Identity(layout, page) == Translation(page, true, false)
  {
    hide OwnedBy;
    HandedDataPages(info, page);
    if Touches(info.kernelBase, info.kernelSize, page) { OneKind(info.Map(), LOADER_CODE, LOADER_DATA, page); }
  }

  /** Below 4 GiB the processor sees the identity half. */
  lemma IdentitySeen(k: PageTables, m: Machine, identity: map<nat, Translation>, s: Plain, page: nat)
    requires Represents(k, m, identity, s) && page < PAGE_COUNT
    ensures page < VIRTUAL_PAGES && Seen(identity, s, page) == if page in identity then Some(identity[page]) else None
  {
    hide Represents, PageTables.Valid;
    Opened(k, m, identity, s);
  }

  lemma KernelSeen(k: PageTables, info: BootInfo, layout: Layout, m: Machine, identity: map<nat, Translation>, s: Plain, address: u64)
    requires Running(k, info, layout, m, identity, s) && InKernel(info, layout, address)
    ensures var page := address / PAGE_SIZE; page < VIRTUAL_PAGES && Seen(identity, s, page) == Some(Identity(layout, page))
  {
    hide Represents, Identity, Guards, GuardPages, RamPages, HandOff, RegionsMapped, InKernel;
    KernelPage(info, layout, address);
    IdentitySeen(k, m, identity, s, address / PAGE_SIZE);
  }

  lemma StackSeen(k: PageTables, info: BootInfo, layout: Layout, m: Machine, identity: map<nat, Translation>, s: Plain, address: u64)
    requires Running(k, info, layout, m, identity, s) && info.stackBase <= address < info.stackBase + info.stackSize
    ensures var page := address / PAGE_SIZE; page < VIRTUAL_PAGES && Seen(identity, s, page) == Some(Translation(page, true, false))
  {
    hide Represents, Identity, Guards, GuardPages, RamPages, HandOff, RegionsMapped;
    StackPage(info, layout, address);
    IdentitySeen(k, m, identity, s, address / PAGE_SIZE);
  }

  lemma GuardSeen(k: PageTables, info: BootInfo, layout: Layout, m: Machine, identity: map<nat, Translation>, s: Plain, guard: u64)
    requires Running(k, info, layout, m, identity, s) && guard in Guards(info, layout)
    ensures guard / PAGE_SIZE < VIRTUAL_PAGES && Seen(identity, s, guard / PAGE_SIZE) == None
  {
    hide Represents, Identity, Guards, GuardPages, HandOff, RegionsMapped, RamPage;
    GuardMember(Guards(info, layout), guard / PAGE_SIZE);
    IdentitySeen(k, m, identity, s, guard / PAGE_SIZE);
  }

  predicate InText(layout: Layout, address: u64) {
    layout.textStart <= address < layout.textEnd
  }

  predicate InRodata(layout: Layout, address: u64) {
    layout.rodataStart <= address < layout.rodataEnd
  }

  /** The rights of the linker script's sections, and of what follows them in the image. */
  lemma SectionRights(layout: Layout, address: u64)
    requires Sections(layout) && layout.textEnd <= layout.rodataStart
    ensures var page := address / PAGE_SIZE;
      && (layout.textStart <= address < layout.textEnd ==> Identity(layout, page) == Translation(page, false, true))
      && (layout.rodataStart <= address < layout.rodataEnd ==> Identity(layout, page) == Translation(page, false, false))
      && (address >= layout.rodataEnd ==> Identity(layout, page) == Translation(page, true, false))
  {
  }

  lemma SectionsInKernel(k: PageTables, info: BootInfo, layout: Layout, m: Machine, identity: map<nat, Translation>, s: Plain, address: u64)
    requires Running(k, info, layout, m, identity, s) && (InText(layout, address) || InRodata(layout, address))
    ensures InKernel(info, layout, address) && layout.textEnd <= layout.rodataStart
  {
    hide Represents, RegionsMapped, RamPages, Guards, GuardPages, LoaderLayout, MapsIdentically;
  }

  /** Code runs, and a store to it faults (`paging_test_text_write` stores to its first byte). */
  method TextWrite(k: PageTables, info: BootInfo, layout: Layout, address: u64, word: Word,
                   ghost m: Machine, ghost identity: map<nat, Translation>, ghost s: Plain) returns (ran: bool, stored: bool)
    requires Running(k, info, layout, m, identity, s) && Sections(layout) && InText(layout, address)
    modifies k`ram, k`cache
    ensures Running(k, info, layout, m, identity, s) && ran && !stored
  {
    hide Represents, Identity, Sections, InKernel, OnIdentityMap, Seen;
    SectionsInKernel(k, info, layout, m, identity, s, address);
    SectionRights(layout, address);
    KernelSeen(k, info, layout, m, identity, s, address);
    var fetched := DoFetch(k, address / PAGE_SIZE, WordIndex(address), m, identity, s);
    ran := fetched.Some?;
    stored := DoStore(k, address / PAGE_SIZE, WordIndex(address), word, m, identity, s);
  }

  /** Constants can be read; a store to them faults (`paging_test_rodata_write`), and so does a fetch. */
  method RodataWrite(k: PageTables, info: BootInfo, layout: Layout, address: u64, word: Word,
                     ghost m: Machine, ghost identity: map<nat, Translation>, ghost s: Plain) returns (read: bool, stored: bool, ran: bool)
    requires Running(k, info, layout, m, identity, s) && Sections(layout) && InRodata(layout, address)
    modifies k`ram, k`cache
    ensures Running(k, info, layout, m, identity, s) && read && !stored && !ran
  {
    hide Represents, Identity, Sections, InKernel, OnIdentityMap, Seen;
    SectionsInKernel(k, info, layout, m, identity, s, address);
    SectionRights(layout, address);
    KernelSeen(k, info, layout, m, identity, s, address);
    var loaded := DoLoad(k, address / PAGE_SIZE, WordIndex(address), m, identity, s);
    read := loaded.Some?;
    stored := DoStore(k, address / PAGE_SIZE, WordIndex(address), word, m, identity, s);
    var fetched := DoFetch(k, address / PAGE_SIZE, WordIndex(address), m, identity, s);
    ran := fetched.Some?;
  }

  lemma SectionsInOrder(info: BootInfo, layout: Layout)
    requires info.Readable() && HandOff(info, layout)
    ensures layout.textEnd <= layout.rodataStart
  {
  }

  /** Data behind the sections can be read but not run (`paging_test_data_exec`). */
  method DataExec(k: PageTables, info: BootInfo, layout: Layout, address: u64,
                  ghost m: Machine, ghost identity: map<nat, Translation>, ghost s: Plain) returns (read: bool, ran: bool)
    requires Running(k, info, layout, m, identity, s) && Sections(layout)
    requires InKernel(info, layout, address) && address >= layout.rodataEnd
    modifies k`cache
    ensures Running(k, info, layout, m, identity, s) && read && !ran
  {
    hide Represents, Identity, Sections, InKernel, Seen, HandOff, RegionsMapped, MapsIdentically, Guards, GuardPages, RamPages;
    SectionsInOrder(info, layout);
    SectionRights(layout, address);
    KernelSeen(k, info, layout, m, identity, s, address);
    var loaded := DoLoad(k, address / PAGE_SIZE, WordIndex(address), m, identity, s);
    var fetched := DoFetch(k, address / PAGE_SIZE, WordIndex(address), m, identity, s);
    read, ran := loaded.Some?, fetched.Some?;
  }

  /** So it is for the stack (`paging_test_stack_exec`). */
  method StackExec(k: PageTables, info: BootInfo, layout: Layout, address: u64,
                   ghost m: Machine, ghost identity: map<nat, Translation>, ghost s: Plain) returns (read: bool, ran: bool)
    requires Running(k, info, layout, m, identity, s) && info.stackBase <= address < info.stackBase + info.stackSize
    modifies k`cache
    ensures Running(k, info, layout, m, identity, s) && read && !ran
  {
    hide Represents, Identity, OnIdentityMap, Seen;
    StackSeen(k, info, layout, m, identity, s, address);
    var loaded := DoLoad(k, address / PAGE_SIZE, WordIndex(address), m, identity, s);
    var fetched := DoFetch(k, address / PAGE_SIZE, WordIndex(address), m, identity, s);
    read, ran := loaded.Some?, fetched.Some?;
  }

  ghost predicate NamedGuard(info: BootInfo, layout: Layout, address: u64) {
    || address == info.stackBase - 4096 || address == info.stackBase + info.stackSize
    || address == layout.guardLow || address == layout.guardHigh
  }

  lemma NamedGuardIsGuard(info: BootInfo, layout: Layout, address: u64)
    requires info.Readable() && WellFormedMap(info.Map()) && HandOff(info, layout) && NamedGuard(info, layout, address)
    ensures address in Guards(info, layout)
  {
    hide LoaderLayout, LinkerLayout, OwnedBy, WellFormedMap;
    StackGuards(info, layout);
    StackEnds(info);
    var guards := Guards(info, layout);
    assert guards[2] == layout.guardLow && guards[3] == layout.guardHigh;
    assert address == guards[0] || address == guards[1] || address == guards[2] || address == guards[3];
  }

  /**
    Touching a guard faults: right below and right above the kernel stack and the
    double-fault stack (`paging_test_stack_low` and `_high`, `paging_test_df_low` and `_high`).
  */
  method GuardLoad(k: PageTables, info: BootInfo, layout: Layout, address: u64,
                   ghost m: Machine, ghost identity: map<nat, Translation>, ghost s: Plain) returns (read: bool)
    requires Running(k, info, layout, m, identity, s) && NamedGuard(info, layout, address)
    modifies k`cache
    ensures Running(k, info, layout, m, identity, s) && !read
  {
    hide Represents, Seen, Guards, HandOff, NamedGuard, GuardPages, RamPages, RegionsMapped, MapsIdentically, WellFormedMap;
    NamedGuardIsGuard(info, layout, address);
    GuardSeen(k, info, layout, m, identity, s, address);
    var loaded := DoLoad(k, address / PAGE_SIZE, WordIndex(address), m, identity, s);
    read := loaded.Some?;
  }
}
