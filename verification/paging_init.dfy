/** `paging_init`: building and activating the identity map (kernel/paging.c). */
module PagingInit {
  import opened Bits
  import opened BootInformation
  import opened PhysicalPages
  import opened RadixTree
  import opened Entries
  import opened Accounting
  import opened MapPath
  import opened TableRegistry
  import opened IdentityMap
  import opened BootContract
  import opened Paging

  lemma RootOnly(ram: Ram, root: nat)
    requires root < PAGE_COUNT && Blank(ram, root)
    ensures Stored(ram, Tree(map[ROOT := root], map[]))
    ensures map[ROOT := root].Values == {root} && map[ROOT := root].Keys == {ROOT} + Spine({})
  {
    var t := Tree(map[ROOT := root], map[]);
    assert t.tables[ROOT] == root;
    assert TableStored(ram, t, ROOT);
  }

  lemma FramesOfOne(frame: nat)
    ensures Frames([frame]) == {frame} && NoDuplicates([frame]) && Frames([]) == {}
  {
    assert frame in [frame];
  }

  /** What was allocated on top of `held`: exactly the registered frames. */
  ghost predicate OnlyTables(k: PageTables, held: set<nat>, free: nat)
    reads k`active, k`tableCount, k.tablePages, k.pmm, k.pmm.eligible, k.pmm.inUse
    ensures OnlyTables(k, held, free) ==> k.pmm.Valid() && k.Storage() && k.tableCount <= k.tablePages.Length && !k.active
  {
    && !k.active && k.pmm.Valid() && k.Storage()
    && k.Pending([], held, free, k.Registry())
  }

  /** `pages` are mapped, out of `all` whose tables exist. */
  ghost predicate Maps(k: PageTables, layout: Layout, all: set<nat>, pages: set<nat>)
    reads k, k.tablePages
    requires k.tableCount <= k.tablePages.Length
  {
    && k.Intact()
    && MapsIdentically(k.tree, layout, pages) && pages <= all
    && k.tree.tables.Keys == {ROOT} + Spine(all)
    && Registers(k.Registry(), k.tree.tables) && k.Registry() != [] && k.Registry()[0] == k.root
  }

  /** `paging_root = new_table()` */
  method Start(k: PageTables, layout: Layout) returns (ok: bool)
    requires !k.active && k.pmm.Valid() && k.Storage() && k.tableCount == 0
    modifies k`ram, k`tree, k`root, k`tableCount, k.tablePages, k.pmm`freePages, k.pmm`cursor, k.pmm.inUse
    ensures k.pmm.Valid() && k.Storage() && k.pmm.Eligible() == old(k.pmm.Eligible()) && k.tableCount <= k.tablePages.Length
    ensures ok <==> old(k.pmm.freePages) > 0
    ensures ok ==> OnlyTables(k, old(k.pmm.Allocated()), old(k.pmm.freePages)) && Maps(k, layout, {}, {})
    ensures !ok ==> k.tableCount == 0 && k.root == 0
    ensures !ok ==> k.pmm.Allocated() == old(k.pmm.Allocated()) && k.pmm.freePages == old(k.pmm.freePages)
    ensures Spares(old(k.ram), k.ram, old(k.pmm.Eligible() - k.pmm.Allocated()))
  {
    hide Maps, PageAllocator.Valid, NoDuplicates, Frames, Spine, Stored, Shaped, Blank, Registers, Spares;
    k.root := 0;
    assert k.Registry() == [];
    SparesNothing(k.ram, k.pmm.Eligible() - k.pmm.Allocated());
    var first := k.NewTable();
    if first.None? { return false; }
    SparesMore(old(k.ram), k.ram, {first.value}, old(k.pmm.Eligible() - k.pmm.Allocated()));
    k.root := first.value;
    k.tree := Tree(map[ROOT := k.root], map[]);
    FramesOfOne(k.root);
    assert k.Registry() == [k.root];
    assert [] + k.Registry() == k.Registry();
    StartIsMapped(k, layout);
    ok := true;
  }

  lemma StartIsMapped(k: PageTables, layout: Layout)
    requires !k.active && k.tableCount <= k.tablePages.Length && k.root < PAGE_COUNT && Blank(k.ram, k.root)
    requires k.tree == Tree(map[ROOT := k.root], map[]) && k.Registry() == [k.root]
    ensures Maps(k, layout, {}, {})
  {
    hide NoDuplicates, Frames, Spine, Stored, Shaped, Blank, Registers;
    RootOnly(k.ram, k.root);
    RegistersRoot(k.root);
  }

  lemma RegistersRoot(root: nat)
    ensures Registers([root], map[ROOT := root])
  {
    assert map[ROOT := root][ROOT] == root;
  }

  /** `discard_page_tables` */
  method Discard(k: PageTables, ghost held: set<nat>, ghost free: nat)
    requires OnlyTables(k, held, free)
    modifies k`root, k`tableCount, k.pmm`freePages, k.pmm`cursor, k.pmm.inUse
    ensures k.pmm.Valid() && k.Storage() && k.pmm.Eligible() == old(k.pmm.Eligible())
    ensures k.tableCount == 0 && k.root == 0
    ensures k.pmm.Allocated() == held && k.pmm.freePages == free
  {
    while k.tableCount > 0
      invariant OnlyTables(k, held, free) && k.pmm.Eligible() == old(k.pmm.Eligible())
    {
      DiscardOne(k, held, free);
    }
    assert k.Registry() == [];
    k.NonePending([], held, free);
    k.root := 0;
  }

  lemma LastListed(k: PageTables, held: set<nat>, free: nat)
    requires OnlyTables(k, held, free) && k.tableCount > 0
    ensures var all, last := k.Registry(), k.tablePages[k.tableCount - 1];
      && |all| == k.tableCount && last == all[|all| - 1]
      && last * PAGE_SIZE < U64 && last * PAGE_SIZE % PAGE_SIZE == 0 && last * PAGE_SIZE / PAGE_SIZE == last
      && last in k.pmm.Allocated() && held !! Frames(all) && NoDuplicates(all)
      && k.pmm.Allocated() == held + Frames(all) && k.pmm.freePages + |all| == free
      && forall f :: f in Frames(all) ==> f < PAGE_COUNT
  {
    hide PageAllocator.Valid, NoDuplicates, Frames;
    var all := k.Registry();
    assert [] + all == all;
    NewestOf([], all, held);
    k.pmm.EligibleManaged();
  }

  lemma OneLess(k: PageTables, held: set<nat>, free: nat, all: seq<nat>)
    requires !k.active && k.pmm.Valid() && k.Storage() && all != [] && k.tableCount <= k.tablePages.Length
    requires k.Registry() == all[..|all| - 1] && NoDuplicates(all) && held !! Frames(all)
    requires k.pmm.Allocated() == held + Frames(all) - {all[|all| - 1]} && k.pmm.freePages + |all| == free + 1
    requires forall f :: f in Frames(all) ==> f < PAGE_COUNT
    ensures OnlyTables(k, held, free)
  {
    hide PageAllocator.Valid, NoDuplicates, Frames;
    assert [] + all == all && [] + k.Registry() == k.Registry();
    NewestOf([], all, held);
    FramesWithin(all);
  }

  method DiscardOne(k: PageTables, ghost held: set<nat>, ghost free: nat)
    requires OnlyTables(k, held, free) && k.tableCount > 0
    modifies k`tableCount, k.pmm`freePages, k.pmm`cursor, k.pmm.inUse
    ensures OnlyTables(k, held, free) && k.pmm.Eligible() == old(k.pmm.Eligible())
    ensures k.tableCount == old(k.tableCount) - 1
  {
    hide PageAllocator.Valid, NoDuplicates, Frames, OnlyTables;
    ghost var all := k.Registry();
    LastListed(k, held, free);
    k.tableCount := k.tableCount - 1;
    var freed := k.pmm.Free(k.tablePages[k.tableCount] * PAGE_SIZE);
    assert k.Registry() == all[..|all| - 1];
    OneLess(k, held, free, all);
  }

  /** Seen from now on, nothing is pending. */
  lemma FromHere(k: PageTables, held: set<nat>, free: nat)
    requires OnlyTables(k, held, free)
    ensures k.Pending(k.Registry(), k.pmm.Allocated(), k.pmm.freePages, [])
    ensures k.pmm.Allocated() == held + Frames(k.Registry()) && k.pmm.freePages + |k.Registry()| == free
    ensures held !! Frames(k.Registry())
  {
    assert Frames([]) == {};
    assert [] + k.Registry() == k.Registry();
  }

  lemma FromStart(k: PageTables, registry: seq<nat>, created: seq<nat>, held: set<nat>, free: nat)
    requires !k.active && held !! Frames(registry) && |registry| <= free
    requires forall f :: f in Frames(registry) ==> f < PAGE_COUNT
    requires k.Pending(registry, held + Frames(registry), free - |registry|, created)
    ensures OnlyTables(k, held, free)
  {
    hide PageAllocator.Valid, NoDuplicates;
    assert [] + k.Registry() == k.Registry();
    assert Frames(registry + created) == Frames(registry) + Frames(created);
  }

  /** What mapping one page may have to allocate, in terms of the pages mapped so far. */
  lemma PathNeeds(t: Tree, pages: set<nat>, page: nat)
    requires t.tables.Keys == {ROOT} + Spine(pages) && Managed(page) && forall p :: p in pages ==> Managed(p)
    ensures |t.tables| == Needed(pages) && Needed(pages + {page}) == Needed(pages) + Missing(t.tables, page, 3) <= 2054
  {
    hide Spine, Missing, BootTables;
    IdentityTablesAreBoot({page});
    IdentityTablesAreBoot(pages);
    MissingIsGrowth(t.tables, {ROOT}, pages, page);
    IdentityBudget(pages + {page});
    DisjointSum({ROOT}, Spine(pages));
    assert |t.tables| == |t.tables.Keys|;
  }

  /** The leaf of `map_page`: written without INVLPG, before CR3 points here. */
  method WriteIdentity(k: PageTables, table: nat, address: u64, page: nat, leaf: Word, ghost to: Translation)
    requires !k.active && k.Intact() && page < VIRTUAL_PAGES && page == PageOf(address) && to.frame < PAGE_COUNT
    requires leaf == LeafWord(to.frame, to.write, to.exec)
    requires At(page, 3) in k.tree.tables && table == k.tree.tables[At(page, 3)]
    modifies k`ram, k`tree
    ensures k.Intact() && k.tree == old(k.tree).(leaves := old(k.tree).leaves[page := to])
    ensures Spares(old(k.ram), k.ram, {table})
  {
    hide Stored, Shaped, At;
    LeafTable(k.ram, k.tree, page);
    SetLeaf(k.ram, k.tree, page, to);
    k.ram := Write(k.ram, table, IndexOf(address, 3), leaf);
    k.tree := k.tree.(leaves := k.tree.leaves[page := to]);
  }

  /** `map_page` */
  method MapIdentityPage(k: PageTables, layout: Layout, page: nat, ghost pages: set<nat>, ghost held: set<nat>, ghost free: nat)
    returns (ok: bool)
    requires OnlyTables(k, held, free) && Maps(k, layout, pages, pages) && Managed(page)
    modifies k`ram, k`tree, k`cache, k`tableCount, k.tablePages, k.pmm`freePages, k.pmm`cursor, k.pmm.inUse
    ensures OnlyTables(k, held, free) && k.pmm.Eligible() == old(k.pmm.Eligible())
    ensures ok ==> Maps(k, layout, pages + {page}, pages + {page})
    ensures !ok ==> free < Needed(pages + {page})
    ensures Spares(old(k.ram), k.ram, k.pmm.Eligible() - held)
  {
    hide PageTables.Intact, PageTables.Pending, PageTables.TreeOnPath, PageTables.Storage, OnlyTables, Maps;
    hide OnPath, Stored, Shaped, PageAllocator.Valid, Frames, Registers, Missing, At, Spine, Spares, NoDuplicates;
    hide PageAllocator.Allocated, PageAllocator.Eligible, MapsIdentically, Needed, IndexOf, PageOf, IdentityLeaf;
    ghost var before, registry := k.tree, k.Registry();
    MapsFacts(k, layout, pages, page);
    FromHere(k, held, free);
    FramesBelow(k, held, free);
    PageAddress(page);
    var address := page * PAGE_SIZE;
    var reached, table, level, links, created := k.BuildPath(address, page, registry, k.pmm.Allocated(), k.pmm.freePages);
    k.PathCount(before, page, level, links, created);
    k.PendingCount(registry, held + Frames(registry), free - |registry|, created);
    FromStart(k, registry, created, held, free);
    WrittenIsFree(k, registry, created, held, free);
    SparesMore(old(k.ram), k.ram, Frames(registry) + Frames(created), k.pmm.Eligible() - held);
    ok := reached;
    if ok {
      k.LeafOnPath(before, page, links, created);
      ghost var between := k.ram;
      WriteIdentity(k, table, address, page, IdentityLeaf(layout, address), Identity(layout, page));
      MapsMore(k, layout, before, registry, created, pages, page);
      SparesBoth(old(k.ram), between, k.ram, k.pmm.Eligible() - held, {table}, k.pmm.Eligible() - held);
    }
  }

  /** Old and new tables lie in frames that were free at the start. */
  lemma WrittenIsFree(k: PageTables, registry: seq<nat>, created: seq<nat>, held: set<nat>, free: nat)
    requires OnlyTables(k, held, free) && k.Registry() == registry + created
    ensures Frames(registry) + Frames(created) <= k.pmm.Eligible() - held
  {
    hide NoDuplicates;
    k.pmm.EligibleManaged();
    FromHere(k, held, free);
    forall f | f in Frames(registry) + Frames(created)
      ensures f in Frames(k.Registry())
    {
      assert f in registry + created;
    }
  }

  lemma MapsFacts(k: PageTables, layout: Layout, pages: set<nat>, page: nat)
    requires k.tableCount <= k.tablePages.Length && Maps(k, layout, pages, pages) && Managed(page)
    ensures k.Intact() && page < VIRTUAL_PAGES
    ensures MapsIdentically(k.tree, layout, pages) && k.tree.tables.Keys == {ROOT} + Spine(pages)
    ensures Registers(k.Registry(), k.tree.tables) && k.Registry() != [] && k.Registry()[0] == k.root
    ensures k.tree.tables.Values == Frames(k.Registry())
    ensures |k.Registry()| == Needed(pages)
    ensures Needed(pages + {page}) == Needed(pages) + Missing(k.tree.tables, page, 3) <= 2054
  {
    PathNeeds(k.tree, pages, page);
    RegisteredSize(k.Registry(), k.tree);
  }

  lemma FramesBelow(k: PageTables, held: set<nat>, free: nat)
    requires OnlyTables(k, held, free)
    ensures forall f :: f in Frames(k.Registry()) ==> f < PAGE_COUNT
  {
  }

  lemma MapsMore(k: PageTables, layout: Layout, before: Tree, registry: seq<nat>, created: seq<nat>, pages: set<nat>, page: nat)
    requires k.tableCount <= k.tablePages.Length && k.Intact() && Managed(page)
    requires MapsIdentically(before, layout, pages) && before.tables.Keys == {ROOT} + Spine(pages)
    requires Registers(registry, before.tables) && registry != [] && registry[0] == k.root
    requires k.Registry() == registry + created && NoDuplicates(k.Registry())
    requires k.tree.leaves == before.leaves[page := Identity(layout, page)]
    requires k.tree.tables.Keys == before.tables.Keys + Spine({page})
    requires k.tree.tables.Values == before.tables.Values + Frames(created)
    ensures Maps(k, layout, pages + {page}, pages + {page})
  {
    hide PageTables.Intact, Stored, Shaped, NoDuplicates, Registers, Frames, Spine;
    RegistersGrow(registry, created, before.tables, k.tree.tables);
    SpineOfUnion(pages, {page});
  }

  /** `map_boot_ram` */
  method MapBootRam(k: PageTables, layout: Layout, info: BootInfo, ghost held: set<nat>, ghost free: nat) returns (ok: bool)
    requires OnlyTables(k, held, free) && Maps(k, layout, {}, {})
    requires info.Readable() && WellFormedMap(info.Map())
    modifies k`ram, k`tree, k`cache, k`tableCount, k.tablePages, k.pmm`freePages, k.pmm`cursor, k.pmm.inUse
    ensures OnlyTables(k, held, free) && k.pmm.Eligible() == old(k.pmm.Eligible())
    ensures ok ==> Maps(k, layout, RamPages(info.Map()), RamPages(info.Map()))
    ensures ok <==> AllWriteBack(info.Map()) && Needed(RamPages(info.Map())) <= free
    ensures Spares(old(k.ram), k.ram, k.pmm.Eligible() - held)
  {
    hide OnlyTables, Maps, Needed, AllWriteBack, RamPages, DescriptorPages, InManagedRange, ValidDescriptor, Spares;
    ghost var writable := k.pmm.Eligible() - held;
    SparesNothing(k.ram, writable);
    ghost var ds := info.Map();
    RamOfNothing();
    assert ds[..0] == [];
    NeedsMet(k, layout, {}, held, free);
    for i := 0 to info.Count()
      invariant OnlyTables(k, held, free) && k.pmm.Eligible() == old(k.pmm.Eligible())
      invariant Maps(k, layout, RamPages(ds[..i]), RamPages(ds[..i]))
      invariant AllWriteBack(ds[..i]) && Needed(RamPages(ds[..i])) <= free
      invariant Spares(old(k.ram), k.ram, writable)
    {
      ghost var between := k.ram;
      var d := info.descriptors[i];
      NextDescriptor(ds, i);
      if !d.Ram() { continue; }
      ok := MapDescriptor(k, layout, d, RamPages(ds[..i]), held, free);
      SparesBoth(old(k.ram), between, k.ram, writable, writable, writable);
      if !ok { return; }
    }
    assert ds[..info.Count()] == ds;
    ok := true;
  }

  /** What one more descriptor adds. */
  lemma NextDescriptor(ds: seq<Descriptor>, i: nat)
    requires i < |ds| && WellFormedMap(ds)
    ensures ValidDescriptor(ds[i])
    ensures RamPages(ds[..i + 1]) == RamPages(ds[..i]) + DescriptorPages(ds[i])
    ensures Needed(RamPages(ds[..i + 1])) <= Needed(RamPages(ds))
    ensures AllWriteBack(ds[..i + 1])
       <==> AllWriteBack(ds[..i]) && (ds[i].Ram() && InManagedRange(ds[i]) ==> ds[i].writeBack)
    ensures AllWriteBack(ds) ==> AllWriteBack(ds[..i + 1])
    ensures !ds[i].Ram() ==> RamPages(ds[..i + 1]) == RamPages(ds[..i])
  {
    hide Needed;
    assert ds[..i + 1] == ds[..i] + [ds[i]];
    ExtendRam(ds[..i], ds[i]);
    RamOfPrefix(ds, i + 1);
    NeededMonotone(RamPages(ds[..i + 1]), RamPages(ds));
    assert AllWriteBack(ds[..i + 1]) ==> AllWriteBack(ds[..i]) by {
      assert forall j :: 0 <= j < i ==> ds[..i + 1][j] == ds[..i][j];
    }
    assert ds[..i + 1][i] == ds[i];
  }

  lemma RamOfNothing()
    ensures RamPages([]) == {} && AllWriteBack([])
  {
  }

  /** The part of `map_boot_ram` that handles one RAM descriptor. */
  method MapDescriptor(k: PageTables, layout: Layout, d: Descriptor, ghost pages: set<nat>, ghost held: set<nat>, ghost free: nat)
    returns (ok: bool)
    requires OnlyTables(k, held, free) && Maps(k, layout, pages, pages) && Needed(pages) <= free
    requires ValidDescriptor(d) && d.Ram()
    modifies k`ram, k`tree, k`cache, k`tableCount, k.tablePages, k.pmm`freePages, k.pmm`cursor, k.pmm.inUse
    ensures OnlyTables(k, held, free) && k.pmm.Eligible() == old(k.pmm.Eligible())
    ensures ok ==> Maps(k, layout, pages + DescriptorPages(d), pages + DescriptorPages(d))
    ensures ok ==> (InManagedRange(d) ==> d.writeBack) && Needed(pages + DescriptorPages(d)) <= free
    ensures !ok ==> (InManagedRange(d) && !d.writeBack) || Needed(pages + DescriptorPages(d)) > free
    ensures Spares(old(k.ram), k.ram, k.pmm.Eligible() - held)
  {
    hide OnlyTables, Maps, Needed, PageRange, Between, DescriptorPages, Spares;
    SparesNothing(k.ram, k.pmm.Eligible() - held);
    EndDoesNotWrap(d);
    var begin, end := d.start, Wrap(d.start + Wrap(d.pages * PAGE_SIZE));
    if begin < LOW_LIMIT { begin := LOW_LIMIT; }
    if end > PMM_LIMIT { end := PMM_LIMIT; }
    ClippedRam(d, begin, end);
    if begin >= end {
      assert pages + DescriptorPages(d) == pages;
      return true;
    }
    if !d.writeBack { return false; }
    ok := MapPages(k, layout, begin / PAGE_SIZE, end / PAGE_SIZE, DescriptorPages(d), pages, held, free);
  }

  /** The loop over the pages of one descriptor. */
  method MapPages(k: PageTables, layout: Layout, first: nat, last: nat, ghost wanted: set<nat>,
                  ghost pages: set<nat>, ghost held: set<nat>, ghost free: nat) returns (ok: bool)
    requires OnlyTables(k, held, free) && Maps(k, layout, pages, pages) && Needed(pages) <= free && first <= last
    requires forall p: nat :: Between(p, first, last) <==> p in wanted
    requires forall p :: p in wanted ==> Managed(p)
    modifies k`ram, k`tree, k`cache, k`tableCount, k.tablePages, k.pmm`freePages, k.pmm`cursor, k.pmm.inUse
    ensures OnlyTables(k, held, free) && k.pmm.Eligible() == old(k.pmm.Eligible())
    ensures ok ==> Maps(k, layout, pages + wanted, pages + wanted) && Needed(pages + wanted) <= free
    ensures !ok ==> Needed(pages + wanted) > free
    ensures Spares(old(k.ram), k.ram, k.pmm.Eligible() - held)
  {
    hide OnlyTables, Maps, Needed, PageRange, Between, Spares;
    ghost var writable := k.pmm.Eligible() - held;
    SparesNothing(k.ram, writable);
    var page := first;
    ghost var done := {};
    NothingYet(first);
    assert pages + done == pages;
    while page < last
      invariant first <= page <= last && done == PageRange(first, page)
      invariant OnlyTables(k, held, free) && k.pmm.Eligible() == old(k.pmm.Eligible())
      invariant Maps(k, layout, pages + done, pages + done) && Needed(pages + done) <= free
      invariant Spares(old(k.ram), k.ram, writable)
    {
      ghost var between := k.ram;
      RangeSoFar(wanted, first, last, page, pages, done);
      NeededMonotone(pages + done + {page}, pages + wanted);
      ok := MapIdentityPage(k, layout, page, pages + done, held, free);
      SparesBoth(old(k.ram), between, k.ram, writable, writable, writable);
      if !ok { return; }
      NeedsMet(k, layout, pages + done + {page}, held, free);
      done := done + {page};
      page := page + 1;
    }
    WholeRange(wanted, first, last);
    ok := true;
  }

  lemma NothingYet(page: nat)
    ensures PageRange(page, page) == {}
  {
  }

  lemma WholeRange(wanted: set<nat>, first: nat, last: nat)
    requires forall p: nat :: Between(p, first, last) <==> p in wanted
    requires forall p :: p in wanted ==> Managed(p)
    ensures PageRange(first, last) == wanted
  {
  }

  lemma RangeSoFar(wanted: set<nat>, first: nat, last: nat, page: nat, pages: set<nat>, done: set<nat>)
    requires first <= page < last && done == PageRange(first, page)
    requires forall p: nat :: Between(p, first, last) <==> p in wanted
    requires forall p :: p in wanted ==> Managed(p)
    ensures Managed(page) && done + {page} == PageRange(first, page + 1)
    ensures pages + done + {page} == pages + (done + {page}) <= pages + wanted
  {
    assert Between(page, first, last);
    forall p | p in PageRange(first, page + 1)
      ensures p in wanted
    {
      assert Between(p, first, last);
    }
  }

  lemma NeedsMet(k: PageTables, layout: Layout, pages: set<nat>, held: set<nat>, free: nat)
    requires OnlyTables(k, held, free) && Maps(k, layout, pages, pages)
    ensures Needed(pages) <= free
  {
    FromHere(k, held, free);
    RegisteredSize(k.Registry(), k.tree);
    IdentityTablesAreBoot(pages);
    DisjointSum({ROOT}, Spine(pages));
    assert |k.tree.tables| == |k.tree.tables.Keys|;
  }

  lemma ClippedRam(d: Descriptor, begin: nat, end: nat)
    requires ValidDescriptor(d) && d.Ram()
    requires begin == (if d.start < LOW_LIMIT then LOW_LIMIT else d.start)
    requires end == (if d.End() > PMM_LIMIT then PMM_LIMIT else d.End())
    ensures begin % PAGE_SIZE == 0 && end % PAGE_SIZE == 0
    ensures begin >= end ==> DescriptorPages(d) == {} && !InManagedRange(d)
    ensures begin < end ==> InManagedRange(d)
    ensures forall p: nat :: Between(p, begin / PAGE_SIZE, end / PAGE_SIZE) <==> p in DescriptorPages(d)
    ensures forall p :: p in DescriptorPages(d) ==> Managed(p)
  {
    ClippedPages(d, begin, end);
  }

  lemma MappedPage(k: PageTables, layout: Layout, all: set<nat>, pages: set<nat>, page: nat)
    requires k.tableCount <= k.tablePages.Length && Maps(k, layout, all, pages) && page < PAGE_COUNT
    ensures k.Intact() && page < VIRTUAL_PAGES && (page in k.tree.leaves <==> page in pages)
    ensures page in pages ==> At(page, 3) in k.tree.tables && k.tree.tables[At(page, 3)] < PAGE_COUNT == |k.ram|
    ensures page in pages ==> page % 512 < ENTRIES && k.ram[k.tree.tables[At(page, 3)]][page % 512].frame == page
  {
    hide PageTables.Intact, Maps, Registers, Spine, At;
    MapsParts(k, layout, all, pages);
    IntactSize(k);
    if page in pages { IdentityEntry(k, page); }
  }

  lemma IntactSize(k: PageTables)
    requires k.Intact()
    ensures |k.ram| == PAGE_COUNT
  {
  }

  lemma IdentityEntry(k: PageTables, page: nat)
    requires k.Intact() && page < PAGE_COUNT && page in k.tree.leaves && k.tree.leaves[page].frame == page
    ensures At(page, 3) in k.tree.tables && k.tree.tables[At(page, 3)] < PAGE_COUNT && page % 512 < ENTRIES
    ensures k.ram[k.tree.tables[At(page, 3)]][page % 512].frame == page
  {
    hide PageTables.Intact, At;
    PageAddress(page);
    k.LeafEntry(page * PAGE_SIZE, page);
  }

  /** `mapped_range` */
  method MappedRange(k: PageTables, base: u64, size: u64, ghost layout: Layout, ghost all: set<nat>, ghost pages: set<nat>)
    returns (b: bool)
    requires k.tableCount <= k.tablePages.Length && Maps(k, layout, all, pages)
    ensures b <==> RangeMapped(pages, base, size)
  {
    hide PageTables.Intact, Maps, At, Touches, CoveredBelow;
    if size == 0 || base < LOW_LIMIT || base >= PMM_LIMIT || size > PMM_LIMIT - base { return false; }
    // The address in the loop is `page * PAGE_SIZE`; its first value is `base & ~4095`.
    var page, end := base / PAGE_SIZE, Wrap(base + size);
    CoverageStart(pages, base, size);
    while page * PAGE_SIZE < end
      invariant end == base + size && base / PAGE_SIZE <= page <= PAGE_COUNT
      invariant CoveredBelow(pages, base, size, page)
    {
      CoverageStep(pages, base, size, page);
      MappedPage(k, layout, all, pages, page);
      PageAddress(page);
      var address := page * PAGE_SIZE;
      var path := k.Path(address, page);
      b := path.Some?;
      if b {
        k.LeafEntry(address, page);
        b := FrameOf(k.ram[path.value[3]][IndexOf(address, 3)]) == page;
      }
      if !b { return; }
      page := page + 1;
    }
    CoverageEnd(pages, base, size, page);
    b := true;
  }

  /** The pages below `limit` that the range touches are mapped. */
  ghost predicate CoveredBelow(pages: set<nat>, base: nat, size: nat, limit: nat) {
    forall p :: 0 <= p < limit && Touches(base, size, p) ==> p in pages
  }

  lemma CoverageStart(pages: set<nat>, base: nat, size: nat)
    ensures CoveredBelow(pages, base, size, base / PAGE_SIZE)
  {
  }

  lemma CoverageStep(pages: set<nat>, base: nat, size: nat, page: nat)
    requires base / PAGE_SIZE <= page && page * PAGE_SIZE < base + size <= PMM_LIMIT
    requires CoveredBelow(pages, base, size, page)
    ensures page < PAGE_COUNT && Touches(base, size, page)
    ensures page in pages ==> CoveredBelow(pages, base, size, page + 1)
  {
  }

  lemma CoverageEnd(pages: set<nat>, base: nat, size: nat, page: nat)
    requires base + size <= page * PAGE_SIZE && CoveredBelow(pages, base, size, page)
    ensures forall p :: 0 <= p < PAGE_COUNT && Touches(base, size, p) ==> p in pages
  {
  }

  /** `required_regions_mapped`: the tables themselves always are. */
  method RequiredRegionsMapped(k: PageTables, info: BootInfo, ghost layout: Layout, ghost pages: set<nat>) returns (b: bool)
    requires k.tableCount <= k.tablePages.Length && Maps(k, layout, pages, pages)
    requires forall f :: f in k.Registry() ==> f in pages
    ensures b <==> RegionsMapped(pages, info)
  {
    hide RangeMapped;
    b := MappedRange(k, info.kernelBase, info.kernelSize, layout, pages, pages);
    if !b { return; }
    b := MappedRange(k, info.stackBase, info.stackSize, layout, pages, pages);
    if !b { return; }
    b := MappedRange(k, info.address, BOOT_INFO_SIZE, layout, pages, pages);
    if !b { return; }
    b := MappedRange(k, info.memoryMap, info.memoryMapSize, layout, pages, pages);
    if !b { return; }
    for i := 0 to k.tableCount
      invariant b
    {
      assert k.tablePages[i] == k.Registry()[i] && k.tablePages[i] in pages;
      FramePage(k, layout, pages, k.tablePages[i]);
      b := MappedRange(k, k.tablePages[i] * PAGE_SIZE, PAGE_SIZE, layout, pages, pages);
    }
  }

  lemma FramePage(k: PageTables, layout: Layout, pages: set<nat>, frame: nat)
    requires k.tableCount <= k.tablePages.Length && Maps(k, layout, pages, pages) && frame in pages
    ensures Managed(frame) && RangeMapped(pages, frame * PAGE_SIZE, PAGE_SIZE)
  {
    hide Maps, PageTables.Intact, Registers, Spine;
    MapsParts(k, layout, pages, pages);
    AlignedRange(pages, frame * PAGE_SIZE);
  }

  /** `table[...] = 0` for a guard page, before CR3 points here. */
  method EraseIdentity(k: PageTables, table: nat, address: u64, page: nat)
    requires !k.active && k.Intact() && page < VIRTUAL_PAGES && page == PageOf(address)
    requires At(page, 3) in k.tree.tables && table == k.tree.tables[At(page, 3)]
    modifies k`ram, k`tree
    ensures k.Intact() && k.tree == old(k.tree).(leaves := old(k.tree).leaves - {page})
    ensures table in k.tree.tables.Values && Spares(old(k.ram), k.ram, {table})
  {
    hide Stored, Shaped, At;
    LeafTable(k.ram, k.tree, page);
    ClearLeaf(k.ram, k.tree, page);
    k.ram := Write(k.ram, table, IndexOf(address, 3), ZERO);
    k.tree := k.tree.(leaves := k.tree.leaves - {page});
  }

  /** `unmap_stack_guards` */
  method UnmapStackGuards(k: PageTables, info: BootInfo, layout: Layout, ghost all: set<nat>) returns (ok: bool)
    requires !k.active && k.tableCount <= k.tablePages.Length && Maps(k, layout, all, all)
    modifies k`ram, k`tree
    ensures ok <==> Unguarded(all, Guards(info, layout)).Some?
    ensures ok ==> Maps(k, layout, all, Unguarded(all, Guards(info, layout)).value)
    ensures Spares(old(k.ram), k.ram, old(k.tree.tables.Values))
  {
    hide PageTables.Intact, Maps, RangeMapped, MapsIdentically, Registers, Spine, Stored, At, Spares;
    ghost var tables := k.tree.tables;
    SparesNothing(k.ram, tables.Values);
    var guards := Guards(info, layout);
    ghost var pages := all;
    for i := 0 to 4
      invariant Maps(k, layout, all, pages)
      invariant Unguarded(all, guards) == Unguarded(pages, guards[i..])
      invariant k.tree.tables == tables && Spares(old(k.ram), k.ram, tables.Values)
    {
      assert guards[i..][0] == guards[i] && guards[i..][1..] == guards[i + 1..];
      ok := MappedRange(k, guards[i], PAGE_SIZE, layout, all, pages);
      if !ok { return; }
      var page := guards[i] / PAGE_SIZE;
      GuardIsMapped(pages, guards[i]);
      MapsParts(k, layout, all, pages);
      MappedPage(k, layout, all, pages, page);
      GuardPage(guards[i]);
      var path := k.Path(guards[i], page);
      ghost var before, between := k.tree, k.ram;
      EraseIdentity(k, path.value[3], guards[i], page);
      SparesBoth(old(k.ram), between, k.ram, tables.Values, {path.value[3]}, tables.Values);
      MapsLess(k, layout, all, pages, before, page);
      pages := pages - {page};
    }
    assert guards[4..] == [];
    ok := true;
  }

  lemma GuardPage(guard: u64)
    requires guard / PAGE_SIZE < PAGE_COUNT
    ensures PageOf(guard) == guard / PAGE_SIZE
  {
  }

  lemma GuardIsMapped(pages: set<nat>, guard: nat)
    requires RangeMapped(pages, guard, PAGE_SIZE)
    ensures guard / PAGE_SIZE < PAGE_COUNT && guard / PAGE_SIZE in pages
  {
    assert Touches(guard, PAGE_SIZE, guard / PAGE_SIZE);
  }

  lemma MapsLess(k: PageTables, layout: Layout, all: set<nat>, pages: set<nat>, before: Tree, page: nat)
    requires k.tableCount <= k.tablePages.Length && k.Intact() && pages <= all
    requires MapsIdentically(before, layout, pages) && before.tables.Keys == {ROOT} + Spine(all)
    requires Registers(k.Registry(), before.tables) && k.Registry() != [] && k.Registry()[0] == k.root
    requires k.tree == before.(leaves := before.leaves - {page})
    ensures Maps(k, layout, all, pages - {page})
  {
    hide PageTables.Intact, Registers, Spine;
  }

  lemma MapsParts(k: PageTables, layout: Layout, all: set<nat>, pages: set<nat>)
    requires k.tableCount <= k.tablePages.Length && Maps(k, layout, all, pages)
    ensures k.Intact() && pages <= all
    ensures MapsIdentically(k.tree, layout, pages) && k.tree.tables.Keys == {ROOT} + Spine(all)
    ensures Registers(k.Registry(), k.tree.tables) && k.Registry() != [] && k.Registry()[0] == k.root
  {
  }

  // ---------------------------------------------------------------- paging_init

  /** Exactly when `paging_init` succeeds, on a memory map that `pmm_init` accepted. */
  ghost predicate CanStart(info: BootInfo, layout: Layout, free: nat)
    requires info.Readable()
  {
    var pages := RamPages(info.Map());
    && AllWriteBack(info.Map())
    && Needed(pages) <= free
    && RegionsMapped(pages, info)
    && Unguarded(pages, Guards(info, layout)).Some?
  }

  /** Under the hand-off contract the order of the guards does not matter: they only have to be mapped. */
  lemma CanStartExactly(info: BootInfo, layout: Layout, free: nat)
    requires info.Readable() && WellFormedMap(info.Map()) && HandOff(info, layout)
    ensures var pages := RamPages(info.Map());
      CanStart(info, layout, free) <==>
        (&& AllWriteBack(info.Map()) && Needed(pages) <= free
         && RegionsMapped(pages, info) && GuardPages(Guards(info, layout)) <= pages)
  {
    hide HandOff, WellFormedMap, RamPages, Guards, GuardPages, Unguarded, RegionsMapped, AllWriteBack, Needed;
    GuardsFit(info, layout);
  }

  /** The identity map that `paging_init` leaves behind, in the running state. */
  ghost predicate Started(k: PageTables, info: BootInfo, layout: Layout)
    reads k, k.tablePages, k.pmm, k.pmm.eligible, k.pmm.inUse
    requires info.Readable()
    ensures Started(k, info, layout) ==> k.tableCount <= k.tablePages.Length
  {
    && k.active && k.pmm.Valid() && k.Storage() && k.Intact()
    && Registers(k.Registry(), k.tree.tables) && k.tree.tables.Values <= k.pmm.Allocated()
    && k.Registry() != [] && k.Registry()[0] == k.root
    && k.tree.tables.Keys == {ROOT} + Spine(RamPages(info.Map())) == k.boot
    && MapsIdentically(k.tree, layout, RamPages(info.Map()) - GuardPages(Guards(info, layout)))
  }

  /** `activate_page_tables`: loads CR3 with every inherited translation dropped. */
  method Activate(k: PageTables, info: BootInfo, layout: Layout, ghost held: set<nat>, ghost free: nat, ghost pages: set<nat>)
    requires info.Readable() && OnlyTables(k, held, free) && Maps(k, layout, RamPages(info.Map()), pages)
    requires pages == RamPages(info.Map()) - GuardPages(Guards(info, layout))
    modifies k`cache, k`active, k`boot
    ensures Started(k, info, layout) && k.pmm.Allocated() - k.tree.tables.Values == held
  {
    hide MapsIdentically, Registers, Stored, Shaped, Spine, PageAllocator.Valid, RamPages, GuardPages, Guards, NoDuplicates;
    k.cache := {};
    k.boot := k.tree.tables.Keys;
    k.active := true;
    TablesHeld(k.Registry(), k.tree.tables);
  }

  lemma TablesHeld(registry: seq<nat>, tables: map<Pos, nat>)
    requires Registers(registry, tables)
    ensures tables.Values == Frames(registry)
  {
  }

  /** The three steps of `paging_init` between the root table and CR3. */
  method BuildIdentity(k: PageTables, info: BootInfo, layout: Layout, ghost held: set<nat>, ghost free: nat) returns (ok: bool)
    requires OnlyTables(k, held, free) && Maps(k, layout, {}, {})
    requires info.Readable() && WellFormedMap(info.Map()) && k.pmm.Eligible() == UsablePages(info)
    modifies k`ram, k`tree, k`cache, k`tableCount, k.tablePages, k.pmm`freePages, k.pmm`cursor, k.pmm.inUse
    ensures OnlyTables(k, held, free) && k.pmm.Eligible() == old(k.pmm.Eligible())
    ensures ok <==> CanStart(info, layout, free)
    ensures ok ==> Maps(k, layout, RamPages(info.Map()), Unguarded(RamPages(info.Map()), Guards(info, layout)).value)
    ensures Spares(old(k.ram), k.ram, k.pmm.Eligible() - held)
  {
    hide OnlyTables, Maps, Needed, AllWriteBack, RamPages, RegionsMapped, Unguarded, Guards, GuardPages, PageAllocator.Valid, Spares;
    ghost var all := RamPages(info.Map());
    ok := MapBootRam(k, layout, info, held, free);
    if !ok { return; }
    TablesAreRam(k, info, layout, held, free);
    ok := RequiredRegionsMapped(k, info, layout, all);
    if !ok { return; }
    TableFramesFree(k, layout, all, held, free);
    ghost var between, tables := k.ram, k.tree.tables.Values;
    ok := UnmapStackGuards(k, info, layout, all);
    SparesBoth(old(k.ram), between, k.ram, k.pmm.Eligible() - held, tables, k.pmm.Eligible() - held);
  }

  lemma TableFramesFree(k: PageTables, layout: Layout, pages: set<nat>, held: set<nat>, free: nat)
    requires OnlyTables(k, held, free) && Maps(k, layout, pages, pages)
    ensures k.tree.tables.Values <= k.pmm.Eligible() - held
  {
    hide PageTables.Intact, MapsIdentically;
    assert k.Registry() == k.Registry() + [];
    WrittenIsFree(k, k.Registry(), [], held, free);
    MapsParts(k, layout, pages, pages);
    TablesHeld(k.Registry(), k.tree.tables);
  }

  /** `paging_init` */
  method Init(k: PageTables, boot: Option<BootInfo>, layout: Layout, cpuSupported: bool) returns (ok: bool)
    requires k.pmm.Valid() && k.Storage() && (k.active || k.tableCount == 0)
    requires boot.Some? && k.pmm.ready ==>
      boot.value.Readable() && WellFormedMap(boot.value.Map()) && k.pmm.Eligible() == UsablePages(boot.value)
    modifies k`ram, k`tree, k`cache, k`root, k`tableCount, k`active, k`boot
    modifies k.tablePages, k.pmm`freePages, k.pmm`cursor, k.pmm.inUse
    ensures k.pmm.Valid() && k.pmm.Eligible() == old(k.pmm.Eligible())
    ensures ok <==> boot.Some? && old(!k.active && k.pmm.totalPages > 0) && cpuSupported
                    && CanStart(boot.value, layout, old(k.pmm.freePages))
    ensures ok ==> Started(k, boot.value, layout)
    ensures ok ==> k.pmm.Allocated() - k.tree.tables.Values == old(k.pmm.Allocated())
    ensures !ok ==> k.active == old(k.active) && k.tableCount == old(k.tableCount)
    ensures Spares(old(k.ram), k.ram, old(k.pmm.Eligible() - k.pmm.Allocated()))
    ensures !ok ==> k.pmm.Allocated() == old(k.pmm.Allocated()) && k.pmm.freePages == old(k.pmm.freePages)
  {
    hide OnlyTables, Maps, CanStart, RamPages, Unguarded, Guards, GuardPages, Started, PageAllocator.Valid, UsablePages, WellFormedMap;
    hide PageAllocator.Allocated, PageAllocator.Eligible, Spares;
    SparesNothing(k.ram, k.pmm.Eligible() - k.pmm.Allocated());
    if k.active || boot.None? || k.pmm.totalPages == 0 || !cpuSupported { return false; }
    k.pmm.TotalMeansReady();
    var info := boot.value;
    ghost var held, free, all := k.pmm.Allocated(), k.pmm.freePages, RamPages(info.Map());
    RootNeeded(info, layout);
    ok := Start(k, layout);
    if !ok { return; }
    ghost var ram0, between, writable := old(k.ram), k.ram, k.pmm.Eligible() - held;
    ok := BuildIdentity(k, info, layout, held, free);
    SparesBoth(ram0, between, k.ram, writable, writable, writable);
    if !ok {
      Discard(k, held, free);
      return;
    }
    GuardsGone(info, layout, free);
    Activate(k, info, layout, held, free, all - GuardPages(Guards(info, layout)));
  }

  lemma RootNeeded(info: BootInfo, layout: Layout)
    requires info.Readable()
    ensures !CanStart(info, layout, 0)
  {
  }

  lemma GuardsGone(info: BootInfo, layout: Layout, free: nat)
    requires info.Readable() && CanStart(info, layout, free)
    ensures var all := RamPages(info.Map());
      Unguarded(all, Guards(info, layout)) == Some(all - GuardPages(Guards(info, layout)))
  {
    UnguardedPages(RamPages(info.Map()), Guards(info, layout));
  }

  lemma TablesAreRam(k: PageTables, info: BootInfo, layout: Layout, held: set<nat>, free: nat)
    requires OnlyTables(k, held, free) && info.Readable() && k.pmm.Eligible() == UsablePages(info)
    ensures forall f :: f in k.Registry() ==> f in RamPages(info.Map())
  {
    UsableIsRam(info);
    k.pmm.EligibleManaged();
    assert forall f :: f in k.Registry() ==> f in Frames(k.Registry());
  }

  // ---------------------------------------------------------------- what a successful start guarantees

  lemma NoWindowPages(t: Tree, layout: Layout, pages: set<nat>)
    requires MapsIdentically(t, layout, pages)
    ensures WindowPages(t) == {} && Spine({}) == {} && forall held :: LeavesOwned(t, held)
  {
  }

  lemma PlainRam(t: Tree, info: BootInfo, layout: Layout)
    requires info.Readable() && WellFormedMap(info.Map()) && HandOff(info, layout)
    requires MapsIdentically(t, layout, RamPages(info.Map()) - GuardPages(Guards(info, layout)))
    ensures SelfSupporting(t, UsablePages(info))
  {
    hide HandOff, Guards;
    forall f | f in UsablePages(info)
      ensures f in t.leaves && t.leaves[f] == Translation(f, true, false)
    {
      UsablePagesArePlain(info, layout, f);
    }
  }

  /**
    Given the hand-off contract, the started machine satisfies the invariant that every
    dynamic operation keeps. In particular it supports itself: every frame the allocator
    can ever return is mapped to itself, writable and not executable.
  */
  lemma StartedIsValid(k: PageTables, info: BootInfo, layout: Layout)
    requires info.Readable() && WellFormedMap(info.Map()) && HandOff(info, layout)
    requires Started(k, info, layout) && k.pmm.Eligible() == UsablePages(info)
    ensures k.Valid()
  {
    hide PageTables.Intact, Registers, HandOff, UsablePages, Guards, GuardPages, PageAllocator.Valid, MapsIdentically;
    hide LeavesOwned, SelfSupporting, BootTables;
    var all := RamPages(info.Map());
    NoWindowPages(k.tree, layout, all - GuardPages(Guards(info, layout)));
    PlainRam(k.tree, info, layout);
    IdentityTablesAreBoot(all);
    assert k.tree.tables.Keys == k.boot + Spine(WindowPages(k.tree));
  }

  /**
    What the processor finds for any page once paging has started: the mapped pages, each
    at its own address, code to be read and executed, constants to be read, all else to be
    read and written. Nothing is both writable and executable.
  */
  lemma StartedTranslations(k: PageTables, info: BootInfo, layout: Layout, v: nat)
    requires info.Readable() && Started(k, info, layout) && v < VIRTUAL_PAGES
    ensures var mapped := RamPages(info.Map()) - GuardPages(Guards(info, layout)); var found := Walk(k.ram, k.root, v, 4);
      var text := layout.textStart <= v * 4096 < layout.textEnd; var rodata := layout.rodataStart <= v * 4096 < layout.rodataEnd;
      && (v !in mapped ==> found == None)
      && (v in mapped && text ==> found == Some(Translation(v, false, true)))
      && (v in mapped && !text && rodata ==> found == Some(Translation(v, false, false)))
      && (v in mapped && !text && !rodata ==> found == Some(Translation(v, true, false)))
  {
    hide PageAllocator.Valid, Registers, Spine, RamPages, GuardPages, Guards, Stored, Shaped, Walk;
    WalkFollowsTree(k.ram, k.tree, v, 4);
    AtEnds(v);
  }

  /**
    Which pages are mapped: those between 1 MiB and 4 GiB that loader code, loader data or
    conventional memory covers, without the four guards.
  */
  lemma StartedPages(k: PageTables, info: BootInfo, layout: Layout, v: nat)
    requires info.Readable() && WellFormedMap(info.Map()) && HandOff(info, layout)
    requires Started(k, info, layout) && v < VIRTUAL_PAGES
    ensures Walk(k.ram, k.root, v, 4).Some? <==>
      && 0x100 <= v < 0x10_0000
      && (exists i :: 0 <= i < |info.Map()| && info.Map()[i].kind in {1, 2, 7} && !info.Map()[i].runtime
                      && Describes(info.Map()[i], v * 4096))
      && v * 4096 != info.stackBase - 4096 && v * 4096 != info.stackBase + info.stackSize
      && v * 4096 != layout.guardLow && v * 4096 != layout.guardHigh
  {
    hide Started, Walk, RamPages, Guards, GuardPages, LinkerLayout, WellFormedMap, LoaderLayout;
    StartedTranslations(k, info, layout, v);
    RamMeaning(info.Map(), v);
    GuardAddresses(info, layout, v);
  }

  /** After the guards are gone, everything the kernel stands on is still mapped. */
  lemma StartedKeepsRegions(k: PageTables, info: BootInfo, layout: Layout, free: nat)
    requires info.Readable() && WellFormedMap(info.Map()) && HandOff(info, layout)
    requires Started(k, info, layout) && k.pmm.Eligible() == UsablePages(info) && CanStart(info, layout, free)
    ensures RangeMapped(k.tree.leaves.Keys, info.stackBase, info.stackSize)
    ensures RangeMapped(k.tree.leaves.Keys, info.address, BOOT_INFO_SIZE)
    ensures RangeMapped(k.tree.leaves.Keys, info.memoryMap, info.memoryMapSize)
    ensures forall f :: f in k.Registry() ==> f in k.tree.leaves && k.tree.leaves[f] == Translation(f, true, false)
    ensures forall g :: g in GuardPages(Guards(info, layout)) ==> g !in k.tree.leaves
  {
    hide PageTables.Intact, HandOff, UsablePages, Guards, GuardPages, PageAllocator.Valid, RangeMapped, NoDuplicates;
    RegionsSurvive(info, layout, RamPages(info.Map()));
    PlainRam(k.tree, info, layout);
    k.pmm.EligibleManaged();
  }
}
