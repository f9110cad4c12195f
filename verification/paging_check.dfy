/** The boot-time check of the page-table manager (kernel/paging_check.c), as a client program. */
module PagingCheck {
  import opened Bits
  import opened BootInformation
  import opened PhysicalPages
  import opened RadixTree
  import opened Entries
  import opened TableRegistry
  import opened Accounting
  import opened Paging
  import opened Clients

  // ---------------------------------------------------------------- a list through held pages

  /** The address of the page held last, or the zero that ends the list. */
  function Head(pages: seq<nat>): nat {
    if pages == [] then 0 else pages[|pages| - 1] * PAGE_SIZE
  }

  /** Each held page starts with the address of the one held before it. */
  ghost predicate Chained(ram: Ram, pages: seq<nat>) {
    forall i :: 0 <= i < |pages| ==> 0 < pages[i] < PAGE_COUNT && ram[pages[i]][0] == Decode(Head(pages[..i]))
  }

  lemma ChainGrows(ram: Ram, pages: seq<nat>, page: nat)
    requires Chained(ram, pages) && 0 < page < PAGE_COUNT && page !in Frames(pages)
    ensures Chained(Write(ram, page, 0, Decode(Head(pages))), pages + [page])
  {
    var more := pages + [page];
    forall i | 0 <= i < |more|
      ensures 0 < more[i] < PAGE_COUNT && Write(ram, page, 0, Decode(Head(pages)))[more[i]][0] == Decode(Head(more[..i]))
    {
      assert more[..i] == pages[..i];
      if i < |pages| { assert pages[i] in Frames(pages); } else { assert pages[..i] == pages; }
    }
  }

  /** Following the list one step gives the page held before. */
  lemma ChainStep(ram: Ram, pages: seq<nat>)
    requires Chained(ram, pages)
    ensures Head(pages) == 0 <==> pages == []
    ensures pages != [] ==> var n := |pages| - 1;
      0 < pages[n] < PAGE_COUNT && Encode(ram[pages[n]][0]) == Head(pages[..n]) && Chained(ram, pages[..n])
  {
    if pages != [] {
      var n := |pages| - 1;
      assert ram[pages[n]][0] == Decode(Head(pages[..n]));
      assert Head(pages[..n]) < PMM_LIMIT by {
        if n > 0 { assert pages[n - 1] < PAGE_COUNT; }
      }
      EncodeDecode(Head(pages[..n]));
      assert forall i :: 0 <= i < n ==> pages[..n][..i] == pages[..i];
    }
  }

  lemma ChainKept(ram: Ram, ram': Ram, pages: seq<nat>, kept: set<nat>)
    requires Chained(ram, pages) && Keeps(ram, ram', kept) && Frames(pages) <= kept
    ensures Chained(ram', pages)
  {
    assert forall i :: 0 <= i < |pages| ==> pages[i] in Frames(pages);
  }

  // ---------------------------------------------------------------- check_failed_map_cleanup

  /** Page `p` and the listed pages have been taken on top of `held`. */
  ghost predicate Hoard(taken: set<nat>, held: set<nat>, p: nat, pages: seq<nat>) {
    && taken == held + {p} + Frames(pages)
    && p !in held && held + {p} !! Frames(pages) && NoDuplicates(pages)
  }

  lemma HoardGrows(taken: set<nat>, held: set<nat>, p: nat, pages: seq<nat>, page: nat)
    requires Hoard(taken, held, p, pages) && page !in taken
    ensures Hoard(taken + {page}, held, p, pages + [page]) && page !in Frames(pages)
  {
    hide NoDuplicates, Frames;
    FramesGrow(pages, page);
    NewestNoDuplicates(pages, page, Frames(pages));
  }

  lemma HoardShrinks(taken: set<nat>, held: set<nat>, p: nat, pages: seq<nat>)
    requires Hoard(taken, held, p, pages) && pages != []
    ensures var n := |pages| - 1; pages[n] in taken - held && Hoard(taken - {pages[n]}, held, p, pages[..n])
  {
    WithoutNewest(pages);
    assert pages[|pages| - 1] in Frames(pages);
  }

  /** While nothing is mapped, the listed pages are held and chained. */
  ghost predicate Hoarding(k: PageTables, tree: Tree, eligible: set<nat>, held: set<nat>, free: nat, p: nat, pages: seq<nat>)
    reads k, k.tablePages, k.pmm, k.pmm.eligible, k.pmm.inUse
    ensures Hoarding(k, tree, eligible, held, free, p, pages) ==> k.Valid()
  {
    && k.Valid() && !k.interruptsEnabled && k.tree == tree && k.pmm.Eligible() == eligible
    && Hoard(k.pmm.Allocated(), held, p, pages)
    && k.pmm.freePages + 1 + |pages| == free
    && Chained(k.ram, pages)
  }

  lemma OpenHoarding(k: PageTables, tree: Tree, eligible: set<nat>, held: set<nat>, free: nat, p: nat, pages: seq<nat>)
    requires Hoarding(k, tree, eligible, held, free, p, pages)
    ensures k.Valid() && !k.interruptsEnabled && k.tree == tree && k.pmm.Eligible() == eligible
    ensures Hoard(k.pmm.Allocated(), held, p, pages) && k.pmm.freePages + 1 + |pages| == free && Chained(k.ram, pages)
  {
    hide PageTables.Valid, PageAllocator.Valid, Chained, Hoard;
  }

  lemma CloseHoarding(k: PageTables, tree: Tree, eligible: set<nat>, held: set<nat>, free: nat, p: nat, pages: seq<nat>)
    requires k.Valid() && !k.interruptsEnabled && k.tree == tree && k.pmm.Eligible() == eligible
    requires Hoard(k.pmm.Allocated(), held, p, pages) && k.pmm.freePages + 1 + |pages| == free && Chained(k.ram, pages)
    ensures Hoarding(k, tree, eligible, held, free, p, pages)
  {
    hide PageTables.Valid, PageAllocator.Valid, Chained, Hoard;
  }

  /** One more page for the list: allocate it, and store the list so far in its first word. */
  method TakeAndLink(k: PageTables, head: nat, ghost tree: Tree, ghost eligible: set<nat>, ghost held: set<nat>, ghost free: nat,
                     ghost p: nat, ghost pages: seq<nat>) returns (q: nat)
    requires Hoarding(k, tree, eligible, held, free, p, pages) && k.pmm.freePages > 0 && head == Head(pages)
    modifies k`ram, k`cache, k.pmm`freePages, k.pmm`cursor, k.pmm.inUse
    ensures Hoarding(k, tree, eligible, held, free, p, pages + [q]) && k.pmm.freePages == old(k.pmm.freePages) - 1
    ensures Spares(old(k.ram), k.ram, {q}) && q in eligible && q !in old(k.pmm.Allocated())
  {
    hide PageTables.Valid, PageTables.ClientFrames, PageAllocator.Valid, PageAllocator.Allocated, PageAllocator.Eligible;
    hide Hoarding, Chained, Hoard, Head, Decode, Spares, Lowest, Frames;
    ghost var taken := k.pmm.Allocated();
    OpenHoarding(k, tree, eligible, held, free, p, pages);
    BooksAgree(k);
    var r := AllocPage(k);
    q := r.value;
    BooksAgree(k);
    SelfMapped(k, q);
    HoardGrows(taken, held, p, pages, q);
    var stored := Store(k, q, 0, Decode(head));
    ChainGrows(old(k.ram), pages, q);
    CloseHoarding(k, tree, eligible, held, free, p, pages + [q]);
    OnlyFirstWord(old(k.ram), q, 0, Decode(head));
  }

  lemma OnlyFirstWord(ram: Ram, page: nat, index: nat, word: Word)
    requires page < PAGE_COUNT && index < ENTRIES
    ensures Spares(ram, Write(ram, page, index, word), {page})
  {
  }

  /** The head of the list: load the next address, and free the page. */
  method FollowAndFree(k: PageTables, head: nat, ghost tree: Tree, ghost eligible: set<nat>, ghost held: set<nat>, ghost free: nat,
                       ghost p: nat, ghost pages: seq<nat>) returns (freed: bool, next: nat)
    requires Hoarding(k, tree, eligible, held, free, p, pages) && pages != [] && head == Head(pages)
    requires tree.tables.Values <= held && WindowPages(tree) == {}
    modifies k`cache, k.pmm`freePages, k.pmm`cursor, k.pmm.inUse
    ensures freed && next == Head(pages[..|pages| - 1])
    ensures Hoarding(k, tree, eligible, held, free, p, pages[..|pages| - 1])
  {
    hide PageTables.Valid, PageAllocator.Valid, Chained, Hoard, PageTables.ClientFrames;
    ghost var last := pages[|pages| - 1];
    ChainStep(k.ram, pages);
    assert head == last * PAGE_SIZE && head / PAGE_SIZE == last && head < PMM_LIMIT;
    HoardShrinks(k.pmm.Allocated(), held, p, pages);
    BooksAgree(k);
    SelfMapped(k, last);
    NothingAliased(tree, last);
    var word := Load(k, head / PAGE_SIZE, 0);
    next := Encode(word.value);
    freed := FreePage(k, head);
  }

  lemma NothingAliased(tree: Tree, frame: nat)
    requires WindowPages(tree) == {}
    ensures Unaliased(tree, frame)
  {
    assert forall v :: v in tree.leaves && InWindow(v) ==> v in WindowPages(tree);
  }

  /** The first loop: holds every free page but two. */
  method HoardPages(k: PageTables, ghost tree: Tree, ghost eligible: set<nat>, ghost held: set<nat>, ghost free: nat, ghost p: nat)
    returns (head: nat, ghost pages: seq<nat>)
    requires Hoarding(k, tree, eligible, held, free, p, [])
    modifies k`ram, k`cache, k.pmm`freePages, k.pmm`cursor, k.pmm.inUse
    ensures Hoarding(k, tree, eligible, held, free, p, pages) && head == Head(pages)
    ensures k.pmm.freePages == (if old(k.pmm.freePages) > 2 then 2 else old(k.pmm.freePages))
    ensures Keeps(old(k.ram), k.ram, held)
  {
    hide Hoarding, PageTables.Valid, PageAllocator.Valid, Keeps, Spares;
    head, pages := 0, [];
    KeepsItself(k.ram, held);
    while k.pmm.freePages > 2
      invariant Hoarding(k, tree, eligible, held, free, p, pages) && head == Head(pages)
      invariant k.pmm.freePages >= 2 || k.pmm.freePages == old(k.pmm.freePages)
      invariant old(k.pmm.freePages) <= 2 ==> k.pmm.freePages == old(k.pmm.freePages)
      invariant Keeps(old(k.ram), k.ram, held)
      decreases k.pmm.freePages
    {
      ghost var between := k.ram;
      HoardIsApart(k, tree, eligible, held, free, p, pages);
      var q := TakeAndLink(k, head, tree, eligible, held, free, p, pages);
      SparesKeeps(between, k.ram, {q}, held);
      KeptTwice(old(k.ram), between, k.ram, held);
      head, pages := q * PAGE_SIZE, pages + [q];
    }
  }

  lemma HoardIsApart(k: PageTables, tree: Tree, eligible: set<nat>, held: set<nat>, free: nat, p: nat, pages: seq<nat>)
    requires Hoarding(k, tree, eligible, held, free, p, pages)
    ensures held <= k.pmm.Allocated() && k.Valid()
  {
    hide PageTables.Valid, PageAllocator.Valid, Chained;
  }

  /** The second loop: frees the held pages by following the list. */
  method FreeHoard(k: PageTables, held': nat, ghost tree: Tree, ghost eligible: set<nat>, ghost held: set<nat>, ghost free: nat,
                   ghost p: nat, ghost hoard: seq<nat>) returns (ok: bool)
    requires Hoarding(k, tree, eligible, held, free, p, hoard) && held' == Head(hoard)
    requires tree.tables.Values <= held && WindowPages(tree) == {}
    modifies k`cache, k.pmm`freePages, k.pmm`cursor, k.pmm.inUse
    ensures ok && Hoarding(k, tree, eligible, held, free, p, [])
  {
    hide Hoarding, PageTables.Valid, PageAllocator.Valid, Chained, Head;
    var head := held';
    ghost var pages := hoard;
    ok := true;
    HeadEnds(k, tree, eligible, held, free, p, pages);
    while head != 0
      invariant Hoarding(k, tree, eligible, held, free, p, pages) && head == Head(pages) && ok
      invariant head == 0 <==> pages == []
      decreases |pages|
    {
      ok, head := FollowAndFree(k, head, tree, eligible, held, free, p, pages);
      pages := pages[..|pages| - 1];
      HeadEnds(k, tree, eligible, held, free, p, pages);
    }
  }

  lemma HeadEnds(k: PageTables, tree: Tree, eligible: set<nat>, held: set<nat>, free: nat, p: nat, pages: seq<nat>)
    requires Hoarding(k, tree, eligible, held, free, p, pages)
    ensures Head(pages) == 0 <==> pages == []
  {
    hide PageTables.Valid, PageAllocator.Valid;
    ChainStep(k.ram, pages);
  }

  /** On an empty window every path lacks all three of its tables, and there is room to list them. */
  lemma EmptyWindow(k: PageTables, v: nat)
    requires k.Valid() && WindowPages(k.tree) == {} && |k.boot| <= 2054 && v < VIRTUAL_PAGES && InWindow(v)
    ensures k.HasRoom(v) <==> k.pmm.freePages >= 3
    ensures v !in k.tree.leaves
  {
    hide PageTables.Valid, PageAllocator.Valid;
    BooksAgree(k);
    ExactAccounting(k);
    WindowPathIsNotBoot(k.boot, v);
    assert v !in WindowPages(k.tree);
    assert Spine({}) == {};
    NothingBuilt(k.tree.tables, k.boot, v);
  }

  lemma NothingBuilt(tables: map<Pos, nat>, boot: set<Pos>, v: nat)
    requires tables.Keys == boot && boot !! Spine({v})
    ensures Missing(tables, v, 3) == 3
  {
    SpineOfOne(v);
    assert Missing(tables, v, 1) == 1;
    assert Missing(tables, v, 2) == 2;
  }

  lemma MayMap(k: PageTables, p: nat, tree: Tree, eligible: set<nat>, held: set<nat>, free: nat, pages: seq<nat>)
    requires Hoarding(k, tree, eligible, held, free, p, pages) && tree.tables.Values <= held
    ensures p * PAGE_SIZE < PMM_LIMIT && k.Acceptable(DYNAMIC_BASE, p * PAGE_SIZE, 1)
    ensures k.DynamicAddress(DYNAMIC_BASE)
  {
    hide Hoarding, PageTables.Valid, PageAllocator.Valid, Chained, Hoard, Missing, PageTables.ClientFrames, PageTables.Acceptable;
    hide PageAllocator.Allocated, PageAllocator.Eligible;
    OpenHoarding(k, tree, eligible, held, free, p, pages);
    BooksAgree(k);
    HoardFrames(k.pmm.Allocated(), held, p, pages);
    SelfMapped(k, p);
    FirstWindowPage(k, p);
  }

  lemma FirstWindowPage(k: PageTables, p: nat)
    requires k.Valid() && !k.interruptsEnabled && p in k.ClientFrames() && p < PAGE_COUNT
    ensures k.Acceptable(DYNAMIC_BASE, p * PAGE_SIZE, 1) && k.DynamicAddress(DYNAMIC_BASE)
  {
    hide PageAllocator.Valid, PageTables.ClientFrames, PageTables.Valid, PageTables.Intact, Booked, Balanced, Stored, Shaped;
    k.OpenValid();
    assert p * PAGE_SIZE % PAGE_SIZE == 0 && p * PAGE_SIZE / PAGE_SIZE == p;
  }

  /** With at most two pages left the path cannot be built, and the attempt leaves no trace. */
  method FailToMap(k: PageTables, p: nat, ghost tree: Tree, ghost eligible: set<nat>, ghost held: set<nat>, ghost free: nat,
                   ghost pages: seq<nat>) returns (mapped: bool, found: bool)
    requires Hoarding(k, tree, eligible, held, free, p, pages) && tree.tables.Values <= held && p * PAGE_SIZE < PMM_LIMIT
    requires WindowPages(tree) == {} && |k.boot| <= 2054 && k.pmm.freePages <= 2
    modifies k`ram, k`tree, k`cache, k`tableCount, k.tablePages, k.pmm`freePages, k.pmm`cursor, k.pmm.inUse
    ensures !mapped && !found
    ensures Hoarding(k, tree, eligible, held, free, p, pages) && k.pmm.freePages == old(k.pmm.freePages)
    ensures Keeps(old(k.ram), k.ram, held)
  {
    hide Hoarding, PageTables.Valid, PageAllocator.Valid, Chained, Hoard, Keeps, PageTables.HasRoom;
    hide PageTables.ClientFrames, PageTables.Acceptable, Missing, TablesStay;
    ghost var ram0, taken := k.ram, k.pmm.Allocated();
    OpenHoarding(k, tree, eligible, held, free, p, pages);
    HoardIsApart(k, tree, eligible, held, free, p, pages);
    MayMap(k, p, tree, eligible, held, free, pages);
    WindowPage(DYNAMIC_BASE);
    EmptyWindow(k, PageOf(DYNAMIC_BASE));
    mapped := k.Map(DYNAMIC_BASE, p * PAGE_SIZE, 1);
    HoardFrames(taken, held, p, pages);
    ChainKept(ram0, k.ram, pages, taken);
    KeepsFewer(ram0, k.ram, taken, held);
    CloseHoarding(k, tree, eligible, held, free, p, pages);
    var entry := k.Query(DYNAMIC_BASE);
    found := entry.Some?;
  }

  lemma HoardFrames(taken: set<nat>, held: set<nat>, p: nat, pages: seq<nat>)
    requires Hoard(taken, held, p, pages)
    ensures Frames(pages) <= taken && p in taken && p !in held
  {
  }

  /** The frame taken first is the start of a hoard. */
  lemma StartHoard(k: PageTables, tree: Tree, eligible: set<nat>, held: set<nat>, free: nat, p: nat)
    requires k.Valid() && !k.interruptsEnabled && k.tree == tree && k.pmm.Eligible() == eligible
    requires k.pmm.Allocated() == held + {p} && p !in held && k.pmm.freePages + 1 == free
    ensures Hoarding(k, tree, eligible, held, free, p, [])
  {
    hide PageTables.Valid, PageAllocator.Valid;
    assert Frames([]) == {};
  }

  lemma EndHoard(k: PageTables, tree: Tree, eligible: set<nat>, held: set<nat>, free: nat, p: nat)
    requires Hoarding(k, tree, eligible, held, free, p, [])
    ensures k.Valid() && !k.interruptsEnabled && k.tree == tree && k.pmm.Eligible() == eligible
    ensures k.pmm.Allocated() == held + {p} && p !in held && k.pmm.freePages + 1 == free
  {
    hide PageTables.Valid, PageAllocator.Valid;
    assert Frames([]) == {};
  }

  lemma Arguments(p: nat)
    requires p * PAGE_SIZE < PMM_LIMIT
    ensures 0 <= DYNAMIC_BASE < 0x1_0000_0000_0000_0000 && 0 <= p * PAGE_SIZE < 0x1_0000_0000_0000_0000
    ensures DYNAMIC_BASE - DYNAMIC_BASE < DYNAMIC_SIZE
    ensures PAGE_SIZE > 0 && p * PAGE_SIZE % PAGE_SIZE == 0 && p * PAGE_SIZE / PAGE_SIZE == p
  {
    assert p * PAGE_SIZE / PAGE_SIZE == p;
  }

  /** The last part of `check_failed_map_cleanup`: map, unmap, and give the first page back. */
  method MapAndGiveBack(k: PageTables, p: nat, ghost tree: Tree, ghost eligible: set<nat>, ghost held: set<nat>, free: nat)
    returns (ok: bool)
    requires Hoarding(k, tree, eligible, held, free, p, []) && tree.tables.Values <= held && p * PAGE_SIZE < PMM_LIMIT
    requires WindowPages(tree) == {} && |k.boot| <= 2054
    modifies k`ram, k`tree, k`cache, k`tableCount, k.tablePages, k.pmm`freePages, k.pmm`cursor, k.pmm.inUse
    ensures k.Valid() && k.pmm.Eligible() == eligible && k.tree == tree
    ensures ok <==> free >= 4
    ensures ok ==> k.pmm.Allocated() == held && k.pmm.freePages == free
    ensures Keeps(old(k.ram), k.ram, held - tree.tables.Values)
  {
    hide *;
    Arguments(p);
    EndHoard(k, tree, eligible, held, free, p);
    MayMap(k, p, tree, eligible, held, free, []);
    WindowPage(DYNAMIC_BASE);
    EmptyWindow(k, PageOf(DYNAMIC_BASE));
    BooksAgree(k);
    var mapped, unmapped := MapThenUnmap(k, DYNAMIC_BASE, p * PAGE_SIZE, 1);
    KeepsFewer(old(k.ram), k.ram, old(k.ClientFrames()), held - tree.tables.Values);
    if !mapped { return false; }
    NothingAliased(tree, p);
    BooksAgree(k);
    var freed := FreePage(k, p * PAGE_SIZE);
    assert held + {p} - {p} == held;
    ok := unmapped && freed && k.pmm.freePages == free;
  }

  lemma HoardedPage(k: PageTables, p: nat, tree: Tree, eligible: set<nat>, held: set<nat>, free: nat, pages: seq<nat>)
    requires Hoarding(k, tree, eligible, held, free, p, pages) && tree.tables.Values <= held
    ensures k.Valid() && k.tree == tree && k.pmm.Eligible() == eligible && p * PAGE_SIZE < PMM_LIMIT
    ensures k.pmm.freePages + 1 + |pages| == free
  {
    hide Hoarding, PageTables.Valid, PageAllocator.Valid, Chained, Hoard;
    OpenHoarding(k, tree, eligible, held, free, p, pages);
    MayMap(k, p, tree, eligible, held, free, pages);
  }

  /** Both loops, and between them the attempt that has to fail. */
  method HoardAndFail(k: PageTables, p: nat, ghost tree: Tree, ghost eligible: set<nat>, ghost held: set<nat>, ghost free: nat)
    returns (enough: bool, ok: bool)
    requires Hoarding(k, tree, eligible, held, free, p, []) && tree.tables.Values <= held
    requires WindowPages(tree) == {} && |k.boot| <= 2054
    modifies k`ram, k`tree, k`cache, k`tableCount, k.tablePages, k.pmm`freePages, k.pmm`cursor, k.pmm.inUse
    ensures enough <==> free >= 3
    ensures k.Valid() && k.tree == tree && k.pmm.Eligible() == eligible
    ensures enough ==> ok && Hoarding(k, tree, eligible, held, free, p, []) && p * PAGE_SIZE < PMM_LIMIT
    ensures Keeps(old(k.ram), k.ram, held)
  {
    hide Hoarding, PageTables.Valid, PageAllocator.Valid, PageAllocator.Eligible, Keeps, PageTables.ClientFrames, Chained, Head;
    EndHoard(k, tree, eligible, held, free, p);
    var head;
    ghost var pages;
    head, pages := HoardPages(k, tree, eligible, held, free, p);
    ghost var ram1 := k.ram;
    HoardedPage(k, p, tree, eligible, held, free, pages);
    var mapped, found := FailToMap(k, p, tree, eligible, held, free, pages);
    KeptTwice(old(k.ram), ram1, k.ram, held);
    enough, ok := k.pmm.freePages == 2, false;
    HoardedPage(k, p, tree, eligible, held, free, pages);
    if !enough { return; }
    var freed := FreeHoard(k, head, tree, eligible, held, free, p, pages);
    HoardedPage(k, p, tree, eligible, held, free, []);
    ok := !mapped && !found && freed;
  }

  /**
    `check_failed_map_cleanup` on an empty window: it succeeds exactly when four pages are
    free, and then leaves tree, allocator and all held memory as they were. The list
    through the held pages survives the failed map. Checks that cannot fail are conjuncts
    of the result here, where the C code returns early.
  */
  method CheckFailedMapCleanup(k: PageTables) returns (ok: bool)
    requires k.Valid() && !k.interruptsEnabled && WindowPages(k.tree) == {} && |k.boot| <= 2054
    modifies k`ram, k`tree, k`cache, k`tableCount, k.tablePages, k.pmm`freePages, k.pmm`cursor, k.pmm.inUse
    ensures k.Valid() && k.pmm.Eligible() == old(k.pmm.Eligible()) && k.tree == old(k.tree)
    ensures ok <==> old(k.pmm.freePages) >= 4
    ensures ok ==> k.pmm.Allocated() == old(k.pmm.Allocated()) && k.pmm.freePages == old(k.pmm.freePages)
    ensures Keeps(old(k.ram), k.ram, old(k.ClientFrames()))
  {
    hide Hoarding, PageTables.Valid, PageAllocator.Valid, Keeps, PageTables.ClientFrames, Lowest;
    ghost var tree, eligible, held, client, ram0 := k.tree, k.pmm.Eligible(), k.pmm.Allocated(), k.ClientFrames(), k.ram;
    var before := k.pmm.freePages;
    BooksAgree(k);
    KeepsItself(ram0, client);
    var r := AllocPage(k);
    if r.None? { return false; }
    var p := r.value;
    StartHoard(k, tree, eligible, held, before, p);
    var enough, freed := HoardAndFail(k, p, tree, eligible, held, before);
    KeepsFewer(ram0, k.ram, held, client);
    if !enough { return false; }
    ghost var ram1 := k.ram;
    ok := MapAndGiveBack(k, p, tree, eligible, held, before);
    KeptTwice(ram0, ram1, k.ram, client);
    ok := ok && freed;
  }
}
