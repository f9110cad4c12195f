/**
  What a client of the two memory managers sees: allocation under the client contract of
  kernel/paging.h, and loads and stores that go through the processor's caches.
*/
module Clients {
  import opened Bits
  import opened BootInformation
  import opened PhysicalPages
  import opened RadixTree
  import opened Entries
  import opened TableRegistry
  import opened TranslationCache
  import opened Accounting
  import opened Paging

  /** No window page maps the frame. */
  ghost predicate Unaliased(t: Tree, frame: nat) {
    forall v :: v in t.leaves && InWindow(v) ==> t.leaves[v].frame != frame
  }

  lemma MoreHeld(t: Tree, boot: set<Pos>, root: nat, registry: seq<nat>, held: set<nat>, eligible: set<nat>, frame: nat)
    requires Consistent(t, boot, root, registry, held, eligible)
    ensures Consistent(t, boot, root, registry, held + {frame}, eligible)
  {
  }

  lemma FewerHeld(t: Tree, boot: set<Pos>, root: nat, registry: seq<nat>, held: set<nat>, eligible: set<nat>, frame: nat)
    requires Consistent(t, boot, root, registry, held, eligible)
    requires frame !in t.tables.Values && Unaliased(t, frame)
    ensures Consistent(t, boot, root, registry, held - {frame}, eligible)
  {
  }

  /** Exact accounting of frames: every managed page is free, a client's, or a registered table. */
  lemma ExactAccounting(k: PageTables)
    requires k.Valid()
    ensures k.pmm.freePages + |k.ClientFrames()| + k.tableCount == |k.pmm.Eligible()|
    ensures var pages := WindowPages(k.tree);
      k.tableCount == |k.boot| + (if pages == {} then 0 else 1) + |Distinct(pages, 0x4_0000)| + |Distinct(pages, 0x200)|
    ensures k.tableCount == |k.boot| + |Spine(WindowPages(k.tree))|
  {
    hide NoDuplicates;
    k.OpenValid();
    k.RegistryLength();
    RegisteredSize(k.Registry(), k.tree);
    InjectiveSize(k.tree.tables);
    SubsetSize(k.tree.tables.Values, k.pmm.Allocated());
    assert |k.pmm.Allocated() - k.tree.tables.Values| == |k.pmm.Allocated()| - |k.tree.tables.Values|;
    SubsetSize(k.pmm.Allocated(), k.pmm.Eligible());
    TableCount(k.tree, k.boot);
    SpineSize(WindowPages(k.tree));
    OneDirectory(WindowPages(k.tree));
  }

  /** `pmm_alloc` by a client. */
  method AllocPage(k: PageTables) returns (r: Option<nat>)
    requires k.Valid()
    modifies k.pmm`freePages, k.pmm`cursor, k.pmm.inUse
    ensures k.Valid() && k.pmm.Eligible() == old(k.pmm.Eligible())
    ensures r.None? <==> old(k.pmm.freePages) == 0
    ensures r.None? ==> k.ClientFrames() == old(k.ClientFrames()) && k.pmm.freePages == old(k.pmm.freePages)
    ensures r.Some? ==> Lowest(r.value, old(k.pmm.Eligible() - k.pmm.Allocated())) && Managed(r.value)
    ensures r.Some? ==> r.value !in old(k.pmm.Allocated()) && k.pmm.Allocated() == old(k.pmm.Allocated()) + {r.value}
    ensures r.Some? ==> k.ClientFrames() == old(k.ClientFrames()) + {r.value} && k.pmm.freePages == old(k.pmm.freePages) - 1
  {
    hide PageTables.Intact, Consistent, Booked, Balanced;
    k.OpenValid();
    TablesAllocated(k);
    SubsetSize(k.pmm.Allocated(), k.pmm.Eligible());
    r := k.pmm.Alloc();
    if r.Some? {
      MoreHeld(k.tree, k.boot, k.root, k.Registry(), old(k.pmm.Allocated()), k.pmm.Eligible(), r.value);
    }
  }

  lemma TablesAllocated(k: PageTables)
    requires k.Valid()
    ensures k.tree.tables.Values <= k.pmm.Allocated()
  {
  }

  /** `pmm_free` by a client that keeps the contract: never a table, never a frame still mapped. */
  method FreePage(k: PageTables, address: u64) returns (ok: bool)
    requires k.Valid()
    requires address % PAGE_SIZE == 0 && address / PAGE_SIZE in k.pmm.Allocated() ==>
      address / PAGE_SIZE !in k.tree.tables.Values && Unaliased(k.tree, address / PAGE_SIZE)
    modifies k.pmm`freePages, k.pmm`cursor, k.pmm.inUse
    ensures k.Valid() && k.pmm.Eligible() == old(k.pmm.Eligible())
    ensures ok <==> address % PAGE_SIZE == 0 && address / PAGE_SIZE in old(k.ClientFrames())
    ensures ok ==> k.pmm.Allocated() == old(k.pmm.Allocated()) - {address / PAGE_SIZE}
    ensures ok ==> k.ClientFrames() == old(k.ClientFrames()) - {address / PAGE_SIZE}
    ensures ok ==> k.pmm.freePages == old(k.pmm.freePages) + 1
    ensures !ok ==> k.pmm.Allocated() == old(k.pmm.Allocated()) && k.pmm.freePages == old(k.pmm.freePages)
  {
    hide PageTables.Intact, Consistent, Booked, Balanced;
    ok := k.pmm.Free(address);
    if ok {
      FewerHeld(k.tree, k.boot, k.root, k.Registry(), old(k.pmm.Allocated()), k.pmm.Eligible(), address / PAGE_SIZE);
    }
  }

  /**
    How the processor translates a page: any cached translation will do, or else a walk.
    Coherence makes the outcome unique.
  */
  method Translate(k: PageTables, v: nat) returns (t: Option<Translation>)
    requires k.Valid() && v < VIRTUAL_PAGES
    modifies k`cache
    ensures k.Valid()
    ensures t == if v in k.tree.leaves then Some(k.tree.leaves[v]) else None
  {
    hide PageAllocator.Valid, PageAllocator.Allocated, PageAllocator.Eligible, Stored, Shaped, Walk;
    hide Booked, Balanced, PageTables.Storage;
    k.Settle();
    var hit: Cached := *;
    if hit in k.cache && hit.pos == Pos(4, v) {
      assert Agrees(hit, k.tree);
      t := Some(hit.to);
    } else {
      WalkFollowsTree(k.ram, k.tree, v, 4);
      AtEnds(v);
      t := Walk(k.ram, k.root, v, 4);
    }
  }

  /** A 64-bit load; `None` is a page fault. */
  method Load(k: PageTables, v: nat, index: nat) returns (r: Option<Word>)
    requires k.Valid() && v < VIRTUAL_PAGES && index < ENTRIES
    modifies k`cache
    ensures k.Valid()
    ensures if v in k.tree.leaves then k.tree.leaves[v].frame < PAGE_COUNT && r == Some(k.ram[k.tree.leaves[v].frame][index])
            else r == None
  {
    hide Stored, Consistent, Coherent, PageAllocator.Valid, PageAllocator.Allocated, PageAllocator.Eligible;
    var t := Translate(k, v);
    if t.None? { return None; }
    LeafFrame(k, v);
    r := Some(k.ram[t.value.frame][index]);
  }

  /** An instruction fetch; `None` is a page fault. */
  method Fetch(k: PageTables, v: nat, index: nat) returns (r: Option<Word>)
    requires k.Valid() && v < VIRTUAL_PAGES && index < ENTRIES
    modifies k`cache
    ensures k.Valid()
    ensures if v in k.tree.leaves && k.tree.leaves[v].exec
            then k.tree.leaves[v].frame < PAGE_COUNT && r == Some(k.ram[k.tree.leaves[v].frame][index])
            else r == None
  {
    hide Stored, Consistent, Coherent, PageAllocator.Valid, PageAllocator.Allocated, PageAllocator.Eligible;
    var t := Translate(k, v);
    if t.None? || !t.value.exec { return None; }
    LeafFrame(k, v);
    r := Some(k.ram[t.value.frame][index]);
  }

  /** A 64-bit store to memory that holds no page table; `false` is a page fault. */
  method Store(k: PageTables, v: nat, index: nat, word: Word) returns (ok: bool)
    requires k.Valid() && v < VIRTUAL_PAGES && index < ENTRIES
    requires v in k.tree.leaves && k.tree.leaves[v].write ==> k.tree.leaves[v].frame !in k.tree.tables.Values
    modifies k`cache, k`ram
    ensures k.Valid()
    ensures ok <==> v in k.tree.leaves && k.tree.leaves[v].write
    ensures ok ==> k.tree.leaves[v].frame < PAGE_COUNT && k.ram == Write(old(k.ram), k.tree.leaves[v].frame, index, word)
    ensures !ok ==> k.ram == old(k.ram)
  {
    hide Stored, Shaped, Consistent, Coherent, PageAllocator.Valid, PageAllocator.Allocated, PageAllocator.Eligible;
    hide PageTables.Storage, PageTables.Live, Write, Spares;
    var t := Translate(k, v);
    if t.None? || !t.value.write { return false; }
    LeafFrame(k, v);
    WriteSpares(k.ram, t.value.frame, index, word);
    OtherTables(k.ram, Write(k.ram, t.value.frame, index, word), k.tree, t.value.frame);
    k.ram := Write(k.ram, t.value.frame, index, word);
    ok := true;
  }

  lemma LeafFrame(k: PageTables, v: nat)
    requires k.Valid() && v in k.tree.leaves
    ensures Stored(k.ram, k.tree) && k.tree.leaves[v].frame < PAGE_COUNT
  {
    hide Coherent, Consistent, PageAllocator.Valid;
  }

  lemma WriteSpares(ram: Ram, frame: nat, index: nat, word: Word)
    requires frame < PAGE_COUNT && index < ENTRIES
    ensures Spares(ram, Write(ram, frame, index, word), {frame})
  {
  }

  /** Every frame that `pmm_alloc` can return can be read and written at its own address. */
  lemma SelfMapped(k: PageTables, frame: nat)
    requires k.Valid() && frame in k.pmm.Eligible()
    ensures Managed(frame) && frame < VIRTUAL_PAGES
    ensures frame in k.tree.leaves && k.tree.leaves[frame] == Translation(frame, true, false)
  {
    k.pmm.EligibleManaged();
  }

  /** The page tables lie in frames that are themselves mapped, writable: the kernel can always edit them. */
  lemma TablesReachable(k: PageTables, c: Pos)
    requires k.Valid() && c in k.tree.tables
    ensures k.tree.tables[c] in k.tree.leaves
    ensures k.tree.leaves[k.tree.tables[c]] == Translation(k.tree.tables[c], true, false)
  {
    hide PageTables.Valid;
    BooksAgree(k);
    assert k.tree.tables[c] in k.tree.tables.Values;
    SelfMapped(k, k.tree.tables[c]);
  }

  // ---------------------------------------------------------------- map, then unmap

  /** The same pages mapped in the window need the same tables. */
  lemma SameBalance(t: Tree, t': Tree, boot: set<Pos>)
    requires Balanced(t, boot) && Balanced(t', boot) && t.leaves == t'.leaves
    ensures t.tables.Keys == t'.tables.Keys
  {
  }

  lemma BooksAgree(k: PageTables)
    requires k.Valid()
    ensures k.tree.tables.Values <= k.pmm.Allocated() <= k.pmm.Eligible() && Balanced(k.tree, k.boot)
    ensures k.ClientFrames() == k.pmm.Allocated() - k.tree.tables.Values
    ensures k.pmm.freePages + |k.pmm.Allocated()| == |k.pmm.Eligible()|
  {
    SubsetSize(k.pmm.Allocated(), k.pmm.Eligible());
  }

  lemma MapNeeds(k: PageTables, address: u64, physical: u64, flags: nat)
    requires k.Valid()
    ensures k.Acceptable(address, physical, flags) ==> k.DynamicAddress(address)
    ensures k.HasRoom(PageOf(address)) ==> PageOf(address) !in k.tree.leaves
  {
  }

  /** A tree that has lost the page and its new tables again is the tree it was. */
  lemma RestoredTree(t: Tree, before: Tree, between: Tree, boot: set<Pos>, v: nat, to: Translation)
    requires Balanced(before, boot) && Balanced(t, boot)
    requires v !in before.leaves && between.leaves == before.leaves[v := to] && t.leaves == between.leaves - {v}
    requires TablesStay(before.tables, between.tables) && TablesStay(t.tables, between.tables)
    ensures t == before
  {
    hide Balanced, TablesStay;
    assert before.leaves[v := to] - {v} == before.leaves;
    SameBalance(before, t, boot);
    SameTables(before.tables, t.tables, between.tables);
  }

  lemma RestoredBooks(held: set<nat>, tables: set<nat>, now: set<nat>, free: nat, freeNow: nat, size: nat)
    requires tables <= held && tables <= now && held - tables == now - tables
    requires free + |held| == size && freeNow + |now| == size
    ensures now == held && freeNow == free
  {
    assert held == (held - tables) + tables;
    assert now == (now - tables) + tables;
  }

  /** Unmapping undoes mapping: the same tables in the same frames, and every frame given back. */
  method MapThenUnmap(k: PageTables, address: u64, physical: u64, flags: nat) returns (mapped: bool, unmapped: bool)
    requires k.Valid()
    modifies k`ram, k`tree, k`cache, k`tableCount, k.tablePages, k.pmm`freePages, k.pmm`cursor, k.pmm.inUse
    ensures k.Valid() && k.pmm.Eligible() == old(k.pmm.Eligible())
    ensures mapped <==> old(k.Acceptable(address, physical, flags) && k.HasRoom(PageOf(address)))
    ensures unmapped == mapped
    ensures k.tree == old(k.tree) && k.pmm.Allocated() == old(k.pmm.Allocated()) && k.pmm.freePages == old(k.pmm.freePages)
    ensures Keeps(old(k.ram), k.ram, old(k.ClientFrames()))
  {
    hide *;
    ghost var before, client, held, free, ram0 := k.tree, k.ClientFrames(), k.pmm.Allocated(), k.pmm.freePages, k.ram;
    BooksAgree(k);
    MapNeeds(k, address, physical, flags);
    mapped := k.Map(address, physical, flags);
    unmapped := false;
    if mapped {
      ghost var between, ram1 := k.tree, k.ram;
      unmapped := k.Unmap(address);
      BooksAgree(k);
      RestoredTree(k.tree, before, between, k.boot, PageOf(address), Target(physical, flags));
      RestoredBooks(held, before.tables.Values, k.pmm.Allocated(), free, k.pmm.freePages, |k.pmm.Eligible()|);
      KeptTwice(ram0, ram1, k.ram, client);
    }
  }

  lemma KeptTwice(ram: Ram, ram': Ram, ram'': Ram, kept: set<nat>)
    requires Keeps(ram, ram', kept) && Keeps(ram', ram'', kept)
    ensures Keeps(ram, ram'', kept)
  {
  }
}
