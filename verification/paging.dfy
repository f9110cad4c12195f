/** The page-table manager (kernel/paging.c). */
module Paging {
  import opened Bits
  import opened BootInformation
  import opened PhysicalPages
  import opened RadixTree
  import opened Entries
  import opened TranslationCache
  import opened Accounting
  import opened MapPath
  import opened Pruning
  import opened TableRegistry

  const MAX_TABLES: nat := 4096
  const DYNAMIC_BASE: nat := 0xffff_8000_0000_0000
  const DYNAMIC_SIZE: nat := 0x80_0000_0000

  /** The translation that a call of `paging_map` or `paging_protect` asks for. */
  function Target(physical: u64, flags: nat): Translation {
    Translation(physical / PAGE_SIZE, flags % 2 == 1, flags / 2 == 1)
  }

  lemma WindowPage(address: u64)
    requires address >= DYNAMIC_BASE && address - DYNAMIC_BASE < DYNAMIC_SIZE
    ensures PageOf(address) < VIRTUAL_PAGES && InWindow(PageOf(address))
  {
    var q := (address - DYNAMIC_BASE) / PAGE_SIZE;
    assert q < 0x800_0000 && address / PAGE_SIZE == 0xffff * VIRTUAL_PAGES + (0x8_0000_0000 + q);
    assert PageOf(address) == 0x8_0000_0000 + q;
  }

  /** After `*link = 0` the only table that stale pointers can reach is the zeroed one. */
  lemma UnlinkedIsBlank(ram: Ram, t: Tree, c: Pos)
    requires Stored(ram, t) && c.level > 0 && c in t.tables && Blank(ram, t.tables[c])
    ensures Up(c) in t.tables && Up(c) != c && t.tables[Up(c)] < PAGE_COUNT && t.tables[Up(c)] in t.tables.Values
    ensures StaleTablesBlank(Write(ram, t.tables[Up(c)], Slot(c), ZERO), t, t.(tables := t.tables - {c}))
    ensures c != ROOT
  {
  }

  lemma ProtectedConsistent(t: Tree, v: nat, to: Translation, boot: set<Pos>, root: nat, registry: seq<nat>,
                            held: set<nat>, eligible: set<nat>)
    requires Consistent(t, boot, root, registry, held, eligible) && InWindow(v) && v in t.leaves
    requires to.frame == t.leaves[v].frame
    requires forall f :: f in eligible ==> Managed(f)
    ensures Consistent(t.(leaves := t.leaves[v := to]), boot, root, registry, held, eligible)
  {
    hide Registers, LeavesOwned, SelfSupporting, Spine;
    var t' := t.(leaves := t.leaves[v := to]);
    assert WindowPages(t') == WindowPages(t);
    ProtectedOwned(t, v, to, held);
    ProtectedSupporting(t, v, to, eligible);
  }

  lemma ProtectedOwned(t: Tree, v: nat, to: Translation, held: set<nat>)
    requires LeavesOwned(t, held) && v in t.leaves && to.frame == t.leaves[v].frame
    ensures LeavesOwned(t.(leaves := t.leaves[v := to]), held)
  {
  }

  lemma ProtectedSupporting(t: Tree, v: nat, to: Translation, eligible: set<nat>)
    requires SelfSupporting(t, eligible) && InWindow(v) && forall f :: f in eligible ==> Managed(f)
    ensures SelfSupporting(t.(leaves := t.leaves[v := to]), eligible)
  {
  }

  lemma DifferentLevels(v: nat, level: nat)
    ensures forall k :: 0 <= k < level ==> At(v, k) != At(v, level)
  {
  }

  lemma RegistryHas(t: Tree, c: Pos, root: nat, registry: seq<nat>, held: set<nat>, eligible: set<nat>)
    requires Booked(t, root, registry, held, eligible) && c in t.tables
    ensures NoDuplicates(registry) && t.tables[c] in registry && t.tables[c] in held
  {
    assert t.tables[c] in t.tables.Values;
  }

  lemma LeafTable(ram: Ram, t: Tree, v: nat)
    requires Stored(ram, t) && At(v, 3) in t.tables
    ensures t.tables[At(v, 3)] < PAGE_COUNT && t.tables[At(v, 3)] in t.tables.Values
  {
  }

  /** Changing one leaf leaves no stale table pointer behind. */
  lemma LeafChangeIsClean(ram: Ram, ram': Ram, cache: set<Cached>, t: Tree, v: nat, to: Translation)
    requires Stored(ram, t) && Coherent(cache, t) && At(v, 3) in t.tables
    ensures t.tables[At(v, 3)] < PAGE_COUNT
    ensures StaleTablesBlank(ram', t, t.(leaves := t.leaves[v := to]))
    ensures StaleTablesBlank(ram', t, t.(leaves := t.leaves - {v}))
    ensures Transitional(cache, t, t.(leaves := t.leaves[v := to]))
    ensures Transitional(cache, t, t.(leaves := t.leaves - {v}))
    ensures t.leaves - {v} == t.leaves[v := to] - {v}
    ensures t.leaves - {v} == (t.leaves - {v}) - {v}
  {
  }

  lemma OtherTables(ram: Ram, ram': Ram, t: Tree, frame: nat)
    requires Stored(ram, t) && Spares(ram, ram', {frame}) && frame !in t.tables.Values
    ensures Stored(ram', t)
  {
    forall p | p in t.tables
      ensures ram'[t.tables[p]] == ram[t.tables[p]]
    {
      assert t.tables[p] in t.tables.Values;
    }
    OtherFrames(ram, ram', t);
  }

  // ---------------------------------------------------------------- what leaves may say

  /** Window pages map frames that their client still holds; other pages map themselves. */
  ghost predicate LeavesOwned(t: Tree, held: set<nat>) {
    forall v :: v in t.leaves ==>
      if InWindow(v) then t.leaves[v].frame in held && t.leaves[v].frame !in t.tables.Values
      else v < PAGE_COUNT && t.leaves[v].frame == v
  }

  /** Every page the allocator manages is mapped to itself, writable and not executable. */
  ghost predicate SelfSupporting(t: Tree, eligible: set<nat>) {
    forall f :: f in eligible ==> f in t.leaves && t.leaves[f] == Translation(f, true, false)
  }

  /** Tree, registry and allocator agree about which frames are page tables and what is mapped. */
  ghost predicate Booked(t: Tree, root: nat, registry: seq<nat>, held: set<nat>, eligible: set<nat>) {
    && Registers(registry, t.tables) && t.tables.Values <= held
    && registry != [] && registry[0] == root
    && LeavesOwned(t, held)
    && SelfSupporting(t, eligible)
  }

  /** ... and there are no tables that nothing needs. */
  ghost predicate Consistent(t: Tree, boot: set<Pos>, root: nat, registry: seq<nat>, held: set<nat>, eligible: set<nat>) {
    Booked(t, root, registry, held, eligible) && Balanced(t, boot)
  }

  lemma WithoutLeafBooked(t: Tree, v: nat, root: nat, registry: seq<nat>, held: set<nat>, eligible: set<nat>)
    requires Booked(t, root, registry, held, eligible) && InWindow(v)
    requires forall f :: f in eligible ==> Managed(f)
    ensures Booked(t.(leaves := t.leaves - {v}), root, registry, held, eligible)
  {
    hide Registers;
  }

  /** Releasing an unlinked table keeps the books; the root stays at index 0. */
  lemma ReleasedBooked(t: Tree, c: Pos, root: nat, registry: seq<nat>, i: nat, held: set<nat>, eligible: set<nat>)
    requires Booked(t, root, registry, held, eligible) && Shaped(t)
    requires c in t.tables && c != ROOT && t.tables[ROOT] == root
    requires i < |registry| && registry[i] == t.tables[c]
    ensures Booked(t.(tables := t.tables - {c}), root, SwapRemove(registry, i), held - {t.tables[c]}, eligible)
    ensures held - {t.tables[c]} - (t.tables - {c}).Values == held - t.tables.Values
  {
    TablesLess(t, c);
    SwapRemoveDrops(registry, i);
    assert t.tables[c] != root;
    assert i != 0;
  }

  /** `t'` is `t` with one more window page and the tables that its path lacked. */
  ghost predicate AddsPage(t: Tree, t': Tree, v: nat, to: Translation, created: seq<nat>) {
    && InWindow(v) && v < VIRTUAL_PAGES
    && t'.leaves == t.leaves[v := to]
    && t'.tables.Keys == t.tables.Keys + Spine({v})
    && t'.tables.Values == t.tables.Values + Frames(created)
  }

  lemma AddedConsistent(t: Tree, t': Tree, v: nat, to: Translation, created: seq<nat>,
                        boot: set<Pos>, root: nat, registry: seq<nat>, held: set<nat>, eligible: set<nat>)
    requires Consistent(t, boot, root, registry, held, eligible)
    requires AddsPage(t, t', v, to, created) && to.frame in held && to.frame !in t.tables.Values
    requires NoDuplicates(registry + created) && held !! Frames(created)
    requires forall f :: f in eligible ==> Managed(f)
    ensures Consistent(t', boot, root, registry + created, held + Frames(created), eligible)
    ensures held + Frames(created) - t'.tables.Values == held - t.tables.Values
  {
    hide Registers, Balanced, LeavesOwned, SelfSupporting, NoDuplicates, Frames;
    RegistersGrow(registry, created, t.tables, t'.tables);
    AddedBalanced(t, t', v, to, created, boot);
    AddedOwned(t, t', v, to, created, held);
    AddedSupporting(t, t', v, to, created, eligible);
  }

  lemma AddedBalanced(t: Tree, t': Tree, v: nat, to: Translation, created: seq<nat>, boot: set<Pos>)
    requires AddsPage(t, t', v, to, created) && Balanced(t, boot)
    ensures Balanced(t', boot)
  {
    assert WindowPages(t') == WindowPages(t) + {v};
    SpineOfUnion(WindowPages(t), {v});
  }

  lemma AddedOwned(t: Tree, t': Tree, v: nat, to: Translation, created: seq<nat>, held: set<nat>)
    requires AddsPage(t, t', v, to, created) && LeavesOwned(t, held)
    requires to.frame in held && to.frame !in t.tables.Values && held !! Frames(created)
    ensures LeavesOwned(t', held + Frames(created))
  {
  }

  lemma AddedSupporting(t: Tree, t': Tree, v: nat, to: Translation, created: seq<nat>, eligible: set<nat>)
    requires AddsPage(t, t', v, to, created) && SelfSupporting(t, eligible)
    requires forall f :: f in eligible ==> Managed(f)
    ensures SelfSupporting(t', eligible)
  {
  }

  class PageTables {
    const pmm: PageAllocator
    /** `table_pages[]`; only the first `tableCount` elements mean anything. */
    const tablePages: array<nat>
    var tableCount: nat
    var root: nat
    var active: bool

    // The machine: physical memory, translation caches and the interrupt flag.
    var ram: Ram
    var cache: set<Cached>
    var interruptsEnabled: bool

    /** The tree that memory holds, and which of its tables belong to the identity half. */
    ghost var tree: Tree
    ghost var boot: set<Pos>

    ghost function Registry(): seq<nat>
      reads this`tableCount, tablePages
      requires tableCount <= tablePages.Length
    {
      tablePages[..tableCount]
    }

    /** Static storage, with memory and caches as the loader left them. */
    constructor (pmm: PageAllocator, ram: Ram, cache: set<Cached>)
      ensures this.pmm == pmm && this.ram == ram && fresh(tablePages)
      ensures Storage() && tableCount == 0 && !active && !interruptsEnabled
    {
      this.pmm := pmm;
      this.ram := ram;
      this.cache := cache;
      tablePages := new nat[MAX_TABLES](_ => 0);
      tableCount, root, active, interruptsEnabled := 0, 0, false, false;
    }

    // ---------------------------------------------------------------- invariants

    ghost predicate Storage()
      reads this`tableCount
    {
      && tablePages.Length == MAX_TABLES && tableCount <= MAX_TABLES
      && tablePages as object != pmm.eligible && tablePages as object != pmm.inUse
    }

    ghost predicate Valid()
      reads this, tablePages, pmm, pmm.eligible, pmm.inUse
      ensures Valid() ==> pmm.Valid() && Storage() && tableCount <= tablePages.Length
    {
      && active && pmm.Valid() && Storage() && Intact()
      && Consistent(tree, boot, root, Registry(), pmm.Allocated(), pmm.Eligible())
    }

    /** What the caches know of these tables; nothing before CR3 points to them. */
    ghost function Live(): set<Cached>
      reads this`active, this`cache
    {
      if active then cache else {}
    }

    /** The tree is what memory holds and what the caches know. */
    ghost predicate Intact()
      reads this`tree, this`ram, this`root, this`cache, this`active
    {
      Stored(ram, tree) && tree.tables[ROOT] == root && Coherent(Live(), tree)
    }

    // ---------------------------------------------------------------- the machine

    /** Between any two statements the processor may cache any number of walk results. */
    method Speculate(ghost was: Tree)
      requires Stored(ram, tree) && tree.tables[ROOT] == root
      requires StaleTablesBlank(ram, was, tree) && Transitional(Live(), was, tree)
      modifies this`cache
      ensures Transitional(Live(), was, tree)
    {
      if !active { return; }
      var fills: nat := *;
      while fills > 0
        invariant Transitional(Live(), was, tree)
      {
        var parent: Cached := *;
        var index: nat := *;
        if index < ENTRIES {
          FillAgrees(ram, cache, was, tree, parent, index);
          match Derive(ram, root, cache, parent, index)
          case None =>
          case Some(e) => cache := cache + {e};
        }
        fills := fills - 1;
      }
    }

    /** Speculation while nothing is in flight. */
    method Settle()
      requires Intact()
      modifies this`cache
      ensures Coherent(Live(), tree)
    {
      Speculate(tree);
    }

    /** `x86_invalidate_page`, with speculation on either side. */
    method Invalidate(v: nat, ghost was: Tree)
      requires Stored(ram, tree) && tree.tables[ROOT] == root
      requires StaleTablesBlank(ram, was, tree) && Transitional(Live(), was, tree)
      requires was.leaves - {v} == tree.leaves - {v}
      modifies this`cache
      ensures Coherent(Live(), tree)
    {
      Speculate(was);
      InvalidationRestores(Live(), was, tree, v);
      cache := InvalidatePage(cache, v);
      Settle();
    }

    // ---------------------------------------------------------------- table frames

    /** `new_table` */
    method NewTable() returns (r: Option<nat>)
      requires pmm.Valid() && Storage()
      modifies this`ram, this`tableCount, tablePages, pmm`freePages, pmm`cursor, pmm.inUse
      ensures pmm.Valid() && Storage() && pmm.Eligible() == old(pmm.Eligible())
      ensures r.None? <==> old(tableCount) == MAX_TABLES || old(pmm.freePages) == 0
      ensures r.None? ==> Registry() == old(Registry()) && ram == old(ram)
      ensures r.None? ==> pmm.Allocated() == old(pmm.Allocated()) && pmm.freePages == old(pmm.freePages)
      ensures r.Some? ==> r.value in pmm.Eligible() && r.value !in old(pmm.Allocated()) && r.value < PAGE_COUNT
      ensures r.Some? ==> Registry() == old(Registry()) + [r.value]
      ensures r.Some? ==> pmm.Allocated() == old(pmm.Allocated()) + {r.value} && pmm.freePages == old(pmm.freePages) - 1
      ensures r.Some? ==> Blank(ram, r.value) && Spares(old(ram), ram, {r.value})
    {
      SubsetSize(pmm.Allocated(), pmm.Eligible());
      if tableCount == MAX_TABLES { return None; }
      r := pmm.Alloc();
      if r.None? { return; }
      var frame := r.value;
      assert Managed(frame);
      tablePages[tableCount] := frame;
      tableCount := tableCount + 1;
      for i := 0 to ENTRIES
        modifies this`ram
        invariant forall k :: 0 <= k < i ==> ram[frame][k] == ZERO
        invariant forall f :: 0 <= f < PAGE_COUNT && f != frame ==> ram[f] == old(ram[f])
      {
        ram := Write(ram, frame, i, ZERO);
      }
    }

    /** `release_table`: no cached walk may still lead to the frame. */
    method ReleaseTable(frame: nat)
      requires pmm.Valid() && Storage()
      requires NoDuplicates(Registry()) && frame in Registry() && frame in pmm.Allocated() && frame < PAGE_COUNT
      requires forall e :: e in Live() && e.pos.level <= 3 ==> e.to.frame != frame
      modifies this`tableCount, tablePages, pmm`freePages, pmm`cursor, pmm.inUse
      ensures pmm.Valid() && Storage() && pmm.Eligible() == old(pmm.Eligible())
      ensures pmm.Allocated() == old(pmm.Allocated()) - {frame} && pmm.freePages == old(pmm.freePages) + 1
      ensures exists i :: 0 <= i < |old(Registry())| && old(Registry())[i] == frame
                && Registry() == SwapRemove(old(Registry()), i)
    {
      for i := 0 to tableCount
        invariant tableCount == old(tableCount) && tablePages[..] == old(tablePages[..])
        invariant pmm.Valid() && pmm.Allocated() == old(pmm.Allocated()) && pmm.freePages == old(pmm.freePages)
        invariant forall k :: 0 <= k < i ==> tablePages[k] != frame
      {
        if tablePages[i] != frame { continue; }
        tableCount := tableCount - 1;
        tablePages[i] := tablePages[tableCount];
        assert Registry() == SwapRemove(old(Registry()), i);
        var freed := pmm.Free(frame * PAGE_SIZE);
        return;
      }
      assert false;
    }

    // ---------------------------------------------------------------- the dynamic window

    predicate DynamicAddress(address: u64)
      reads this`active, this`interruptsEnabled
    {
      && active && !interruptsEnabled && address % PAGE_SIZE == 0
      && address >= DYNAMIC_BASE && address - DYNAMIC_BASE < DYNAMIC_SIZE
    }

    /** Frames handed out that are not page tables: what the clients hold. */
    ghost function ClientFrames(): set<nat>
      reads this`tree, pmm.inUse
      requires pmm.inUse.Length == WORD_COUNT
    {
      pmm.Allocated() - tree.tables.Values
    }

    ghost predicate Acceptable(address: u64, physical: u64, flags: nat)
      reads this, pmm, pmm.inUse
      requires pmm.inUse.Length == WORD_COUNT
    {
      && DynamicAddress(address) && flags <= 3
      && physical % PAGE_SIZE == 0 && physical / PAGE_SIZE in ClientFrames()
    }

    /** The page is unmapped, and the tables its path lacks can all be had. */
    ghost predicate HasRoom(v: nat)
      reads this, pmm
    {
      && v !in tree.leaves
      && Missing(tree.tables, v, 3) <= pmm.freePages
      && tableCount + Missing(tree.tables, v, 3) <= MAX_TABLES
    }

    /**
      The dynamic window is slot 256 of the PML4, all of it and nothing else, in canonical
      form; and nothing may be changed there with interrupts on, or before paging is active.
    */
    lemma DynamicAddressMeaning(address: u64)
      ensures DynamicAddress(address) <==>
        active && !interruptsEnabled && address % 4096 == 0 && address / 0x80_0000_0000 == 0x1ff_ff00
      ensures DynamicAddress(address) ==> PageOf(address) / 0x800_0000 == 256
    {
      if DynamicAddress(address) { WindowPage(address); }
    }

    /** A page has a leaf exactly if the processor's walk finds it. */
    lemma MappedMeaning(v: nat)
      requires Valid() && v < VIRTUAL_PAGES
      ensures v in tree.leaves <==> Walk(ram, root, v, 4).Some?
    {
      hide Walk, Coherent, Consistent, PageAllocator.Valid, Shaped;
      WalkFollowsTree(ram, tree, v, 4);
      AtEnds(v);
    }

    /** The tables that a page lacks are those at which the walk ends. */
    lemma MissingMeaning(v: nat)
      requires Valid() && v < VIRTUAL_PAGES
      ensures Missing(tree.tables, v, 3) ==
        (if Walk(ram, root, v, 1).None? then 1 else 0) + (if Walk(ram, root, v, 2).None? then 1 else 0)
        + (if Walk(ram, root, v, 3).None? then 1 else 0)
    {
      hide Walk, Coherent, Consistent, PageAllocator.Valid, Shaped;
      WalkFollowsTree(ram, tree, v, 1);
      WalkFollowsTree(ram, tree, v, 2);
      WalkFollowsTree(ram, tree, v, 3);
      assert Missing(tree.tables, v, 3) == Missing(tree.tables, v, 2) + (if At(v, 3) in tree.tables then 0 else 1);
      assert Missing(tree.tables, v, 2) == Missing(tree.tables, v, 1) + (if At(v, 2) in tree.tables then 0 else 1);
      assert Missing(tree.tables, v, 1) == Missing(tree.tables, v, 0) + (if At(v, 1) in tree.tables then 0 else 1);
    }

    /**
      When `paging_map` succeeds, in terms of what can be observed: the walk finds no page,
      and as many table frames are free, and entries of the registry, as tables are missing.
    */
    lemma MapMeaning(address: u64, physical: u64, flags: nat)
      requires Valid()
      ensures Acceptable(address, physical, flags) && HasRoom(PageOf(address)) <==>
        var v := address / 4096 % 0x10_0000_0000;
        var missing := (if Walk(ram, root, v, 1).None? then 1 else 0) + (if Walk(ram, root, v, 2).None? then 1 else 0)
                       + (if Walk(ram, root, v, 3).None? then 1 else 0);
        && !interruptsEnabled && address % 4096 == 0 && address / 0x80_0000_0000 == 0x1ff_ff00 && flags < 4
        && physical % 4096 == 0 && physical / 4096 in pmm.Allocated() && physical / 4096 !in Registry()
        && Walk(ram, root, v, 4).None? && missing <= pmm.freePages && tableCount + missing <= 4096
    {
      hide PageTables.DynamicAddress, PageTables.Valid, PageAllocator.Allocated, Walk, Missing, Span;
      DynamicAddressMeaning(address);
      MappedMeaning(PageOf(address));
      MissingMeaning(PageOf(address));
      RegistryIsTables();
    }

    lemma RegistryIsTables()
      requires Valid()
      ensures active && forall f :: f in Registry() <==> f in tree.tables.Values
    {
      hide PageTables.Intact, Balanced, LeavesOwned, SelfSupporting, PageAllocator.Valid;
    }

    /** Registry and allocator while `created` is pending on top of an earlier state. */
    ghost predicate Pending(registry: seq<nat>, held: set<nat>, free: nat, created: seq<nat>)
      reads this`tableCount, tablePages, pmm, pmm.eligible, pmm.inUse
    {
      && pmm.Valid() && Storage()
      && Registry() == registry + created
      && NoDuplicates(Registry())
      && Frames(Registry()) <= pmm.Allocated()
      && pmm.Allocated() == held + Frames(created)
      && held !! Frames(created) && (forall f :: f in Frames(created) ==> f < PAGE_COUNT)
      && pmm.freePages + |created| == free
    }

    /** `*entry = child | FLAGS` on the way down. */
    method LinkNew(table: nat, index: nat, child: nat, ghost c: Pos)
      requires Intact()
      requires 1 <= c.level <= 3 && c !in tree.tables && Up(c) in tree.tables
      requires table == tree.tables[Up(c)] && index == Slot(c)
      requires child < PAGE_COUNT && child !in tree.tables.Values && Blank(ram, child)
      modifies this`ram, this`tree, this`cache
      ensures Intact()
      ensures tree == old(tree).(tables := old(tree).tables[c := child])
      ensures tree.tables.Values == old(tree.tables.Values) + {child}
      ensures ram == Write(old(ram), table, index, LinkWord(child))
    {
      LinkTable(ram, tree, c, child);
      TablesInSet(tree.tables, c, child);
      ghost var was := tree;
      ram := Write(ram, table, index, LinkTo(child));
      tree := tree.(tables := tree.tables[c := child]);
      CoherentAfterGrowth(Live(), was, tree);
      Settle();
    }

    /** `*link = 0` and `x86_invalidate_page`, on rollback and when pruning. */
    method Unlink(table: nat, index: nat, v: nat, ghost c: Pos)
      requires Intact()
      requires c.level > 0 && c in tree.tables && Blank(ram, tree.tables[c])
      requires table == tree.tables[Up(c)] && index == Slot(c)
      modifies this`ram, this`tree, this`cache
      ensures Intact()
      ensures tree == old(tree).(tables := old(tree).tables - {c})
      ensures tree.tables.Values == old(tree.tables.Values) - {old(tree).tables[c]}
      ensures Spares(old(ram), ram, old(tree.tables.Values))
      ensures forall e :: e in Live() && e.pos.level <= 3 ==> e.to.frame != old(tree).tables[c]
    {
      UnlinkTable(ram, tree, c);
      TablesLess(tree, c);
      UnlinkedIsBlank(ram, tree, c);
      hide Stored, Shaped, Coherent, Blank, TranslationCache.StaleTablesBlank;
      ghost var was := tree;
      ram := Write(ram, table, index, ZERO);
      tree := tree.(tables := tree.tables - {c});
      Invalidate(v, was);
      UnlinkedTableNotCached(Live(), tree, was.tables[c]);
    }

    /** `release_table` of the newest frame: the registry simply loses its last element. */
    method ReleaseLast(frame: nat, ghost registry: seq<nat>, ghost held: set<nat>, ghost free: nat, ghost created: seq<nat>)
      requires pmm.Valid()
      requires Pending(registry, held, free, created) && created != [] && frame == created[|created| - 1]
      requires forall e :: e in Live() && e.pos.level <= 3 ==> e.to.frame != frame
      modifies this`tableCount, tablePages, pmm`freePages, pmm`cursor, pmm.inUse
      ensures Pending(registry, held, free, created[..|created| - 1]) && pmm.Eligible() == old(pmm.Eligible())
    {
      hide PageAllocator.Valid, NoDuplicates, Frames, SwapRemove;
      ghost var all := Registry();
      NewestOf(registry, created, held);
      ReleaseTable(frame);
      LastSwap(all, Registry());
    }

    /** Inside `paging_map`, `level` steps down: the tree is `before` plus the tables `created`. */
    ghost predicate TreeOnPath(before: Tree, v: nat, level: nat, links: seq<EntryAddress>, created: seq<nat>)
      reads this`tree, this`ram, this`root, this`cache, this`active
      ensures TreeOnPath(before, v, level, links, created) ==> |links| == |created| <= level
    {
      && OnPath(tree, before, v, level, links, created)
      && Intact()
    }

    /** Takes the newest table off the path. */
    method UnlinkLast(v: nat, link: EntryAddress, ghost before: Tree, ghost level: nat,
                      ghost links: seq<EntryAddress>, ghost created: seq<nat>)
      requires TreeOnPath(before, v, level, links, created)
      requires created != [] && link == links[|links| - 1] && NoDuplicates(created)
      modifies this`ram, this`tree, this`cache
      ensures level > 0
      ensures TreeOnPath(before, v, level - 1, links[..|links| - 1], created[..|created| - 1])
      ensures forall e :: e in Live() && e.pos.level <= 3 ==> e.to.frame != created[|created| - 1]
      ensures Spares(old(ram), ram, before.tables.Values + Frames(created))
    {
      hide OnPath, Stored, Coherent, Shaped, Blank, NoDuplicates, At, Up, Slot, Frames;
      PathFrames(tree, before, v, level, links, created);
      LastCreated(ram, tree, before, v, level, links, created);
      StepBack(ram, tree, before, v, level, links, created);
      Unlink(link.frame, link.index, v, At(v, level));
    }

    /** The `while (count)` loop of `paging_map`: takes every new table off the path again. */
    method Rollback(v: nat, reached: nat, newLinks: seq<EntryAddress>, newTables: seq<nat>,
                    ghost before: Tree, ghost registry: seq<nat>, ghost held: set<nat>, ghost free: nat)
      requires pmm.Valid() && TreeOnPath(before, v, reached, newLinks, newTables)
      requires Pending(registry, held, free, newTables) && before.tables.Values <= held
      modifies this`ram, this`tree, this`cache, this`tableCount, tablePages, pmm`freePages, pmm`cursor, pmm.inUse
      ensures reached >= |newTables| && TreeOnPath(before, v, reached - |newTables|, [], []) && tree == before
      ensures Pending(registry, held, free, []) && pmm.Valid() && pmm.Eligible() == old(pmm.Eligible())
      ensures Spares(old(ram), ram, before.tables.Values + Frames(newTables))
    {
      hide OnPath, Stored, Coherent, Shaped, PageAllocator.Valid;
      var links, created := newLinks, newTables;
      ghost var level: nat := reached;
      while created != []
        invariant |links| == |created| && level - |created| == reached - |newTables|
        invariant TreeOnPath(before, v, level, links, created)
        invariant Pending(registry, held, free, created) && pmm.Valid() && pmm.Eligible() == old(pmm.Eligible())
        invariant Spares(old(ram), ram, before.tables.Values + Frames(newTables)) && Frames(created) <= Frames(newTables)
      {
        var link, frame := links[|links| - 1], created[|created| - 1];
        SuffixNoDuplicates(registry, created);
        FramesWithin(created);
        UnlinkLast(v, link, before, level, links, created);
        ReleaseLast(frame, registry, held, free, created);
        links, created, level := links[..|links| - 1], created[..|created| - 1], level - 1;
      }
      BackToStart(tree, before, v, level, links, created);
    }

    /** Extends the path by a table that was just created. */
    method LinkNext(address: u64, v: nat, level: nat, table: nat, child: nat, ghost before: Tree,
                    ghost links: seq<EntryAddress>, ghost created: seq<nat>)
      requires TreeOnPath(before, v, level, links, created) && level < 3 && v == PageOf(address)
      requires At(v, level) in tree.tables && table == tree.tables[At(v, level)] && At(v, level + 1) !in tree.tables
      requires child < PAGE_COUNT && child !in tree.tables.Values && Blank(ram, child)
      modifies this`ram, this`tree, this`cache
      ensures TreeOnPath(before, v, level + 1, links + [EntryAddress(table, v / Span(level + 1) % 512)], created + [child])
      ensures At(v, level + 1) in tree.tables && tree.tables[At(v, level + 1)] == child
      ensures Spares(old(ram), ram, {table})
    {
      hide OnPath, Stored, Coherent, Shaped, Blank, Frames;
      UpOfAt(v, level + 1);
      StepCreating(tree, before, v, level, links, created, child);
      FramesGrow(created, child);
      LinkNew(table, IndexOf(address, level), child, At(v, level + 1));
    }

    /** `new_table` while frames are pending. */
    method PendingTable(ghost registry: seq<nat>, ghost held: set<nat>, ghost free: nat, ghost created: seq<nat>)
      returns (child: Option<nat>)
      requires pmm.Valid() && Pending(registry, held, free, created)
      modifies this`ram, this`tableCount, tablePages, pmm`freePages, pmm`cursor, pmm.inUse
      ensures pmm.Valid() && pmm.Eligible() == old(pmm.Eligible())
      ensures child.None? ==> Pending(registry, held, free, created) && ram == old(ram)
      ensures child.None? ==> tableCount == MAX_TABLES || pmm.freePages == 0
      ensures child.Some? ==> Pending(registry, held, free, created + [child.value])
      ensures child.Some? ==> child.value < PAGE_COUNT && child.value !in held + Frames(created)
      ensures child.Some? ==> Blank(ram, child.value) && Spares(old(ram), ram, {child.value})
    {
      hide Blank, Spares, PageAllocator.Valid, PageAllocator.Allocated, PageAllocator.Eligible, Frames, NoDuplicates;
      child := NewTable();
      if child.Some? {
        var frame := child.value;
        FramesGrow(created, frame);
        assert Registry() == registry + (created + [frame]);
        NewestNoDuplicates(old(Registry()), frame, held + Frames(created));
        assert held + Frames(created) + {frame} == held + Frames(created + [frame]);
        assert held !! Frames(created + [frame]);
      }
    }

    /** `new_table` while a path is being built. */
    method CreateTable(ghost v: nat, ghost level: nat, ghost before: Tree, ghost links: seq<EntryAddress>, ghost created: seq<nat>,
                       ghost registry: seq<nat>, ghost held: set<nat>, ghost free: nat)
      returns (child: Option<nat>)
      requires TreeOnPath(before, v, level, links, created)
      requires pmm.Valid() && Pending(registry, held, free, created) && before.tables.Values <= held
      modifies this`ram, this`tableCount, tablePages, pmm`freePages, pmm`cursor, pmm.inUse
      ensures pmm.Valid() && pmm.Eligible() == old(pmm.Eligible())
      ensures TreeOnPath(before, v, level, links, created)
      ensures child.None? ==> Pending(registry, held, free, created) && ram == old(ram)
      ensures child.None? ==> tableCount == MAX_TABLES || pmm.freePages == 0
      ensures child.Some? ==> Pending(registry, held, free, created + [child.value])
      ensures child.Some? ==> child.value < PAGE_COUNT && child.value !in tree.tables.Values
      ensures child.Some? ==> Blank(ram, child.value) && Spares(old(ram), ram, {child.value})
    {
      hide OnPath, Stored, Shaped, Coherent, Blank, Spares, Pending, PageAllocator.Valid, Frames, NoDuplicates;
      PathFrames(tree, before, v, level, links, created);
      child := PendingTable(registry, held, free, created);
      if child.Some? {
        OtherTables(old(ram), ram, tree, child.value);
      }
      assert Intact();
    }

    /** One iteration of the loop that walks down to the page table, creating what is missing. */
    method StepDown(address: u64, v: nat, level: nat, table: nat, links: seq<EntryAddress>, created: seq<nat>,
                    ghost before: Tree, ghost registry: seq<nat>, ghost held: set<nat>, ghost free: nat)
      returns (ok: bool, table': nat, links': seq<EntryAddress>, created': seq<nat>)
      requires TreeOnPath(before, v, level, links, created) && level < 3 && v == PageOf(address)
      requires At(v, level) in tree.tables && table == tree.tables[At(v, level)]
      requires pmm.Valid() && Pending(registry, held, free, created) && before.tables.Values <= held
      modifies this`ram, this`tree, this`cache, this`tableCount, tablePages, pmm`freePages, pmm`cursor, pmm.inUse
      ensures pmm.Valid() && pmm.Eligible() == old(pmm.Eligible())
      ensures Pending(registry, held, free, created')
      ensures ok ==> TreeOnPath(before, v, level + 1, links', created')
      ensures ok ==> At(v, level + 1) in tree.tables && table' == tree.tables[At(v, level + 1)]
      ensures !ok ==> TreeOnPath(before, v, level, links', created')
      ensures !ok ==> At(v, level + 1) !in before.tables && (tableCount == MAX_TABLES || pmm.freePages == 0)
      ensures Spares(old(ram), ram, before.tables.Values + Frames(created'))
      ensures Frames(created) <= Frames(created')
    {
      hide *;
      var index := IndexOf(address, level);
      EntryOnPath(before, v, level, links, created);
      SparesNothing(ram, before.tables.Values + Frames(created));
      links', created' := links, created;
      if !Present(ram[table][index]) {
        var child := CreateTable(v, level, before, links, created, registry, held, free);
        if child.None? {
          return false, table, links, created;
        }
        ghost var between := ram;
        LinkNext(address, v, level, table, child.value, before, links, created);
        FramesGrow(created, child.value);
        SparesBoth(old(ram), between, ram, {child.value}, {table}, before.tables.Values + Frames(created + [child.value]));
        links', created' := links + [EntryAddress(table, index)], created + [child.value];
        table' := child.value;
      } else {
        table' := FrameOf(ram[table][index]);
      }
      ok := true;
    }

    /** What the entry under examination says. */
    lemma EntryOnPath(before: Tree, v: nat, level: nat, links: seq<EntryAddress>, created: seq<nat>)
      requires TreeOnPath(before, v, level, links, created) && level < 3
      ensures At(v, level) in tree.tables && tree.tables[At(v, level)] < PAGE_COUNT == |ram|
      ensures v / Span(level + 1) % 512 < ENTRIES == |ram[tree.tables[At(v, level)]]|
      ensures var entry := ram[tree.tables[At(v, level)]][v / Span(level + 1) % 512];
        && Encodable(entry)
        && if At(v, level + 1) in tree.tables then entry.present && entry.frame == tree.tables[At(v, level + 1)]
           else !entry.present
      ensures At(v, level + 1) in tree.tables ==> TreeOnPath(before, v, level + 1, links, created)
      ensures At(v, level + 1) in tree.tables <==> At(v, level + 1) in before.tables
      ensures tree.tables[At(v, level)] in before.tables.Values + Frames(created)
    {
      hide LinksMatch, Grow, Missing, Coherent, NewFrames, Frames, TableStored;
      UpOfAt(v, level + 1);
      SlotStored(ram, tree, At(v, level + 1));
      NextTable(tree, before, v, level, links, created);
      PathFrames(tree, before, v, level, links, created);
      if At(v, level + 1) in tree.tables { StepThrough(tree, before, v, level, links, created); }
    }

    lemma PathCount(before: Tree, v: nat, level: nat, links: seq<EntryAddress>, created: seq<nat>)
      requires TreeOnPath(before, v, level, links, created)
      ensures level <= 3 && |created| == Missing(before.tables, v, level) <= Missing(before.tables, v, 3)
      ensures level < 3 && At(v, level + 1) !in before.tables ==> |created| < Missing(before.tables, v, 3)
    {
      hide PageTables.Intact, Shaped, LinksMatch, NewFrames, Grow, At;
      MissingMonotone(before.tables, v, level, 3);
      if level < 3 { MissingMonotone(before.tables, v, level + 1, 3); }
    }

    /** The walk from the root to the page table of `v`, creating what is missing. */
    method BuildPath(address: u64, v: nat, ghost registry: seq<nat>, ghost held: set<nat>, ghost free: nat)
      returns (ok: bool, table: nat, level: nat, links: seq<EntryAddress>, created: seq<nat>)
      requires Intact() && v < VIRTUAL_PAGES && v == PageOf(address)
      requires pmm.Valid() && Pending(registry, held, free, []) && tree.tables.Values <= held
      modifies this`ram, this`tree, this`cache, this`tableCount, tablePages, pmm`freePages, pmm`cursor, pmm.inUse
      ensures pmm.Valid() && pmm.Eligible() == old(pmm.Eligible())
      ensures Pending(registry, held, free, created)
      ensures TreeOnPath(old(tree), v, level, links, created)
      ensures ok ==> level == 3 && At(v, 3) in tree.tables && table == tree.tables[At(v, 3)]
      ensures !ok ==> level < 3 && At(v, level + 1) !in old(tree).tables
      ensures !ok ==> tableCount == MAX_TABLES || pmm.freePages == 0
      ensures Spares(old(ram), ram, old(tree.tables.Values) + Frames(created))
    {
      hide OnPath, Stored, Shaped, Coherent, Pending, PageAllocator.Valid;
      ghost var before := tree;
      StartPath(v);
      table, links, created := root, [], [];
      level := 0;
      while level < 3
        invariant level <= 3 && pmm.Valid() && pmm.Eligible() == old(pmm.Eligible())
        invariant TreeOnPath(before, v, level, links, created)
        invariant Pending(registry, held, free, created)
        invariant At(v, level) in tree.tables && table == tree.tables[At(v, level)]
        invariant Spares(old(ram), ram, before.tables.Values + Frames(created))
      {
        ghost var earlier := ram;
        ok, table, links, created := StepDown(address, v, level, table, links, created, before, registry, held, free);
        if !ok { return; }
        level := level + 1;
      }
      ok := true;
    }

    lemma StartPath(v: nat)
      requires Intact() && v < VIRTUAL_PAGES
      ensures TreeOnPath(tree, v, 0, [], [])
      ensures At(v, 0) in tree.tables && root == tree.tables[At(v, 0)]
    {
      AtRoot(tree, v);
      AtEnds(v);
    }

    /** `*leaf = ...` and `x86_invalidate_page`. */
    method WriteLeaf(table: nat, address: u64, v: nat, leaf: Word, ghost to: Translation)
      requires Intact() && v < VIRTUAL_PAGES && v == PageOf(address) && to.frame < PAGE_COUNT
      requires leaf == LeafWord(to.frame, to.write, to.exec)
      requires At(v, 3) in tree.tables && table == tree.tables[At(v, 3)]
      modifies this`ram, this`tree, this`cache
      ensures Intact()
      ensures tree == old(tree).(leaves := old(tree).leaves[v := to])
      ensures Spares(old(ram), ram, {table})
    {
      hide Stored, Shaped, Coherent, StaleTablesBlank, At;
      LeafTable(ram, tree, v);
      SetLeaf(ram, tree, v, to);
      LeafChangeIsClean(ram, Write(ram, table, v % 512, LeafWord(to.frame, to.write, to.exec)), Live(), tree, v, to);
      ghost var was := tree;
      ram := Write(ram, table, IndexOf(address, 3), leaf);
      tree := tree.(leaves := tree.leaves[v := to]);
      Invalidate(v, was);
    }

    lemma PendingCount(registry: seq<nat>, held: set<nat>, free: nat, created: seq<nat>)
      requires Pending(registry, held, free, created)
      ensures tableCount == |registry| + |created| <= MAX_TABLES && pmm.freePages + |created| == free
      ensures tableCount <= tablePages.Length && Registry() == registry + created && NoDuplicates(Registry())
    {
      assert |Registry()| == tableCount;
    }

    /** With nothing pending, registry and allocator are as they were. */
    lemma NonePending(registry: seq<nat>, held: set<nat>, free: nat)
      requires Pending(registry, held, free, [])
      ensures Registry() == registry && pmm.Allocated() == held && pmm.freePages == free
    {
      assert Frames([]) == {};
      assert registry + [] == registry;
    }

    /** The argument checks of `paging_map`: no table frame can be mapped. */
    method AcceptsArguments(address: u64, physical: u64, flags: nat) returns (ok: bool)
      requires Valid()
      ensures ok <==> Acceptable(address, physical, flags)
    {
      hide Stored, Coherent, Balanced, LeavesOwned, SelfSupporting, NoDuplicates, PageAllocator.Valid;
      assert Registers(Registry(), tree.tables);
      if !DynamicAddress(address) || UnknownFlags(flags) { return false; }
      var isAllocated := pmm.IsAllocated(physical);
      if !isAllocated { return false; }
      for i := 0 to tableCount
        invariant forall k :: 0 <= k < i ==> tablePages[k] != physical / PAGE_SIZE
      {
        if tablePages[i] == physical / PAGE_SIZE {
          assert Registry()[i] in Registry();
          return false;
        }
      }
      assert physical / PAGE_SIZE !in Registry();
      ok := true;
    }

    /** What the leaf entry at the end of a finished path says. */
    lemma LeafOnPath(before: Tree, v: nat, links: seq<EntryAddress>, created: seq<nat>)
      requires TreeOnPath(before, v, 3, links, created)
      ensures Intact()
      ensures At(v, 3) in tree.tables && tree.tables[At(v, 3)] < PAGE_COUNT == |ram|
      ensures v % 512 < ENTRIES == |ram[tree.tables[At(v, 3)]]|
      ensures ram[tree.tables[At(v, 3)]][v % 512].present <==> v in before.leaves
      ensures v in before.leaves ==> created == []
      ensures created == [] ==> tree == before
      ensures tree.leaves == before.leaves
      ensures tree.tables.Keys == before.tables.Keys + Spine({v})
      ensures tree.tables.Values == before.tables.Values + Frames(created)
      ensures tree.tables[At(v, 3)] in before.tables.Values + Frames(created)
      ensures TablesStay(before.tables, tree.tables)
    {
      hide LinksMatch, Coherent, Frames, TablesStay;
      PathStays(tree, before, v, 3, links, created);
      UpOfAt(v, 4);
      AtEnds(v);
      SlotStored(ram, tree, At(v, 4));
      FullPathKeys(tree, before, v, links, created);
      if v in before.leaves && created != [] { NoGaps(before, v, 3 - |created| + 1, 3); }
    }

    /** A path that could not be finished is taken down: everything live is as it was. */
    method Abandon(v: nat, level: nat, links: seq<EntryAddress>, created: seq<nat>, ghost before: Tree,
                   ghost registry: seq<nat>, ghost held: set<nat>, ghost free: nat, ghost ram0: Ram)
      requires active && pmm.Valid() && TreeOnPath(before, v, level, links, created)
      requires Pending(registry, held, free, created)
      requires Consistent(before, boot, root, registry, held, pmm.Eligible())
      requires Stored(ram0, before) && Spares(ram0, ram, before.tables.Values + Frames(created))
      modifies this`ram, this`tree, this`cache, this`tableCount, tablePages, pmm`freePages, pmm`cursor, pmm.inUse
      ensures Valid() && tree == before && pmm.Eligible() == old(pmm.Eligible())
      ensures Registry() == registry && pmm.Allocated() == held && pmm.freePages == free
      ensures Keeps(ram0, ram, held)
    {
      hide OnPath, Stored, Shaped, Coherent, Balanced, LeavesOwned, SelfSupporting, Registers, PageAllocator.Valid, Frames, Spares, Keeps;
      ghost var written := before.tables.Values + Frames(created);
      ghost var between := ram;
      CreatedApart(registry, held, free, created, before.tables.Values);
      Rollback(v, level, links, created, before, registry, held, free);
      SparesBoth(ram0, between, ram, written, written, written);
      AsBefore(before, registry, held, free, ram0, written);
    }

    lemma CreatedApart(registry: seq<nat>, held: set<nat>, free: nat, created: seq<nat>, tables: set<nat>)
      requires Pending(registry, held, free, created)
      ensures tables + Frames(created) !! held - tables
    {
    }

    /** With no new table left on the path, the call has changed nothing. */
    lemma AsBefore(before: Tree, registry: seq<nat>, held: set<nat>, free: nat, ram0: Ram, written: set<nat>)
      requires active && pmm.Valid() && Intact() && tree == before
      requires Pending(registry, held, free, [])
      requires Consistent(before, boot, root, registry, held, pmm.Eligible())
      requires Stored(ram0, before) && Spares(ram0, ram, written) && written !! held - before.tables.Values
      ensures Valid() && Registry() == registry && pmm.Allocated() == held && pmm.freePages == free
      ensures Keeps(ram0, ram, held)
    {
      hide OnPath, Stored, Shaped, Coherent, Balanced, LeavesOwned, SelfSupporting, Registers, PageAllocator.Valid, Frames, Spares, Keeps;
      NonePending(registry, held, free);
      SparesKeeps(ram0, ram, written, held - before.tables.Values);
      SameTree(ram0, ram, before);
      KeepsBoth(ram0, ram, before.tables.Values, held - before.tables.Values, held);
    }

    /** At the end of the path, the leaf is written. */
    method Complete(address: u64, v: nat, leaf: Word,
                    ghost to: Translation, table: nat, links: seq<EntryAddress>, created: seq<nat>, ghost before: Tree,
                    ghost registry: seq<nat>, ghost held: set<nat>, ghost free: nat, ghost ram0: Ram)
      requires active && pmm.Valid() && TreeOnPath(before, v, 3, links, created)
      requires Pending(registry, held, free, created)
      requires Consistent(before, boot, root, registry, held, pmm.Eligible())
      requires InWindow(v) && v < VIRTUAL_PAGES && v == PageOf(address) && to.frame < PAGE_COUNT
      requires leaf == LeafWord(to.frame, to.write, to.exec)
      requires to.frame in held && to.frame !in before.tables.Values
      requires At(v, 3) in tree.tables && table == tree.tables[At(v, 3)]
      requires Spares(ram0, ram, before.tables.Values + Frames(created))
      modifies this`ram, this`tree, this`cache
      ensures Valid() && tree.leaves == before.leaves[v := to] && TablesStay(before.tables, tree.tables)
      ensures ClientFrames() == held - before.tables.Values
      ensures Keeps(ram0, ram, held - before.tables.Values)
    {
      hide OnPath, Stored, Shaped, Coherent, Consistent, PageAllocator.Valid, Frames, Spares, Keeps, At, NoDuplicates, TablesStay;
      ghost var written := before.tables.Values + Frames(created);
      ghost var between := ram;
      LeafOnPath(before, v, links, created);
      WriteLeaf(table, address, v, leaf, to);
      pmm.EligibleManaged();
      AddedConsistent(before, tree, v, to, created, boot, root, registry, held, pmm.Eligible());
      SparesBoth(ram0, between, ram, written, {table}, written);
      SparesKeeps(ram0, ram, written, held - before.tables.Values);
    }

    /** `paging_map` after its argument checks; the ghost arguments name the state at entry. */
    method MapPage(address: u64, v: nat, leaf: Word, ghost to: Translation, ghost before: Tree, ghost registry: seq<nat>,
                   ghost held: set<nat>, ghost free: nat, ghost ram0: Ram) returns (ok: bool)
      requires Valid() && before == tree && registry == Registry() && held == pmm.Allocated()
      requires free == pmm.freePages && ram0 == ram
      requires InWindow(v) && v < VIRTUAL_PAGES && v == PageOf(address) && to.frame in held && to.frame !in before.tables.Values
      requires leaf == LeafWord(to.frame, to.write, to.exec)
      modifies this`ram, this`tree, this`cache, this`tableCount, tablePages, pmm`freePages, pmm`cursor, pmm.inUse
      ensures Valid() && pmm.Eligible() == old(pmm.Eligible())
      ensures ok <==> v !in before.leaves && Missing(before.tables, v, 3) <= free
                      && |registry| + Missing(before.tables, v, 3) <= MAX_TABLES
      ensures ok ==> tree.leaves == before.leaves[v := to] && TablesStay(before.tables, tree.tables)
      ensures ok ==> pmm.freePages + Missing(before.tables, v, 3) == free
      ensures !ok ==> tree == before && Registry() == registry && pmm.Allocated() == held && pmm.freePages == free
      ensures !ok ==> Keeps(ram0, ram, held)
      ensures ClientFrames() == held - before.tables.Values
      ensures Keeps(ram0, ram, held - before.tables.Values)
    {
      hide PageTables.Intact, PageTables.TreeOnPath, PageTables.Storage, PageTables.Pending;
      hide Consistent, OnPath, Stored, Shaped, Coherent, NoDuplicates, PageAllocator.Valid, Frames, At, Spares, Missing, Keeps, TablesStay;
      hide Present, IndexOf, PageOf, LeafWord;
      pmm.EligibleManaged();
      assert Managed(to.frame);
      NothingPending();
      var reached, table, level, links, created := BuildPath(address, v, registry, held, free);
      PathCount(before, v, level, links, created);
      PendingCount(registry, held, free, created);
      if !reached {
        Abandon(v, level, links, created, before, registry, held, free, ram0);
        KeepsFewer(ram0, ram, held, held - before.tables.Values);
        return false;
      }
      LeafOnPath(before, v, links, created);
      if Present(ram[table][IndexOf(address, 3)]) {
        // An existing leaf implies that no table was created above it.
        CreatedApart(registry, held, free, [], before.tables.Values);
        AsBefore(before, registry, held, free, ram0, before.tables.Values + Frames([]));
        KeepsFewer(ram0, ram, held, held - before.tables.Values);
        return false;
      }
      Complete(address, v, leaf, to, table, links, created, before, registry, held, free, ram0);
      ok := true;
    }

    lemma NothingPending()
      requires Valid()
      ensures Pending(Registry(), pmm.Allocated(), pmm.freePages, [])
      ensures Intact() && tree.tables.Values <= pmm.Allocated()
      ensures Stored(ram, tree) && tree.tables[ROOT] == root && active
    {
      assert Frames([]) == {};
    }

    /** `paging_map` */
    method Map(address: u64, physical: u64, flags: nat) returns (ok: bool)
      requires Valid()
      modifies this`ram, this`tree, this`cache, this`tableCount, tablePages, pmm`freePages, pmm`cursor, pmm.inUse
      ensures Valid() && pmm.Eligible() == old(pmm.Eligible())
      ensures ok <==> old(Acceptable(address, physical, flags) && HasRoom(PageOf(address)))
      ensures ok ==> tree.leaves == old(tree.leaves)[PageOf(address) := Target(physical, flags)]
      ensures ok ==> TablesStay(old(tree.tables), tree.tables)
      ensures ok ==> pmm.freePages + Missing(old(tree.tables), PageOf(address), 3) == old(pmm.freePages)
      ensures !ok ==> tree == old(tree) && Registry() == old(Registry())
      ensures !ok ==> pmm.Allocated() == old(pmm.Allocated()) && pmm.freePages == old(pmm.freePages)
      ensures !ok ==> Keeps(old(ram), ram, old(pmm.Allocated()))
      ensures ClientFrames() == old(ClientFrames())
      ensures Keeps(old(ram), ram, old(ClientFrames()))
    {
      hide PageTables.Intact, PageTables.Storage, Consistent, PageAllocator.Valid, Missing, Keeps, TablesStay, LeafFor, PageOf;
      KeepsItself(ram, pmm.Allocated());
      KeepsItself(ram, ClientFrames());
      ok := AcceptsArguments(address, physical, flags);
      if ok {
        WindowPage(address);
        RegistryLength();
        AcceptedFrame(address, physical, flags);
        ok := MapPage(address, PageOf(address), LeafFor(physical, flags), Target(physical, flags),
                      tree, Registry(), pmm.Allocated(), pmm.freePages, ram);
      }
    }

    lemma AcceptedFrame(address: u64, physical: u64, flags: nat)
      requires Valid() && Acceptable(address, physical, flags)
      ensures physical % PAGE_SIZE == 0 && physical < PMM_LIMIT && flags <= 3
    {
      hide PageTables.Intact, Consistent, PageAllocator.Allocated, PageAllocator.Eligible;
      pmm.EligibleManaged();
      assert Managed(physical / PAGE_SIZE);
    }

    lemma RegistryLength()
      requires Valid()
      ensures |Registry()| == tableCount
    {
    }

    /** `path`: the frames of the four tables on the way to a mapped page. */
    method Path(address: u64, ghost v: nat) returns (r: Option<seq<nat>>)
      requires Intact() && v < VIRTUAL_PAGES && v == PageOf(address)
      ensures r.Some? <==> v in tree.leaves
      ensures r.Some? ==> |r.value| == 4
      ensures r.Some? ==> forall k :: 0 <= k < 4 ==> At(v, k) in tree.tables && r.value[k] == tree.tables[At(v, k)]
    {
      hide PageTables.Intact, Stored, Shaped, Coherent, At, Up, Slot;
      PathStart(v);
      var tables := [root];
      for level := 0 to 4
        invariant |tables| == (if level < 4 then level + 1 else 4)
        invariant forall k :: 0 <= k < |tables| ==> At(v, k) in tree.tables && tables[k] == tree.tables[At(v, k)]
        invariant level == 4 ==> v in tree.leaves
      {
        PathEntry(v, level);
        var entry := ram[tables[level]][IndexOf(address, level)];
        if !Present(entry) { return None; }
        if level < 3 { tables := tables + [FrameOf(entry)]; }
      }
      r := Some(tables);
    }

    lemma PathStart(v: nat)
      requires Intact() && v < VIRTUAL_PAGES
      ensures At(v, 0) in tree.tables && tree.tables[At(v, 0)] == root
    {
      AtEnds(v);
    }

    /** What the entry at `level` on the way to `v` says. */
    lemma PathEntry(v: nat, level: nat)
      requires Intact() && v < VIRTUAL_PAGES && level < 4 && At(v, level) in tree.tables
      ensures tree.tables[At(v, level)] < PAGE_COUNT == |ram|
      ensures v / Span(level + 1) % 512 < ENTRIES == |ram[tree.tables[At(v, level)]]|
      ensures var entry := ram[tree.tables[At(v, level)]][v / Span(level + 1) % 512];
        && Encodable(entry)
        && (entry.present && level < 3 ==> At(v, level + 1) in tree.tables && entry.frame == tree.tables[At(v, level + 1)])
        && (entry.present && level == 3 ==> v in tree.leaves)
        && (!entry.present ==> v !in tree.leaves)
    {
      AtEnds(v);
      UpOfAt(v, level + 1);
      SlotStored(ram, tree, At(v, level + 1));
      if v in tree.leaves { MappedPath(tree, v, level + 1); }
    }

    /** `tables[3][indices[3]] = 0` and `x86_invalidate_page`. */
    method EraseLeaf(table: nat, address: u64, v: nat)
      requires Intact() && v < VIRTUAL_PAGES && v == PageOf(address)
      requires At(v, 3) in tree.tables && table == tree.tables[At(v, 3)]
      modifies this`ram, this`tree, this`cache
      ensures Intact()
      ensures tree == old(tree).(leaves := old(tree).leaves - {v})
      ensures Spares(old(ram), ram, {table})
    {
      hide Stored, Shaped, Coherent, StaleTablesBlank, At;
      LeafTable(ram, tree, v);
      ClearLeaf(ram, tree, v);
      LeafChangeIsClean(ram, Write(ram, table, v % 512, ZERO), Live(), tree, v, Translation(0, false, false));
      ghost var was := tree;
      ram := Write(ram, table, IndexOf(address, 3), ZERO);
      tree := tree.(leaves := tree.leaves - {v});
      Invalidate(v, was);
    }

    /** The scan of `paging_unmap`: the first non-zero entry of a table. */
    method FirstEntry(table: nat) returns (r: Option<nat>)
      requires table < PAGE_COUNT
      ensures r.None? ==> Blank(ram, table)
      ensures r.Some? ==> r.value < ENTRIES && ram[table][r.value] != ZERO
    {
      for i := 0 to ENTRIES
        invariant forall k :: 0 <= k < i ==> ram[table][k] == ZERO
      {
        if !IsZero(ram[table][i]) { return Some(i); }
      }
      r := None;
    }

    /** Inside `paging_unmap`, with the tables of `v` below `level` dealt with. */
    ghost predicate Pruned(v: nat, level: nat, client: set<nat>)
      reads this, tablePages, pmm, pmm.eligible, pmm.inUse
      ensures Pruned(v, level, client) ==> pmm.Valid() && Storage() && tableCount <= tablePages.Length && level <= 3
    {
      && active && pmm.Valid() && Storage() && Intact()
      && Booked(tree, root, Registry(), pmm.Allocated(), pmm.Eligible())
      && Climbing(tree, boot, v, level)
      && ClientFrames() == client
    }

    lemma OpenPruned(v: nat, level: nat, client: set<nat>)
      requires Pruned(v, level, client) && 1 <= level && At(v, level) in tree.tables
      ensures Intact() && At(v, level).level > 0 && Up(At(v, level)) == At(v, level - 1)
      ensures Slot(At(v, level)) == v / Span(level) % 512
      ensures NoDuplicates(Registry()) && tree.tables[At(v, level)] in Registry() && tree.tables[At(v, level)] in pmm.Allocated()
      ensures Shaped(tree) && At(v, level) != ROOT && tree.tables[ROOT] == root
    {
      UpOfAt(v, level);
      RegistryHas(tree, At(v, level), root, Registry(), pmm.Allocated(), pmm.Eligible());
    }

    lemma ClosePruned(was: Tree, all: seq<nat>, held: set<nat>, i: nat, v: nat, level: nat, client: set<nat>)
      requires active && pmm.Valid() && Storage() && Intact() && 1 <= level <= 3
      requires Booked(was, root, all, held, pmm.Eligible()) && Shaped(was) && client == held - was.tables.Values
      requires At(v, level) in was.tables && At(v, level) != ROOT && was.tables[ROOT] == root
      requires i < |all| && all[i] == was.tables[At(v, level)] && Registry() == SwapRemove(all, i)
      requires pmm.Allocated() == held - {was.tables[At(v, level)]}
      requires tree == was.(tables := was.tables - {At(v, level)}) && Climbing(tree, boot, v, level - 1)
      ensures Pruned(v, level - 1, client)
    {
      hide Booked, Shaped, Climbing, At, SwapRemove, PageAllocator.Valid, Stored, Coherent;
      ReleasedBooked(was, At(v, level), root, all, i, held, pmm.Eligible());
    }

    /** Unlinks and releases an empty table. */
    method PruneTable(address: u64, v: nat, level: nat, parent: nat, table: nat, ghost client: set<nat>)
      requires Pruned(v, level, client) && 1 <= level && v == PageOf(address)
      requires At(v, level) in tree.tables && tree.tables[At(v, level)] == table
      requires At(v, level - 1) in tree.tables && tree.tables[At(v, level - 1)] == parent
      requires table < PAGE_COUNT && Blank(ram, table)
      modifies this`ram, this`tree, this`cache, this`tableCount, tablePages, pmm`freePages, pmm`cursor, pmm.inUse
      ensures Pruned(v, level - 1, client) && pmm.Eligible() == old(pmm.Eligible())
      ensures tree == old(tree).(tables := old(tree).tables - {At(v, level)})
      ensures Spares(old(ram), ram, old(tree.tables.Values))
    {
      hide PageTables.Intact, PageTables.Storage;
      hide Stored, Shaped, Coherent, Blank, PageAllocator.Valid, Climbing, Booked, At, Up, Slot, Spares, NoDuplicates, SwapRemove;
      ghost var c, was, all, held := At(v, level), tree, Registry(), pmm.Allocated();
      OpenPruned(v, level, client);
      PruneClimb(v, level, client);
      Unlink(parent, IndexOf(address, level - 1), v, c);
      ReleaseTable(table);
      ghost var i :| 0 <= i < |all| && all[i] == table && Registry() == SwapRemove(all, i);
      ClosePruned(was, all, held, i, v, level, client);
    }

    lemma PruneClimb(v: nat, level: nat, client: set<nat>)
      requires Pruned(v, level, client) && 1 <= level && At(v, level) in tree.tables
      requires tree.tables[At(v, level)] < PAGE_COUNT && Blank(ram, tree.tables[At(v, level)])
      ensures Climbing(tree.(tables := tree.tables - {At(v, level)}), boot, v, level - 1)
    {
      hide Booked, Blank, Climbing, At;
      ClimbOne(ram, tree, boot, v, level);
    }

    lemma OpenValid()
      requires Valid()
      ensures active && Intact() && Stored(ram, tree) && Shaped(tree) && tree.tables[ROOT] == root
      ensures Booked(tree, root, Registry(), pmm.Allocated(), pmm.Eligible()) && Balanced(tree, boot)
    {
    }

    lemma StartPruning(was: Tree, v: nat, client: set<nat>)
      requires active && pmm.Valid() && Storage() && Intact()
      requires Booked(was, root, Registry(), pmm.Allocated(), pmm.Eligible()) && Balanced(was, boot)
      requires v < VIRTUAL_PAGES && InWindow(v) && v in was.leaves
      requires tree == was.(leaves := was.leaves - {v}) && client == pmm.Allocated() - was.tables.Values
      ensures Pruned(v, 3, client)
    {
      hide Booked, Balanced, Climbing;
      pmm.EligibleManaged();
      StartClimb(was, boot, v);
      WithoutLeafBooked(was, v, root, Registry(), pmm.Allocated(), pmm.Eligible());
    }

    lemma StopPruning(v: nat, level: nat, i: nat, client: set<nat>)
      requires Pruned(v, level, client) && 1 <= level
      requires At(v, level) in tree.tables && tree.tables[At(v, level)] < PAGE_COUNT && i < ENTRIES
      requires ram[tree.tables[At(v, level)]][i] != ZERO
      ensures Valid() && ClientFrames() == client
    {
      hide Booked, Balanced, Climbing;
      StopClimb(ram, tree, boot, v, level, i);
    }

    lemma EndPruning(v: nat, client: set<nat>)
      requires Pruned(v, 0, client)
      ensures Valid() && ClientFrames() == client
    {
      hide Booked, Balanced, Climbing;
      ClimbDone(tree, boot, v);
    }

    lemma TablesBelow(v: nat)
      requires Intact()
      ensures forall k :: 0 <= k < 4 && At(v, k) in tree.tables ==> tree.tables[At(v, k)] < PAGE_COUNT
      ensures forall k :: 0 <= k < 4 && At(v, k) in tree.tables ==> tree.tables[At(v, k)] in tree.tables.Values
    {
    }

    /** `paging_unmap`, after its argument checks; `tables` is the path to the page. */
    method UnmapPage(address: u64, v: nat, tables: seq<nat>, ghost before: Tree, ghost client: set<nat>, ghost ram0: Ram)
      requires Valid() && v < VIRTUAL_PAGES && v == PageOf(address) && InWindow(v) && v in tree.leaves && |tables| == 4
      requires forall k :: 0 <= k < 4 ==> At(v, k) in tree.tables && tables[k] == tree.tables[At(v, k)]
      requires before == tree && client == ClientFrames() && ram0 == ram
      modifies this`ram, this`tree, this`cache, this`tableCount, tablePages, pmm`freePages, pmm`cursor, pmm.inUse
      ensures Valid() && pmm.Eligible() == old(pmm.Eligible())
      ensures tree.leaves == before.leaves - {v} && ClientFrames() == client && TablesStay(tree.tables, before.tables)
      ensures Spares(ram0, ram, before.tables.Values)
    {
      hide PageTables.Intact, PageTables.Valid, PageTables.Storage, PageTables.Pruned;
      hide Stored, Shaped, Coherent, Blank, PageAllocator.Valid, Booked, Balanced, At, Up, Spares;
      OpenValid();
      TablesBelow(v);
      EraseLeaf(tables[3], address, v);
      SparesMore(ram0, ram, {tables[3]}, before.tables.Values);
      StartPruning(before, v, client);
      var level := 3;
      while level > 0
        invariant 0 <= level <= 3 && Pruned(v, level, client) && pmm.Eligible() == old(pmm.Eligible())
        invariant tree.leaves == before.leaves - {v} && tree.tables.Values <= before.tables.Values
        invariant forall k :: 0 <= k <= level ==> At(v, k) in tree.tables && tables[k] == tree.tables[At(v, k)]
        invariant forall k :: 0 <= k < 4 ==> tables[k] < PAGE_COUNT
        invariant Spares(ram0, ram, before.tables.Values) && TablesStay(tree.tables, before.tables)
      {
        var entry := FirstEntry(tables[level]);
        if entry.Some? {
          StopPruning(v, level, entry.value, client);
          return;
        }
        ghost var between, values := ram, tree.tables.Values;
        DifferentLevels(v, level);
        PruneTable(address, v, level, tables[level - 1], tables[level], client);
        SparesBoth(ram0, between, ram, before.tables.Values, values, before.tables.Values);
        level := level - 1;
      }
      EndPruning(v, client);
    }

    /** `paging_unmap` */
    method Unmap(address: u64) returns (ok: bool)
      requires Valid()
      modifies this`ram, this`tree, this`cache, this`tableCount, tablePages, pmm`freePages, pmm`cursor, pmm.inUse
      ensures Valid() && pmm.Eligible() == old(pmm.Eligible())
      ensures ok <==> old(DynamicAddress(address)) && PageOf(address) in old(tree.leaves)
      ensures ok ==> tree.leaves == old(tree.leaves) - {PageOf(address)} && TablesStay(tree.tables, old(tree.tables))
      ensures !ok ==> tree == old(tree) && ram == old(ram) && Registry() == old(Registry()) && pmm.freePages == old(pmm.freePages)
      ensures ClientFrames() == old(ClientFrames())
      ensures Keeps(old(ram), ram, old(ClientFrames()))
    {
      hide PageTables.Intact, PageTables.Storage, Consistent, PageAllocator.Valid, Keeps, At, TablesStay;
      KeepsItself(ram, ClientFrames());
      OpenValid();
      if !DynamicAddress(address) { return false; }
      WindowPage(address);
      var v := PageOf(address);
      var path := Path(address, v);
      if path.None? { return false; }
      UnmapPage(address, v, path.value, tree, ClientFrames(), ram);
      SparesKeeps(old(ram), ram, old(tree.tables.Values), old(ClientFrames()));
      ok := true;
    }

    /** The leaf entry of a mapped page, as the tables hold it. */
    lemma LeafEntry(address: u64, v: nat)
      requires Intact() && v < VIRTUAL_PAGES && v == PageOf(address) && v in tree.leaves
      ensures At(v, 3) in tree.tables && tree.tables[At(v, 3)] < PAGE_COUNT && tree.leaves[v].frame < PAGE_COUNT
      ensures var to := tree.leaves[v];
        && IndexOf(address, 3) < ENTRIES && ram[tree.tables[At(v, 3)]][IndexOf(address, 3)] == LeafWord(to.frame, to.write, to.exec)
        && Encodable(LeafWord(to.frame, to.write, to.exec))
    {
      hide IndexOf;
      AtEnds(v);
      UpOfAt(v, 4);
      SlotStored(ram, tree, At(v, 4));
    }

    /** `paging_protect` */
    method Protect(address: u64, flags: nat) returns (ok: bool)
      requires Valid()
      modifies this`ram, this`tree, this`cache
      ensures Valid()
      ensures ok <==> old(DynamicAddress(address)) && flags <= 3 && PageOf(address) in old(tree.leaves)
      ensures ok ==> tree.leaves == old(tree.leaves)[PageOf(address) :=
        Translation(old(tree.leaves)[PageOf(address)].frame, flags % 2 == 1, flags / 2 == 1)]
      ensures tree.tables == old(tree.tables)
      ensures !ok ==> tree == old(tree) && ram == old(ram)
      ensures Keeps(old(ram), ram, old(ClientFrames()))
    {
      hide PageTables.Intact, PageTables.Storage, PageAllocator.Valid, Keeps, At, Booked, Balanced, Spares;
      hide LeafProtected, IndexOf, PageOf, UnknownFlags, Encodable;
      KeepsItself(ram, ClientFrames());
      OpenValid();
      if !DynamicAddress(address) || UnknownFlags(flags) { return false; }
      WindowPage(address);
      var v := PageOf(address);
      var path := Path(address, v);
      if path.None? { return false; }
      LeafEntry(address, v);
      TablesBelow(v);
      ghost var before := tree;
      var table := path.value[3];
      var leaf := LeafProtected(ram[table][IndexOf(address, 3)], flags);
      ghost var to := Translation(before.leaves[v].frame, flags % 2 == 1, flags / 2 == 1);
      WriteLeaf(table, address, v, leaf, to);
      pmm.EligibleManaged();
      ProtectedConsistent(before, v, to, boot, root, Registry(), pmm.Allocated(), pmm.Eligible());
      SparesKeeps(old(ram), ram, {table}, old(ClientFrames()));
      ok := true;
    }

    /** `paging_query`: the frame's address and the rights, in the encoding of the API. */
    method Query(address: u64) returns (r: Option<(nat, nat)>)
      requires Valid()
      ensures r.Some? <==> DynamicAddress(address) && PageOf(address) in tree.leaves
      ensures r.Some? ==> var to := tree.leaves[PageOf(address)];
        r.value == (to.frame * PAGE_SIZE, (if to.write then 1 else 0) + (if to.exec then 2 else 0))
    {
      hide PageTables.Intact, PageTables.Storage, PageAllocator.Valid, At, Booked, Balanced;
      hide FrameOf, ReportedRights, IndexOf, PageOf, Encodable;
      OpenValid();
      if !DynamicAddress(address) { return None; }
      WindowPage(address);
      var v := PageOf(address);
      var path := Path(address, v);
      if path.None? { return None; }
      LeafEntry(address, v);
      var entry := ram[path.value[3]][IndexOf(address, 3)];
      r := Some((FrameOf(entry) * PAGE_SIZE, ReportedRights(entry)));
    }
  }
}
