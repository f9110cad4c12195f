/**
  What the two memory managers amount to for their clients: a set of owned frames and a
  partial map from virtual pages to frames and rights. No tables, registry, bitmaps or
  caches are left; only their number still shows, in when memory runs out.
*/
module PlainPaging {
  import opened Bits
  import opened BootInformation
  import opened PhysicalPages
  import opened RadixTree
  import opened Entries
  import opened TableRegistry
  import opened TranslationCache
  import opened Accounting
  import opened Paging
  import opened Clients
  import opened IdentityMap
  import PagingInit

  datatype Plain = Plain(pages: map<nat, Translation>, owned: set<nat>)

  /** What never changes: the managed pages, and how many tables the identity half takes. */
  datatype Machine = Machine(eligible: set<nat>, identityTables: nat)

  datatype Op =
    | Alloc
    | Free(address: u64)
    | Map(address: u64, physical: u64, flags: nat)
    | Unmap(address: u64)
    | Protect(address: u64, flags: nat)
    | Query(address: u64)

  datatype Reply = Done(ok: bool) | Page(page: Option<nat>) | Found(entry: Option<(nat, nat)>)

  /** Pages that are left: every mapped page costs its share of tables. */
  ghost function Spare(m: Machine, s: Plain): int {
    |m.eligible| - m.identityTables - |s.owned| - |Spine(s.pages.Keys)|
  }

  /** How many more tables a set of mapped pages needs for one more page. */
  ghost function Growth(pages: set<nat>, v: nat): int {
    |Spine(pages + {v})| - |Spine(pages)|
  }

  predicate WindowAddress(address: u64) {
    address % PAGE_SIZE == 0 && address >= DYNAMIC_BASE && address - DYNAMIC_BASE < DYNAMIC_SIZE
  }

  ghost predicate Mappable(m: Machine, s: Plain, address: u64, physical: u64, flags: nat) {
    && WindowAddress(address) && flags <= 3
    && physical % PAGE_SIZE == 0 && physical / PAGE_SIZE in s.owned
    && PageOf(address) !in s.pages
    && Growth(s.pages.Keys, PageOf(address)) <= Spare(m, s)
    && m.identityTables + |Spine(s.pages.Keys + {PageOf(address)})| <= MAX_TABLES
  }

  /** Rights and frame as the API encodes them. */
  function Encoding(to: Translation): (nat, nat) {
    (to.frame * PAGE_SIZE, (if to.write then 1 else 0) + (if to.exec then 2 else 0))
  }

  /** The page that an address names, if it is a mapped page of the window. */
  ghost predicate MappedAt(s: Plain, address: u64) {
    WindowAddress(address) && PageOf(address) in s.pages
  }

  ghost function AfterMap(s: Plain, address: u64, physical: u64, flags: nat): Plain {
    s.(pages := s.pages[PageOf(address) := Target(physical, flags)])
  }

  ghost function AfterUnmap(s: Plain, address: u64): Plain {
    s.(pages := s.pages - {PageOf(address)})
  }

  ghost function AfterProtect(s: Plain, address: u64, flags: nat): Plain
    requires MappedAt(s, address)
  {
    s.(pages := s.pages[PageOf(address) := Translation(s.pages[PageOf(address)].frame, flags % 2 == 1, flags / 2 == 1)])
  }

  ghost function Answer(s: Plain, address: u64): Option<(nat, nat)> {
    if MappedAt(s, address) then Some(Encoding(s.pages[PageOf(address)])) else None
  }

  ghost predicate Allocates(m: Machine, s: Plain, page: Option<nat>, s': Plain) {
    if Spare(m, s) == 0 then s' == s && page == None
    else page.Some? && page.value in m.eligible - s.owned && s' == s.(owned := s.owned + {page.value})
  }

  /** One operation of the plain machine. Only which page `Alloc` returns is left open. */
  ghost predicate Steps(m: Machine, s: Plain, op: Op, s': Plain, reply: Reply) {
    match op
    case Alloc => reply.Page? && Allocates(m, s, reply.page, s')
    case Free(address) =>
      var ok := address % PAGE_SIZE == 0 && address / PAGE_SIZE in s.owned;
      reply == Done(ok) && s' == if ok then s.(owned := s.owned - {address / PAGE_SIZE}) else s
    case Map(address, physical, flags) =>
      var ok := Mappable(m, s, address, physical, flags);
      reply == Done(ok) && s' == if ok then AfterMap(s, address, physical, flags) else s
    case Unmap(address) =>
      var ok := MappedAt(s, address);
      reply == Done(ok) && s' == if ok then AfterUnmap(s, address) else s
    case Protect(address, flags) =>
      var ok := flags <= 3 && MappedAt(s, address);
      reply == Done(ok) && s' == if ok then AfterProtect(s, address, flags) else s
    case Query(address) =>
      reply == Found(Answer(s, address)) && s' == s
  }

  /**
    The client contract of kernel/paging.h: a managed page is freed only by its owner, and
    only without aliases. A managed page that is not owned might hold a page table.
  */
  ghost predicate Legal(m: Machine, s: Plain, op: Op) {
    op.Free? && op.address % PAGE_SIZE == 0 && op.address / PAGE_SIZE in m.eligible ==>
      op.address / PAGE_SIZE in s.owned && forall v :: v in s.pages ==> s.pages[v].frame != op.address / PAGE_SIZE
  }

  // ---------------------------------------------------------------- the abstraction

  ghost function WindowHalf(t: Tree): map<nat, Translation> {
    map v | v in t.leaves && InWindow(v) :: t.leaves[v]
  }

  ghost function IdentityHalf(t: Tree): map<nat, Translation> {
    map v | v in t.leaves && !InWindow(v) :: t.leaves[v]
  }

  ghost function Abstract(k: PageTables): Plain
    reads k`tree, k.pmm.inUse
    requires k.pmm.inUse.Length == WORD_COUNT
  {
    Plain(WindowHalf(k.tree), k.ClientFrames())
  }

  /** The real managers are in a good state that stands for `s`. */
  ghost predicate Represents(k: PageTables, m: Machine, identity: map<nat, Translation>, s: Plain)
    reads k, k.tablePages, k.pmm, k.pmm.eligible, k.pmm.inUse
    ensures Represents(k, m, identity, s) ==> k.Valid()
  {
    && k.Valid() && !k.interruptsEnabled
    && k.pmm.Eligible() == m.eligible && |k.boot| == m.identityTables
    && s == Abstract(k) && identity == IdentityHalf(k.tree)
  }

  lemma HalvesAfterSet(t: Tree, t': Tree, v: nat, to: Translation)
    requires InWindow(v) && t'.leaves == t.leaves[v := to]
    ensures WindowHalf(t') == WindowHalf(t)[v := to] && IdentityHalf(t') == IdentityHalf(t)
  {
  }

  lemma HalvesAfterDrop(t: Tree, t': Tree, v: nat)
    requires InWindow(v) && t'.leaves == t.leaves - {v}
    ensures WindowHalf(t') == WindowHalf(t) - {v} && IdentityHalf(t') == IdentityHalf(t)
  {
  }

  /** The counters of the real managers, in terms of the plain state. */
  lemma Counted(k: PageTables, m: Machine, identity: map<nat, Translation>, s: Plain)
    requires Represents(k, m, identity, s)
    ensures Spare(m, s) == k.pmm.freePages
    ensures k.tableCount == m.identityTables + |Spine(s.pages.Keys)|
  {
    hide PageTables.Valid;
    ExactAccounting(k);
    assert s.pages.Keys == WindowPages(k.tree);
  }

  /** The real test for room is the plain one. */
  lemma RoomCounted(k: PageTables, m: Machine, identity: map<nat, Translation>, s: Plain, v: nat)
    requires Represents(k, m, identity, s) && v < VIRTUAL_PAGES && InWindow(v)
    ensures v in s.pages <==> v in k.tree.leaves
    ensures k.HasRoom(v) <==> v !in s.pages && Growth(s.pages.Keys, v) <= Spare(m, s)
                              && m.identityTables + |Spine(s.pages.Keys + {v})| <= MAX_TABLES
  {
    hide PageTables.Valid;
    Counted(k, m, identity, s);
    BooksAgree(k);
    assert s.pages.Keys == WindowPages(k.tree);
    WindowPathIsNotBoot(k.boot, v);
    MissingIsGrowth(k.tree.tables, k.boot, s.pages.Keys, v);
  }

  // ---------------------------------------------------------------- one operation refines one step

  lemma Opened(k: PageTables, m: Machine, identity: map<nat, Translation>, s: Plain)
    requires Represents(k, m, identity, s)
    ensures k.Valid() && !k.interruptsEnabled && k.active && k.pmm.Eligible() == m.eligible
    ensures s.pages == WindowHalf(k.tree) && s.owned == k.ClientFrames() && identity == IdentityHalf(k.tree)
    ensures |k.boot| == m.identityTables
    ensures s.owned == k.pmm.Allocated() - k.tree.tables.Values
  {
    hide PageTables.Valid;
    BooksAgree(k);
    k.OpenValid();
  }

  lemma Closed(k: PageTables, m: Machine, identity: map<nat, Translation>, s: Plain)
    requires k.Valid() && !k.interruptsEnabled && k.pmm.Eligible() == m.eligible
    requires s.pages == WindowHalf(k.tree) && s.owned == k.ClientFrames() && identity == IdentityHalf(k.tree)
    requires |k.boot| == m.identityTables
    ensures Represents(k, m, identity, s)
  {
    hide PageTables.Valid;
  }

  method DoAlloc(k: PageTables, ghost m: Machine, ghost identity: map<nat, Translation>, ghost s: Plain)
    returns (r: Option<nat>, ghost s': Plain)
    requires Represents(k, m, identity, s)
    modifies k.pmm`freePages, k.pmm`cursor, k.pmm.inUse
    ensures Represents(k, m, identity, s') && Allocates(m, s, r, s') && Steps(m, s, Alloc, s', Page(r))
  {
    hide PageTables.Valid, PageTables.ClientFrames, PageAllocator.Allocated, PageAllocator.Eligible, Represents, Spare;
    Opened(k, m, identity, s);
    Counted(k, m, identity, s);
    r := AllocPage(k);
    s' := if r.Some? then s.(owned := s.owned + {r.value}) else s;
    Closed(k, m, identity, s');
  }

  lemma LegalFree(k: PageTables, m: Machine, identity: map<nat, Translation>, s: Plain, address: u64)
    requires Represents(k, m, identity, s) && Legal(m, s, Free(address))
    requires address % PAGE_SIZE == 0 && address / PAGE_SIZE in k.pmm.Allocated()
    ensures address / PAGE_SIZE !in k.tree.tables.Values && Unaliased(k.tree, address / PAGE_SIZE)
  {
    hide PageTables.Valid;
    Opened(k, m, identity, s);
    BooksAgree(k);
    forall v | v in k.tree.leaves && InWindow(v)
      ensures k.tree.leaves[v].frame != address / PAGE_SIZE
    {
      assert v in s.pages && s.pages[v] == k.tree.leaves[v];
    }
  }

  method DoFree(k: PageTables, address: u64, ghost m: Machine, ghost identity: map<nat, Translation>, ghost s: Plain)
    returns (ok: bool, ghost s': Plain)
    requires Represents(k, m, identity, s) && Legal(m, s, Free(address))
    modifies k.pmm`freePages, k.pmm`cursor, k.pmm.inUse
    ensures Represents(k, m, identity, s') && ok == (address % PAGE_SIZE == 0 && address / PAGE_SIZE in s.owned)
    ensures s' == if ok then s.(owned := s.owned - {address / PAGE_SIZE}) else s
    ensures Steps(m, s, Free(address), s', Done(ok))
  {
    hide PageTables.Valid, PageTables.ClientFrames, PageAllocator.Allocated, PageAllocator.Eligible, Represents, Unaliased;
    Opened(k, m, identity, s);
    if address % PAGE_SIZE == 0 && address / PAGE_SIZE in k.pmm.Allocated() { LegalFree(k, m, identity, s, address); }
    ok := FreePage(k, address);
    s' := if ok then s.(owned := s.owned - {address / PAGE_SIZE}) else s;
    SameFrames(k, s, ok);
    Closed(k, m, identity, s');
  }

  /** A refused call leaves the owned frames as they were. */
  lemma SameFrames(k: PageTables, s: Plain, ok: bool)
    requires k.Valid() && (ok || k.pmm.Allocated() - k.tree.tables.Values == s.owned)
    ensures ok || k.ClientFrames() == s.owned
  {
    hide PageTables.Valid;
    BooksAgree(k);
  }

  lemma MapCondition(k: PageTables, m: Machine, identity: map<nat, Translation>, s: Plain, address: u64, physical: u64, flags: nat)
    requires Represents(k, m, identity, s)
    ensures k.Acceptable(address, physical, flags) && k.HasRoom(PageOf(address)) <==> Mappable(m, s, address, physical, flags)
    ensures Mappable(m, s, address, physical, flags) ==> InWindow(PageOf(address))
  {
    hide PageTables.Valid, Represents, Growth, Spare, PageTables.HasRoom, InWindow, PageTables.ClientFrames;
    Opened(k, m, identity, s);
    if WindowAddress(address) {
      WindowPage(address);
      RoomCounted(k, m, identity, s, PageOf(address));
    }
  }

  method DoMap(k: PageTables, address: u64, physical: u64, flags: nat,
               ghost m: Machine, ghost identity: map<nat, Translation>, ghost s: Plain)
    returns (ok: bool, ghost s': Plain)
    requires Represents(k, m, identity, s)
    modifies k`ram, k`tree, k`cache, k`tableCount, k.tablePages, k.pmm`freePages, k.pmm`cursor, k.pmm.inUse
    ensures Represents(k, m, identity, s')
    ensures ok == Mappable(m, s, address, physical, flags)
    ensures s' == if ok then AfterMap(s, address, physical, flags) else s
    ensures Steps(m, s, Map(address, physical, flags), s', Done(ok))
    ensures Keeps(old(k.ram), k.ram, s.owned)
  {
    hide PageTables.Valid, PageTables.ClientFrames, PageAllocator.Allocated, PageAllocator.Eligible, Represents, Mappable;
    hide PageTables.Acceptable, PageTables.HasRoom, WindowHalf, IdentityHalf, InWindow, Target, PageOf, TablesStay, Missing, Keeps;
    Opened(k, m, identity, s);
    MapCondition(k, m, identity, s, address, physical, flags);
    ghost var before := k.tree;
    ok := k.Map(address, physical, flags);
    s' := s;
    if ok {
      s' := s.(pages := s.pages[PageOf(address) := Target(physical, flags)]);
      HalvesAfterSet(before, k.tree, PageOf(address), Target(physical, flags));
    }
    Closed(k, m, identity, s');
  }

  lemma MappedPage(k: PageTables, m: Machine, identity: map<nat, Translation>, s: Plain, address: u64)
    requires Represents(k, m, identity, s)
    ensures k.DynamicAddress(address) <==> WindowAddress(address)
    ensures WindowAddress(address) ==> InWindow(PageOf(address))
    ensures WindowAddress(address) ==> (PageOf(address) in s.pages <==> PageOf(address) in k.tree.leaves)
    ensures WindowAddress(address) && PageOf(address) in s.pages ==> s.pages[PageOf(address)] == k.tree.leaves[PageOf(address)]
  {
    hide PageTables.Valid, Represents;
    Opened(k, m, identity, s);
    if WindowAddress(address) { WindowPage(address); }
  }

  method DoUnmap(k: PageTables, address: u64, ghost m: Machine, ghost identity: map<nat, Translation>, ghost s: Plain)
    returns (ok: bool, ghost s': Plain)
    requires Represents(k, m, identity, s)
    modifies k`ram, k`tree, k`cache, k`tableCount, k.tablePages, k.pmm`freePages, k.pmm`cursor, k.pmm.inUse
    ensures Represents(k, m, identity, s')
    ensures ok == MappedAt(s, address) && s' == if ok then AfterUnmap(s, address) else s
    ensures Steps(m, s, Unmap(address), s', Done(ok))
    ensures Keeps(old(k.ram), k.ram, s.owned)
  {
    hide PageTables.Valid, PageTables.ClientFrames, PageAllocator.Allocated, PageAllocator.Eligible, Represents;
    hide PageTables.DynamicAddress, WindowHalf, IdentityHalf, InWindow, WindowAddress, PageOf, TablesStay, Keeps;
    Opened(k, m, identity, s);
    MappedPage(k, m, identity, s, address);
    ghost var before := k.tree;
    ok := k.Unmap(address);
    s' := s;
    if ok {
      s' := s.(pages := s.pages - {PageOf(address)});
      HalvesAfterDrop(before, k.tree, PageOf(address));
    }
    Closed(k, m, identity, s');
  }

  method DoProtect(k: PageTables, address: u64, flags: nat, ghost m: Machine, ghost identity: map<nat, Translation>, ghost s: Plain)
    returns (ok: bool, ghost s': Plain)
    requires Represents(k, m, identity, s)
    modifies k`ram, k`tree, k`cache
    ensures Represents(k, m, identity, s')
    ensures ok == (flags <= 3 && MappedAt(s, address)) && s' == if ok then AfterProtect(s, address, flags) else s
    ensures Steps(m, s, Protect(address, flags), s', Done(ok))
    ensures Keeps(old(k.ram), k.ram, s.owned)
  {
    hide PageTables.Valid, PageAllocator.Allocated, PageAllocator.Eligible, Represents;
    hide PageTables.DynamicAddress, WindowHalf, IdentityHalf, InWindow, WindowAddress, PageOf, Keeps;
    Opened(k, m, identity, s);
    MappedPage(k, m, identity, s, address);
    ghost var before := k.tree;
    ok := k.Protect(address, flags);
    s' := s;
    if ok {
      ghost var to := Translation(s.pages[PageOf(address)].frame, flags % 2 == 1, flags / 2 == 1);
      s' := s.(pages := s.pages[PageOf(address) := to]);
      HalvesAfterSet(before, k.tree, PageOf(address), to);
    }
    Closed(k, m, identity, s');
  }

  method DoQuery(k: PageTables, address: u64, ghost m: Machine, ghost identity: map<nat, Translation>, ghost s: Plain)
    returns (r: Option<(nat, nat)>)
    requires Represents(k, m, identity, s)
    ensures r == Answer(s, address) && Steps(m, s, Query(address), s, Found(r))
  {
    hide PageTables.Valid, PageTables.ClientFrames, Represents, PageTables.DynamicAddress, WindowHalf, IdentityHalf, WindowAddress, PageOf;
    Opened(k, m, identity, s);
    MappedPage(k, m, identity, s, address);
    r := k.Query(address);
  }

  /** Every operation of the real managers is a step of the plain machine, and spares what clients hold. */
  method Perform(k: PageTables, op: Op, ghost m: Machine, ghost identity: map<nat, Translation>, ghost s: Plain)
    returns (reply: Reply, ghost s': Plain)
    requires Represents(k, m, identity, s) && Legal(m, s, op)
    modifies k`ram, k`tree, k`cache, k`tableCount, k.tablePages, k.pmm`freePages, k.pmm`cursor, k.pmm.inUse
    ensures Represents(k, m, identity, s') && Steps(m, s, op, s', reply)
    ensures Keeps(old(k.ram), k.ram, s.owned)
  {
    hide Represents, Legal, Keeps, Steps, Allocates, Mappable, MappedAt, AfterMap, AfterUnmap, AfterProtect, Answer;
    KeepsItself(k.ram, s.owned);
    var ok, page, entry;
    match op {
      case Alloc =>
        page, s' := DoAlloc(k, m, identity, s);
        reply := Page(page);
      case Free(address) =>
        ok, s' := DoFree(k, address, m, identity, s);
        reply := Done(ok);
      case Map(address, physical, flags) =>
        ok, s' := DoMap(k, address, physical, flags, m, identity, s);
        reply := Done(ok);
      case Unmap(address) =>
        ok, s' := DoUnmap(k, address, m, identity, s);
        reply := Done(ok);
      case Protect(address, flags) =>
        ok, s' := DoProtect(k, address, flags, m, identity, s);
        reply := Done(ok);
      case Query(address) =>
        entry := DoQuery(k, address, m, identity, s);
        reply, s' := Found(entry), s;
    }
  }

  // ---------------------------------------------------------------- what that means

  /** What the processor finds: the plain map in the window, the unchanging identity half elsewhere. */
  ghost function Seen(identity: map<nat, Translation>, s: Plain, v: nat): Option<Translation> {
    if v in s.pages then Some(s.pages[v]) else if v in identity then Some(identity[v]) else None
  }

  lemma TranslationsSeen(k: PageTables, m: Machine, identity: map<nat, Translation>, s: Plain, v: nat)
    requires Represents(k, m, identity, s) && v < VIRTUAL_PAGES
    ensures Walk(k.ram, k.root, v, 4) == Seen(identity, s, v)
    ensures forall e :: e in k.cache && e.pos == Pos(4, v) ==> Seen(identity, s, v) == Some(e.to)
  {
    hide PageAllocator.Valid, Booked, Balanced;
    k.OpenValid();
    WalkFollowsTree(k.ram, k.tree, v, 4);
    AtEnds(v);
    forall e | e in k.cache && e.pos == Pos(4, v)
      ensures Seen(identity, s, v) == Some(e.to)
    {
      assert Agrees(e, k.tree);
    }
  }

  /** Mapped window pages are backed by owned frames, owned frames are managed, memory adds up. */
  ghost predicate Backed(m: Machine, s: Plain) {
    && (forall v :: v in s.pages ==> v < VIRTUAL_PAGES && InWindow(v) && s.pages[v].frame in s.owned)
    && s.owned <= m.eligible && Spare(m, s) >= 0
    && m.identityTables + |Spine(s.pages.Keys)| <= MAX_TABLES
  }

  lemma RepresentedIsBacked(k: PageTables, m: Machine, identity: map<nat, Translation>, s: Plain)
    requires Represents(k, m, identity, s)
    ensures Backed(m, s)
  {
    hide PageTables.Valid, Registers, SelfSupporting, Spine;
    Opened(k, m, identity, s);
    Counted(k, m, identity, s);
    BooksAgree(k);
    k.OpenValid();
    WindowIsBacked(k.tree, k.pmm.Allocated());
    k.RegistryLength();
  }

  lemma WindowIsBacked(t: Tree, held: set<nat>)
    requires Shaped(t) && LeavesOwned(t, held)
    ensures forall v :: v in WindowHalf(t) ==> v < VIRTUAL_PAGES && InWindow(v) && WindowHalf(t)[v].frame in held - t.tables.Values
  {
  }

  // ---------------------------------------------------------------- loads and stores

  lemma SeenAt(k: PageTables, m: Machine, identity: map<nat, Translation>, s: Plain, v: nat)
    requires Represents(k, m, identity, s) && v < VIRTUAL_PAGES
    ensures k.Valid() && !k.interruptsEnabled
    ensures v in k.tree.leaves <==> Seen(identity, s, v).Some?
    ensures v in k.tree.leaves ==> Seen(identity, s, v).value == k.tree.leaves[v]
  {
    hide PageTables.Valid;
    Opened(k, m, identity, s);
  }

  /** A load through any page; `None` is the fault of a page that is not mapped. */
  method DoLoad(k: PageTables, v: nat, index: nat, ghost m: Machine, ghost identity: map<nat, Translation>, ghost s: Plain)
    returns (r: Option<Word>)
    requires Represents(k, m, identity, s) && v < VIRTUAL_PAGES && index < ENTRIES
    modifies k`cache
    ensures Represents(k, m, identity, s)
    ensures var t := Seen(identity, s, v);
      if t.None? then r == None else t.value.frame < PAGE_COUNT && r == Some(k.ram[t.value.frame][index])
  {
    hide Represents, PageTables.Valid, Seen;
    SeenAt(k, m, identity, s, v);
    Opened(k, m, identity, s);
    r := Load(k, v, index);
    Closed(k, m, identity, s);
  }

  /** An instruction fetch through any page; `None` is a fault. */
  method DoFetch(k: PageTables, v: nat, index: nat, ghost m: Machine, ghost identity: map<nat, Translation>, ghost s: Plain)
    returns (r: Option<Word>)
    requires Represents(k, m, identity, s) && v < VIRTUAL_PAGES && index < ENTRIES
    modifies k`cache
    ensures Represents(k, m, identity, s)
    ensures r.Some? <==> Seen(identity, s, v).Some? && Seen(identity, s, v).value.exec
  {
    hide Represents, PageTables.Valid, Seen;
    SeenAt(k, m, identity, s, v);
    Opened(k, m, identity, s);
    r := Fetch(k, v, index);
    Closed(k, m, identity, s);
  }

  /** A store to an owned frame, through any page; `false` is a fault. */
  method DoStore(k: PageTables, v: nat, index: nat, word: Word,
                 ghost m: Machine, ghost identity: map<nat, Translation>, ghost s: Plain) returns (ok: bool)
    requires Represents(k, m, identity, s) && v < VIRTUAL_PAGES && index < ENTRIES
    requires Seen(identity, s, v).Some? && Seen(identity, s, v).value.write ==> Seen(identity, s, v).value.frame in s.owned
    modifies k`ram, k`cache
    ensures Represents(k, m, identity, s)
    ensures ok <==> Seen(identity, s, v).Some? && Seen(identity, s, v).value.write
    ensures ok ==> Seen(identity, s, v).value.frame < PAGE_COUNT
                   && k.ram == Write(old(k.ram), Seen(identity, s, v).value.frame, index, word)
    ensures !ok ==> k.ram == old(k.ram)
  {
    hide Represents, PageTables.Valid, Seen, PageTables.ClientFrames;
    SeenAt(k, m, identity, s, v);
    Opened(k, m, identity, s);
    ok := Store(k, v, index, word);
    Closed(k, m, identity, s);
  }

  lemma WindowIsOwned(k: PageTables, m: Machine, identity: map<nat, Translation>, s: Plain, v: nat)
    requires Represents(k, m, identity, s) && v in s.pages
    ensures s.pages[v].frame in s.owned && v < VIRTUAL_PAGES
  {
    hide Represents;
    RepresentedIsBacked(k, m, identity, s);
  }

  // ---------------------------------------------------------------- what operations amount to

  /** On the plain machine, unmapping undoes mapping completely: nothing is leaked. */
  lemma UnmapUndoesMap(m: Machine, s: Plain, s1: Plain, s2: Plain, address: u64, physical: u64, flags: nat, reply: Reply)
    requires Steps(m, s, Map(address, physical, flags), s1, Done(true)) && Steps(m, s1, Unmap(address), s2, reply)
    ensures reply == Done(true) && s2 == s && Spare(m, s2) == Spare(m, s)
  {
    assert s.pages[PageOf(address) := Target(physical, flags)] - {PageOf(address)} == s.pages;
  }

  /** After `paging_map(a, p, f)` a query of `a` answers exactly `p` and `f`. */
  lemma QueryAnswersMap(m: Machine, s: Plain, s1: Plain, address: u64, physical: u64, flags: nat)
    requires Steps(m, s, Map(address, physical, flags), s1, Done(true))
    ensures Answer(s1, address) == Some((physical, flags))
  {
    hide Spine, Spare, Growth;
    assert physical / PAGE_SIZE * PAGE_SIZE == physical;
  }

  /**
    After a successful `paging_init` the machine is plain with an empty window: the identity
    half maps the RAM pages except the guards, each to itself with its section's rights.
  */
  lemma StartIsPlain(k: PageTables, info: BootInfo, layout: Layout)
    requires info.Readable() && WellFormedMap(info.Map()) && HandOff(info, layout) && !k.interruptsEnabled
    requires PagingInit.Started(k, info, layout) && k.pmm.Eligible() == UsablePages(info)
    ensures var m := Machine(UsablePages(info), Needed(RamPages(info.Map())));
      Represents(k, m, IdentityHalf(k.tree), Plain(map[], k.ClientFrames()))
    ensures MapsIdentically(Tree(k.tree.tables, IdentityHalf(k.tree)), layout,
                            RamPages(info.Map()) - GuardPages(Guards(info, layout)))
    ensures Needed(RamPages(info.Map())) <= 2054
  {
    hide HandOff, UsablePages, Guards, GuardPages, PageTables.Valid, PageTables.Intact, PageAllocator.Valid, Registers, Spine;
    var all := RamPages(info.Map());
    PagingInit.StartedIsValid(k, info, layout);
    IdentityTablesAreBoot(all);
    IdentityBudget(all);
    assert |{ROOT} + Spine(all)| == 1 + |Spine(all)|;
    NoneInWindow(k.tree, layout, all - GuardPages(Guards(info, layout)));
  }

  lemma NoneInWindow(t: Tree, layout: Layout, pages: set<nat>)
    requires MapsIdentically(t, layout, pages)
    ensures WindowHalf(t) == map[] && IdentityHalf(t) == t.leaves
  {
  }
}
