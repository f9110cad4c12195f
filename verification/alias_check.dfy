/**
  `check_aliases_and_permissions` (kernel/paging_check.c), proved on the plain machine that
  the two memory managers refine: aliases see each other's stores, changed rights and
  remapped pages take effect at once, and everything is given back.
*/
module AliasCheck {
  import opened Bits
  import opened BootInformation
  import opened PhysicalPages
  import opened RadixTree
  import opened Entries
  import opened Accounting
  import opened IdentityMap
  import opened Paging
  import opened Clients
  import opened PlainPaging
  import PagingCheck

  const OTHER_ADDRESS: u64 := DYNAMIC_BASE + 0x20_0000
  /** The window's first page, and the one two megabytes further up. */
  const FIRST: nat := 0x8_0000_0000
  const OTHER: nat := 0x8_0000_0200

  lemma CheckedPages()
    ensures PageOf(DYNAMIC_BASE) == FIRST < VIRTUAL_PAGES && PageOf(OTHER_ADDRESS) == OTHER < VIRTUAL_PAGES
    ensures WindowAddress(DYNAMIC_BASE) && WindowAddress(OTHER_ADDRESS) && InWindow(FIRST) && InWindow(OTHER)
  {
  }

  /** The two pages share all tables but the last. */
  lemma CheckedTables()
    ensures |Spine({})| == 0 && |Spine({FIRST})| == 3 && |Spine({OTHER})| == 3 && |Spine({FIRST, OTHER})| == 4
  {
    hide Spine;
    FirstTables();
    OtherTables();
    SpineOfUnion({FIRST}, {OTHER});
    assert {FIRST} + {OTHER} == {FIRST, OTHER};
    assert Spine({FIRST, OTHER}) == {Pos(1, 0x100), Pos(2, 0x2_0000), Pos(3, 0x400_0000), Pos(3, 0x400_0001)};
  }

  lemma FirstTables()
    ensures Spine({}) == {} && Spine({FIRST}) == {Pos(1, 0x100), Pos(2, 0x2_0000), Pos(3, 0x400_0000)}
  {
    assert Spine({}) == {};
    SpineOfOne(FIRST);
  }

  lemma OtherTables()
    ensures Spine({OTHER}) == {Pos(1, 0x100), Pos(2, 0x2_0000), Pos(3, 0x400_0001)}
  {
    SpineOfOne(OTHER);
  }

  // ---------------------------------------------------------------- loads and stores

  /** A load of a page's first word, where the processor can translate the page. */
  method LoadWord(k: PageTables, v: nat, ghost m: Machine, ghost identity: map<nat, Translation>, ghost s: Plain) returns (word: Word)
    requires Represents(k, m, identity, s) && v < VIRTUAL_PAGES && Seen(identity, s, v).Some?
    modifies k`cache
    ensures Represents(k, m, identity, s)
    ensures Seen(identity, s, v).value.frame < PAGE_COUNT && word == k.ram[Seen(identity, s, v).value.frame][0]
  {
    hide Represents, Seen;
    var r := DoLoad(k, v, 0, m, identity, s);
    word := r.value;
  }

  /** Owned frames can be reached at their own addresses. */
  lemma OwnedIsSeen(k: PageTables, m: Machine, identity: map<nat, Translation>, s: Plain, frame: nat)
    requires Represents(k, m, identity, s) && frame in s.owned
    ensures Managed(frame) && frame !in s.pages && Seen(identity, s, frame) == Some(Translation(frame, true, false))
  {
    hide PageTables.Valid, Represents;
    Opened(k, m, identity, s);
    RepresentedIsBacked(k, m, identity, s);
    SelfMapped(k, frame);
    SeenAt(k, m, identity, s, frame);
  }

  /** A mapping that is in order fails only for want of memory. */
  lemma MapCosts(m: Machine, s: Plain, address: u64, page: nat, frame: nat, flags: nat, cost: nat)
    requires WindowAddress(address) && PageOf(address) == page && page !in s.pages && flags <= 3
    requires frame in s.owned && frame < PAGE_COUNT
    requires |Spine(s.pages.Keys + {page})| == |Spine(s.pages.Keys)| + cost <= 4 && m.identityTables <= 2054
    ensures Mappable(m, s, address, frame * PAGE_SIZE, flags) <==> cost <= Spare(m, s)
  {
    hide Spine;
    assert frame * PAGE_SIZE % PAGE_SIZE == 0 && frame * PAGE_SIZE / PAGE_SIZE == frame;
  }

  // ---------------------------------------------------------------- rejects_invalid_mappings

  /** Frames that the checks expect to be refused: kernel text, constants, and two guards. */
  ghost predicate Unowned(s: Plain, layout: Layout, guard: u64) {
    && layout.textStart / PAGE_SIZE !in s.owned && layout.rodataStart / PAGE_SIZE !in s.owned
    && guard / PAGE_SIZE !in s.owned && layout.guardLow / PAGE_SIZE !in s.owned && 0 !in s.owned
  }

  method Refuse(k: PageTables, address: u64, physical: u64, flags: nat, ghost m: Machine,
                ghost identity: map<nat, Translation>, ghost s: Plain)
    returns (mapped: bool)
    requires Represents(k, m, identity, s) && !Mappable(m, s, address, physical, flags)
    modifies k`ram, k`tree, k`cache, k`tableCount, k.tablePages, k.pmm`freePages, k.pmm`cursor, k.pmm.inUse
    ensures !mapped && Represents(k, m, identity, s)
  {
    hide Represents, Mappable;
    ghost var s';
    mapped, s' := DoMap(k, address, physical, flags, m, identity, s);
  }

  method RejectsFrames(k: PageTables, layout: Layout, guard: u64, ghost m: Machine, ghost identity: map<nat, Translation>, ghost s: Plain)
    returns (ok: bool)
    requires Represents(k, m, identity, s) && Unowned(s, layout, guard)
    modifies k`ram, k`tree, k`cache, k`tableCount, k.tablePages, k.pmm`freePages, k.pmm`cursor, k.pmm.inUse
    ensures ok && Represents(k, m, identity, s)
  {
    hide Represents, Spare, Growth;
    var text := Refuse(k, DYNAMIC_BASE, layout.textStart, 1, m, identity, s);
    var rodata := Refuse(k, DYNAMIC_BASE, layout.rodataStart, 1, m, identity, s);
    var stack := Refuse(k, DYNAMIC_BASE, guard, 1, m, identity, s);
    var fault := Refuse(k, DYNAMIC_BASE, layout.guardLow, 1, m, identity, s);
    ok := !text && !rodata && !stack && !fault;
  }

  lemma BadAddresses()
    ensures !WindowAddress(0x10_0000) && !WindowAddress(DYNAMIC_BASE + 1)
    ensures !WindowAddress(DYNAMIC_BASE + DYNAMIC_SIZE) && !WindowAddress(0x8000_0000_0000)
  {
  }

  lemma BadAddress(m: Machine, s: Plain, address: u64, physical: u64)
    requires !WindowAddress(address)
    ensures !Mappable(m, s, address, physical, 0)
  {
  }

  /** The address arguments that `paging_map` has to refuse. */
  method RejectsAddresses(k: PageTables, physical: u64, ghost m: Machine, ghost identity: map<nat, Translation>, ghost s: Plain)
    returns (ok: bool)
    requires Represents(k, m, identity, s)
    modifies k`ram, k`tree, k`cache, k`tableCount, k.tablePages, k.pmm`freePages, k.pmm`cursor, k.pmm.inUse
    ensures ok && Represents(k, m, identity, s)
  {
    hide Represents, Mappable, WindowAddress;
    BadAddresses();
    BadAddress(m, s, 0x10_0000, physical);
    var low := Refuse(k, 0x10_0000, physical, 0, m, identity, s);
    BadAddress(m, s, DYNAMIC_BASE + 1, physical);
    var odd := Refuse(k, DYNAMIC_BASE + 1, physical, 0, m, identity, s);
    BadAddress(m, s, DYNAMIC_BASE + DYNAMIC_SIZE, physical);
    var high := Refuse(k, DYNAMIC_BASE + DYNAMIC_SIZE, physical, 0, m, identity, s);
    BadAddress(m, s, 0x8000_0000_0000, physical);
    var hole := Refuse(k, 0x8000_0000_0000, physical, 0, m, identity, s);
    ok := !low && !odd && !high && !hole;
  }

  lemma NextIsUnaligned(physical: u64)
    requires physical % PAGE_SIZE == 0
    ensures (physical + 1) % PAGE_SIZE == 1
  {
  }

  lemma BadFrames(m: Machine, s: Plain, physical: u64, odd: u64)
    requires odd % PAGE_SIZE != 0 && 0 !in s.owned
    ensures !Mappable(m, s, DYNAMIC_BASE, odd, 0)
    ensures !Mappable(m, s, DYNAMIC_BASE, 0, 0)
    ensures !Mappable(m, s, DYNAMIC_BASE, physical, 4)
  {
    hide Spare, Growth, WindowAddress, PageOf;
  }

  /** The frame and flag arguments that it has to refuse. */
  method RejectsFrameArguments(k: PageTables, physical: u64, ghost m: Machine, ghost identity: map<nat, Translation>, ghost s: Plain)
    returns (ok: bool)
    requires Represents(k, m, identity, s) && physical % PAGE_SIZE == 0 && physical < PMM_LIMIT && 0 !in s.owned
    modifies k`ram, k`tree, k`cache, k`tableCount, k.tablePages, k.pmm`freePages, k.pmm`cursor, k.pmm.inUse
    ensures ok && Represents(k, m, identity, s)
  {
    hide Represents, Mappable;
    var odd: u64 := physical + 1;
    NextIsUnaligned(physical);
    BadFrames(m, s, physical, odd);
    var oddFrame := Refuse(k, DYNAMIC_BASE, odd, 0, m, identity, s);
    var zero := Refuse(k, DYNAMIC_BASE, 0, 0, m, identity, s);
    var flags := Refuse(k, DYNAMIC_BASE, physical, 4, m, identity, s);
    ok := !oddFrame && !zero && !flags;
  }

  lemma NothingMapped(s: Plain)
    requires s.pages == map[]
    ensures !MappedAt(s, DYNAMIC_BASE) && Answer(s, DYNAMIC_BASE) == None
  {
  }

  /** With nothing mapped there is nothing to unmap, protect or find. */
  method RejectsUnmapped(k: PageTables, ghost m: Machine, ghost identity: map<nat, Translation>, ghost s: Plain) returns (ok: bool)
    requires Represents(k, m, identity, s) && s.pages == map[]
    modifies k`ram, k`tree, k`cache, k`tableCount, k.tablePages, k.pmm`freePages, k.pmm`cursor, k.pmm.inUse
    ensures ok && Represents(k, m, identity, s)
  {
    hide Represents, Keeps, MappedAt, Answer, AfterUnmap, AfterProtect, Steps, Spare, Mappable, WindowAddress, PageOf;
    hide PageAllocator.Allocated, PageAllocator.Eligible, PageAllocator.Valid, PageTables.Valid;
    NothingMapped(s);
    var unmapped, protected;
    ghost var s1, s2;
    unmapped, s1 := DoUnmap(k, DYNAMIC_BASE, m, identity, s);
    protected, s2 := DoProtect(k, DYNAMIC_BASE, 0, m, identity, s1);
    var entry := DoQuery(k, DYNAMIC_BASE, m, identity, s2);
    ok := !unmapped && !protected && entry.None?;
  }

  lemma ZeroUnowned(s: Plain, layout: Layout, guard: u64)
    requires Unowned(s, layout, guard)
    ensures 0 !in s.owned
  {
  }

  /** `rejects_invalid_mappings` */
  method RejectsInvalidMappings(k: PageTables, physical: u64, layout: Layout, guard: u64,
                                ghost m: Machine, ghost identity: map<nat, Translation>, ghost s: Plain)
    returns (ok: bool)
    requires Represents(k, m, identity, s) && Unowned(s, layout, guard) && s.pages == map[]
    requires physical % PAGE_SIZE == 0 && physical < PMM_LIMIT
    modifies k`ram, k`tree, k`cache, k`tableCount, k.tablePages, k.pmm`freePages, k.pmm`cursor, k.pmm.inUse
    ensures ok && Represents(k, m, identity, s)
  {
    hide Represents, Unowned;
    ZeroUnowned(s, layout, guard);
    var frames := RejectsFrames(k, layout, guard, m, identity, s);
    var addresses := RejectsAddresses(k, physical, m, identity, s);
    var arguments := RejectsFrameArguments(k, physical, m, identity, s);
    var unmapped := RejectsUnmapped(k, m, identity, s);
    ok := frames && addresses && arguments && unmapped;
  }

  // ---------------------------------------------------------------- the two pages under test

  /** The plain state in which at most the two pages are mapped. */
  ghost function Mapping(own: set<nat>, first: Option<Translation>, other: Option<Translation>): Plain {
    var pages: map<nat, Translation> := if first.Some? then map[FIRST := first.value] else map[];
    Plain(if other.Some? then pages[OTHER := other.value] else pages, own)
  }

  function Cost(first: Option<Translation>, other: Option<Translation>): nat {
    if first.None? && other.None? then 0 else if first.Some? && other.Some? then 4 else 3
  }

  lemma MappingCost(m: Machine, own: set<nat>, first: Option<Translation>, other: Option<Translation>)
    ensures |Spine(Mapping(own, first, other).pages.Keys)| == Cost(first, other)
    ensures Spare(m, Mapping(own, first, other)) == Spare(m, Mapping(own, None, None)) - Cost(first, other)
  {
    hide Spine;
    CheckedTables();
    assert Mapping(own, None, None).pages.Keys == {};
    var keys := Mapping(own, first, other).pages.Keys;
    assert keys == (if first.Some? then {FIRST} else {}) + (if other.Some? then {OTHER} else {});
    assert first.Some? && other.Some? ==> keys == {FIRST, OTHER};
    assert first.Some? && other.None? ==> keys == {FIRST};
    assert first.None? && other.Some? ==> keys == {OTHER};
    assert first.None? && other.None? ==> keys == {};
  }

  function Rights(frame: nat, flags: nat): Translation {
    Translation(frame, flags % 2 == 1, flags / 2 == 1)
  }

  lemma FirstMappable(m: Machine, own: set<nat>, other: Option<Translation>, frame: nat, flags: nat)
    requires frame in own && frame < PAGE_COUNT && flags <= 3 && m.identityTables <= 2054
    ensures var s := Mapping(own, None, other);
      && (Mappable(m, s, DYNAMIC_BASE, frame * PAGE_SIZE, flags) <==>
           Cost(Some(Rights(frame, flags)), other) <= Spare(m, Mapping(own, None, None)))
      && AfterMap(s, DYNAMIC_BASE, frame * PAGE_SIZE, flags) == Mapping(own, Some(Rights(frame, flags)), other)
  {
    hide Spine, Spare, Mappable, InWindow;
    var s, to := Mapping(own, None, other), Some(Rights(frame, flags));
    CheckedPages();
    MappingCost(m, own, None, other);
    MappingCost(m, own, to, other);
    assert s.pages.Keys + {FIRST} == Mapping(own, to, other).pages.Keys;
    MapCosts(m, s, DYNAMIC_BASE, FIRST, frame, flags, Cost(to, other) - Cost(None, other));
    assert Target(frame * PAGE_SIZE, flags) == Rights(frame, flags);
    assert AfterMap(s, DYNAMIC_BASE, frame * PAGE_SIZE, flags).pages == Mapping(own, to, other).pages;
  }

  lemma OtherMappable(m: Machine, own: set<nat>, first: Option<Translation>, frame: nat, flags: nat)
    requires frame in own && frame < PAGE_COUNT && flags <= 3 && m.identityTables <= 2054
    ensures var s := Mapping(own, first, None);
      && (Mappable(m, s, OTHER_ADDRESS, frame * PAGE_SIZE, flags) <==>
           Cost(first, Some(Rights(frame, flags))) <= Spare(m, Mapping(own, None, None)))
      && AfterMap(s, OTHER_ADDRESS, frame * PAGE_SIZE, flags) == Mapping(own, first, Some(Rights(frame, flags)))
  {
    hide Spine, Spare, Mappable, InWindow;
    var s, to := Mapping(own, first, None), Some(Rights(frame, flags));
    CheckedPages();
    MappingCost(m, own, first, None);
    MappingCost(m, own, first, to);
    assert s.pages.Keys + {OTHER} == Mapping(own, first, to).pages.Keys;
    MapCosts(m, s, OTHER_ADDRESS, OTHER, frame, flags, Cost(first, to) - Cost(first, None));
    assert Target(frame * PAGE_SIZE, flags) == Rights(frame, flags);
    assert AfterMap(s, OTHER_ADDRESS, frame * PAGE_SIZE, flags).pages == Mapping(own, first, to).pages;
  }

  lemma FirstMapped(own: set<nat>, first: Translation, other: Option<Translation>)
    ensures var s := Mapping(own, Some(first), other);
      && MappedAt(s, DYNAMIC_BASE) && AfterUnmap(s, DYNAMIC_BASE) == Mapping(own, None, other)
      && Answer(s, DYNAMIC_BASE) == Some(Encoding(first)) && s.pages[FIRST] == first && FIRST in s.pages
      && forall flags :: AfterProtect(s, DYNAMIC_BASE, flags) == Mapping(own, Some(Rights(first.frame, flags)), other)
    ensures !MappedAt(Mapping(own, None, other), DYNAMIC_BASE) && Answer(Mapping(own, None, other), DYNAMIC_BASE) == None
  {
    hide InWindow, WindowAddress, PageOf;
    var s := Mapping(own, Some(first), other);
    CheckedPages();
    assert AfterUnmap(s, DYNAMIC_BASE).pages == Mapping(own, None, other).pages;
    forall flags
      ensures AfterProtect(s, DYNAMIC_BASE, flags) == Mapping(own, Some(Rights(first.frame, flags)), other)
    {
      assert AfterProtect(s, DYNAMIC_BASE, flags).pages == Mapping(own, Some(Rights(first.frame, flags)), other).pages;
    }
  }

  lemma OtherMapped(own: set<nat>, first: Option<Translation>, other: Translation)
    ensures var s := Mapping(own, first, Some(other));
      && MappedAt(s, OTHER_ADDRESS) && AfterUnmap(s, OTHER_ADDRESS) == Mapping(own, first, None)
      && OTHER in s.pages && s.pages[OTHER] == other
  {
    hide InWindow, WindowAddress, PageOf;
    var s := Mapping(own, first, Some(other));
    CheckedPages();
    assert AfterUnmap(s, OTHER_ADDRESS).pages == Mapping(own, first, None).pages;
  }

  method SetFirst(k: PageTables, frame: nat, flags: nat, ghost m: Machine, ghost identity: map<nat, Translation>,
                  ghost own: set<nat>, ghost other: Option<Translation>) returns (ok: bool)
    requires Represents(k, m, identity, Mapping(own, None, other)) && frame in own && frame < PAGE_COUNT && flags <= 3
    requires m.identityTables <= 2054
    modifies k`ram, k`tree, k`cache, k`tableCount, k.tablePages, k.pmm`freePages, k.pmm`cursor, k.pmm.inUse
    ensures ok <==> Cost(Some(Rights(frame, flags)), other) <= Spare(m, Mapping(own, None, None))
    ensures Represents(k, m, identity, Mapping(own, if ok then Some(Rights(frame, flags)) else None, other))
    ensures Keeps(old(k.ram), k.ram, own)
  {
    hide Represents, Mappable, AfterMap, Steps, Keeps, Spare, Cost, Rights;
    FirstMappable(m, own, other, frame, flags);
    ghost var s';
    ok, s' := DoMap(k, DYNAMIC_BASE, frame * PAGE_SIZE, flags, m, identity, Mapping(own, None, other));
  }

  method SetOther(k: PageTables, frame: nat, flags: nat, ghost m: Machine, ghost identity: map<nat, Translation>,
                  ghost own: set<nat>, ghost first: Option<Translation>) returns (ok: bool)
    requires Represents(k, m, identity, Mapping(own, first, None)) && frame in own && frame < PAGE_COUNT && flags <= 3
    requires m.identityTables <= 2054
    modifies k`ram, k`tree, k`cache, k`tableCount, k.tablePages, k.pmm`freePages, k.pmm`cursor, k.pmm.inUse
    ensures ok <==> Cost(first, Some(Rights(frame, flags))) <= Spare(m, Mapping(own, None, None))
    ensures Represents(k, m, identity, Mapping(own, first, if ok then Some(Rights(frame, flags)) else None))
    ensures Keeps(old(k.ram), k.ram, own)
  {
    hide Represents, Mappable, AfterMap, Steps, Keeps, Spare, Cost, Rights;
    OtherMappable(m, own, first, frame, flags);
    ghost var s';
    ok, s' := DoMap(k, OTHER_ADDRESS, frame * PAGE_SIZE, flags, m, identity, Mapping(own, first, None));
  }

  /** A mapped page is not mapped over. */
  method RefuseSecond(k: PageTables, frame: nat, ghost m: Machine, ghost identity: map<nat, Translation>,
                      ghost own: set<nat>, ghost first: Translation, ghost other: Option<Translation>) returns (mapped: bool)
    requires Represents(k, m, identity, Mapping(own, Some(first), other)) && frame < PAGE_COUNT
    modifies k`ram, k`tree, k`cache, k`tableCount, k.tablePages, k.pmm`freePages, k.pmm`cursor, k.pmm.inUse
    ensures !mapped && Represents(k, m, identity, Mapping(own, Some(first), other))
  {
    hide Represents, Mappable;
    TakenAddress(m, own, first, other, frame * PAGE_SIZE);
    mapped := Refuse(k, DYNAMIC_BASE, frame * PAGE_SIZE, 0, m, identity, Mapping(own, Some(first), other));
  }

  lemma TakenAddress(m: Machine, own: set<nat>, first: Translation, other: Option<Translation>, physical: u64)
    ensures !Mappable(m, Mapping(own, Some(first), other), DYNAMIC_BASE, physical, 0)
  {
    hide Spare, Growth;
    CheckedPages();
  }

  method DropFirst(k: PageTables, ghost m: Machine, ghost identity: map<nat, Translation>,
                   ghost own: set<nat>, ghost first: Option<Translation>, ghost other: Option<Translation>) returns (ok: bool)
    requires Represents(k, m, identity, Mapping(own, first, other))
    modifies k`ram, k`tree, k`cache, k`tableCount, k.tablePages, k.pmm`freePages, k.pmm`cursor, k.pmm.inUse
    ensures ok <==> first.Some?
    ensures Represents(k, m, identity, Mapping(own, None, other)) && Keeps(old(k.ram), k.ram, own)
  {
    hide Represents, MappedAt, AfterUnmap, AfterProtect, Answer, Steps, Keeps;
    FirstMapped(own, if first.Some? then first.value else Rights(0, 0), other);
    ghost var s';
    ok, s' := DoUnmap(k, DYNAMIC_BASE, m, identity, Mapping(own, first, other));
  }

  method DropOther(k: PageTables, ghost m: Machine, ghost identity: map<nat, Translation>,
                   ghost own: set<nat>, ghost first: Option<Translation>, ghost other: Translation) returns (ok: bool)
    requires Represents(k, m, identity, Mapping(own, first, Some(other)))
    modifies k`ram, k`tree, k`cache, k`tableCount, k.tablePages, k.pmm`freePages, k.pmm`cursor, k.pmm.inUse
    ensures ok && Represents(k, m, identity, Mapping(own, first, None)) && Keeps(old(k.ram), k.ram, own)
  {
    hide Represents, MappedAt, AfterUnmap, AfterProtect, Answer, Steps, Keeps;
    OtherMapped(own, first, other);
    ghost var s';
    ok, s' := DoUnmap(k, OTHER_ADDRESS, m, identity, Mapping(own, first, Some(other)));
  }

  method ProtectFirst(k: PageTables, flags: nat, ghost m: Machine, ghost identity: map<nat, Translation>,
                      ghost own: set<nat>, ghost first: Translation, ghost other: Option<Translation>) returns (ok: bool)
    requires Represents(k, m, identity, Mapping(own, Some(first), other)) && flags <= 3
    modifies k`ram, k`tree, k`cache
    ensures ok && Represents(k, m, identity, Mapping(own, Some(Rights(first.frame, flags)), other))
    ensures Keeps(old(k.ram), k.ram, own)
  {
    hide Represents, MappedAt, AfterUnmap, AfterProtect, Answer, Steps, Keeps, Rights;
    FirstMapped(own, first, other);
    ghost var s';
    ok, s' := DoProtect(k, DYNAMIC_BASE, flags, m, identity, Mapping(own, Some(first), other));
  }

  method QueryFirst(k: PageTables, ghost m: Machine, ghost identity: map<nat, Translation>,
                    ghost own: set<nat>, ghost first: Option<Translation>, ghost other: Option<Translation>) returns (r: Option<(nat, nat)>)
    requires Represents(k, m, identity, Mapping(own, first, other))
    ensures r == if first.Some? then Some(Encoding(first.value)) else None
  {
    hide Represents, MappedAt, AfterUnmap, AfterProtect, Answer, Steps, Encoding;
    FirstMapped(own, if first.Some? then first.value else Rights(0, 0), other);
    r := DoQuery(k, DYNAMIC_BASE, m, identity, Mapping(own, first, other));
  }

  lemma FirstSeen(identity: map<nat, Translation>, own: set<nat>, first: Translation, other: Option<Translation>)
    ensures Seen(identity, Mapping(own, Some(first), other), FIRST) == Some(first)
    ensures FIRST in Mapping(own, Some(first), other).pages && Mapping(own, Some(first), other).pages[FIRST] == first
    ensures 0 < ENTRIES
  {
  }

  lemma WrittenWord(ram: Ram, page: nat, word: Word)
    requires page < PAGE_COUNT
    ensures Write(ram, page, 0, word)[page][0] == word && Spares(ram, Write(ram, page, 0, word), {page})
  {
  }

  /** `*alias = word` through the first page. */
  method StoreFirst(k: PageTables, word: Word, ghost m: Machine, ghost identity: map<nat, Translation>,
                    ghost own: set<nat>, ghost first: Translation, ghost other: Option<Translation>)
    returns (ok: bool)
    requires Represents(k, m, identity, Mapping(own, Some(first), other)) && first.write
    modifies k`ram, k`cache
    ensures ok && Represents(k, m, identity, Mapping(own, Some(first), other)) && first.frame < PAGE_COUNT
    ensures k.ram[first.frame][0] == word && Spares(old(k.ram), k.ram, {first.frame})
  {
    hide *;
    FirstMapped(own, first, other);
    CheckedPages();
    ghost var ram0 := k.ram;
    FirstSeen(identity, own, first, other);
    WindowIsOwned(k, m, identity, Mapping(own, Some(first), other), FIRST);
    ok := DoStore(k, FIRST, 0, word, m, identity, Mapping(own, Some(first), other));
    WrittenWord(ram0, first.frame, word);
  }

  method LoadFirst(k: PageTables, ghost m: Machine, ghost identity: map<nat, Translation>,
                   ghost own: set<nat>, ghost first: Translation, ghost other: Option<Translation>) returns (word: Word)
    requires Represents(k, m, identity, Mapping(own, Some(first), other))
    modifies k`cache
    ensures Represents(k, m, identity, Mapping(own, Some(first), other)) && first.frame < PAGE_COUNT
    ensures word == k.ram[first.frame][0]
  {
    hide Represents, MappedAt, AfterUnmap, AfterProtect, Answer;
    FirstMapped(own, first, other);
    word := LoadWord(k, FIRST, m, identity, Mapping(own, Some(first), other));
  }

  method LoadOther(k: PageTables, ghost m: Machine, ghost identity: map<nat, Translation>,
                   ghost own: set<nat>, ghost first: Option<Translation>, ghost other: Translation) returns (word: Word)
    requires Represents(k, m, identity, Mapping(own, first, Some(other)))
    modifies k`cache
    ensures Represents(k, m, identity, Mapping(own, first, Some(other))) && other.frame < PAGE_COUNT
    ensures word == k.ram[other.frame][0]
  {
    hide Represents, MappedAt, AfterUnmap;
    OtherMapped(own, first, other);
    word := LoadWord(k, OTHER, m, identity, Mapping(own, first, Some(other)));
  }

  /** A load through the identity mapping of an owned frame. */
  method LoadFrame(k: PageTables, frame: nat, ghost m: Machine, ghost identity: map<nat, Translation>, ghost s: Plain) returns (word: Word)
    requires Represents(k, m, identity, s) && frame in s.owned
    modifies k`cache
    ensures Represents(k, m, identity, s) && frame < PAGE_COUNT && word == k.ram[frame][0]
  {
    hide Represents, Seen;
    OwnedIsSeen(k, m, identity, s, frame);
    word := LoadWord(k, frame, m, identity, s);
  }

  // ---------------------------------------------------------------- the check

  const FIRST_WORD: nat := 0x1234_5678_9abc_def0

  lemma RightsFacts(p: nat)
    ensures Rights(p, 1).frame == p && Rights(p, 0).frame == p && Rights(p, 1).write
    ensures Encoding(Rights(p, 1)) == (p * PAGE_SIZE, 1) && Encoding(Rights(p, 0)).1 == 0
    ensures Cost(Some(Rights(p, 1)), None) == 3 && forall other :: Cost(Some(Rights(p, 1)), Some(other)) == 4
  {
  }

  /** A store through one page is seen through the other and at the frame itself. */
  method SeenEverywhere(k: PageTables, p: nat, ghost m: Machine, ghost identity: map<nat, Translation>,
                        ghost own: set<nat>) returns (ok: bool)
    requires Represents(k, m, identity, Mapping(own, Some(Rights(p, 1)), Some(Rights(p, 0)))) && p in own && p < PAGE_COUNT
    modifies k`ram, k`cache
    ensures ok && Represents(k, m, identity, Mapping(own, Some(Rights(p, 1)), Some(Rights(p, 0))))
  {
    hide *;
    RightsFacts(p);
    MappingOwns(own, Some(Rights(p, 1)), Some(Rights(p, 0)));
    var stored := StoreFirst(k, Decode(FIRST_WORD), m, identity, own, Rights(p, 1), Some(Rights(p, 0)));
    var direct := LoadFrame(k, p, m, identity, Mapping(own, Some(Rights(p, 1)), Some(Rights(p, 0))));
    var first := LoadFirst(k, m, identity, own, Rights(p, 1), Some(Rights(p, 0)));
    var other := LoadOther(k, m, identity, own, Some(Rights(p, 1)), Rights(p, 0));
    ok := stored && direct == first && other == first;
  }

  lemma MappingOwns(own: set<nat>, first: Option<Translation>, other: Option<Translation>)
    ensures Mapping(own, first, other).owned == own
  {
  }

  /** Two pages map the same frame. */
  method Aliasing(k: PageTables, p: nat, q: nat, ghost m: Machine, ghost identity: map<nat, Translation>, ghost own: set<nat>)
    returns (enough: bool, ok: bool)
    requires Represents(k, m, identity, Mapping(own, None, None)) && m.identityTables <= 2054
    requires p in own && q in own && p < PAGE_COUNT && q < PAGE_COUNT
    modifies k`ram, k`tree, k`cache, k`tableCount, k.tablePages, k.pmm`freePages, k.pmm`cursor, k.pmm.inUse
    ensures enough <==> Spare(m, Mapping(own, None, None)) >= 4
    ensures enough ==> ok && Represents(k, m, identity, Mapping(own, Some(Rights(p, 1)), Some(Rights(p, 0))))
  {
    hide *;
    RightsFacts(p);
    enough, ok := false, false;
    var mapped := SetFirst(k, p, 1, m, identity, own, None);
    if !mapped { return; }
    var again := RefuseSecond(k, q, m, identity, own, Rights(p, 1), None);
    enough := SetOther(k, p, 0, m, identity, own, Some(Rights(p, 1)));
    if !enough { return; }
    var seen := SeenEverywhere(k, p, m, identity, own);
    ok := !again && seen;
  }

  /** Rights can be queried, taken away and given back; then a store goes through again. */
  method Permissions(k: PageTables, p: nat, ghost m: Machine, ghost identity: map<nat, Translation>,
                     ghost own: set<nat>, ghost other: Option<Translation>)
    returns (ok: bool)
    requires Represents(k, m, identity, Mapping(own, Some(Rights(p, 1)), other)) && p < PAGE_COUNT
    modifies k`ram, k`tree, k`cache, k`tableCount, k.tablePages, k.pmm`freePages, k.pmm`cursor, k.pmm.inUse
    ensures ok && Represents(k, m, identity, Mapping(own, Some(Rights(p, 1)), other)) && k.ram[p][0] == Decode(42)
  {
    hide *;
    RightsFacts(p);
    var found := QueryFirst(k, m, identity, own, Some(Rights(p, 1)), other);
    var readOnly := ProtectFirst(k, 0, m, identity, own, Rights(p, 1), other);
    var changed := QueryFirst(k, m, identity, own, Some(Rights(p, 0)), other);
    var writable := ProtectFirst(k, 1, m, identity, own, Rights(p, 0), other);
    var stored := StoreFirst(k, Decode(42), m, identity, own, Rights(p, 1), other);
    ok := found == Some((p * PAGE_SIZE, 1)) && readOnly && changed.Some? && changed.value.1 == 0 && writable && stored;
  }

  /** The first page is unmapped, found to be gone, and mapped to another frame. */
  method Remap(k: PageTables, p: nat, q: nat, ghost m: Machine, ghost identity: map<nat, Translation>, ghost own: set<nat>)
    returns (ok: bool)
    requires Represents(k, m, identity, Mapping(own, Some(Rights(p, 1)), Some(Rights(p, 0)))) && m.identityTables <= 2054
    requires p in own && q in own && p < PAGE_COUNT && q < PAGE_COUNT && Spare(m, Mapping(own, None, None)) >= 4
    modifies k`ram, k`tree, k`cache, k`tableCount, k.tablePages, k.pmm`freePages, k.pmm`cursor, k.pmm.inUse
    ensures ok && Represents(k, m, identity, Mapping(own, Some(Rights(q, 1)), Some(Rights(p, 0))))
    ensures Keeps(old(k.ram), k.ram, own)
  {
    hide *;
    RightsFacts(q);
    ghost var ram0 := k.ram;
    var unmapped := DropFirst(k, m, identity, own, Some(Rights(p, 1)), Some(Rights(p, 0)));
    ghost var ram1 := k.ram;
    var found := QueryFirst(k, m, identity, own, None, Some(Rights(p, 0)));
    var again := DropFirst(k, m, identity, own, None, Some(Rights(p, 0)));
    ghost var ram2 := k.ram;
    KeptTwice(ram0, ram1, ram2, own);
    var mapped := SetFirst(k, q, 1, m, identity, own, Some(Rights(p, 0)));
    KeptTwice(ram0, ram2, k.ram, own);
    ok := unmapped && found.None? && !again && mapped;
  }

  lemma WordKept(ram: Ram, ram': Ram, kept: set<nat>, page: nat)
    requires Keeps(ram, ram', kept) && page in kept && page < PAGE_COUNT
    ensures |ram| == |ram'| == PAGE_COUNT && |ram[page]| == |ram'[page]| == ENTRIES && ENTRIES > 0 && ram'[page] == ram[page]
  {
  }

  lemma WordSpared(ram: Ram, ram': Ram, written: nat, page: nat)
    requires Spares(ram, ram', {written}) && page != written && page < PAGE_COUNT
    ensures |ram| == |ram'| == PAGE_COUNT && |ram[page]| == |ram'[page]| == ENTRIES && ENTRIES > 0 && ram'[page] == ram[page]
  {
  }

  /** After the page has been mapped to another frame, stores reach that frame only. */
  method Remapping(k: PageTables, p: nat, q: nat, ghost m: Machine, ghost identity: map<nat, Translation>, ghost own: set<nat>)
    returns (ok: bool)
    requires Represents(k, m, identity, Mapping(own, Some(Rights(p, 1)), Some(Rights(p, 0)))) && m.identityTables <= 2054
    requires p in own && q in own && p != q && p < PAGE_COUNT && q < PAGE_COUNT && k.ram[p][0] == Decode(42)
    requires Spare(m, Mapping(own, None, None)) >= 4
    modifies k`ram, k`tree, k`cache, k`tableCount, k.tablePages, k.pmm`freePages, k.pmm`cursor, k.pmm.inUse
    ensures ok && Represents(k, m, identity, Mapping(own, Some(Rights(q, 1)), Some(Rights(p, 0))))
  {
    hide *;
    RightsFacts(p);
    RightsFacts(q);
    MappingOwns(own, Some(Rights(q, 1)), Some(Rights(p, 0)));
    var remapped := Remap(k, p, q, m, identity, own);
    WordKept(old(k.ram), k.ram, own, p);
    ghost var ram1 := k.ram;
    var stored := StoreFirst(k, Decode(99), m, identity, own, Rights(q, 1), Some(Rights(p, 0)));
    WordSpared(ram1, k.ram, q, p);
    var second := LoadFrame(k, q, m, identity, Mapping(own, Some(Rights(q, 1)), Some(Rights(p, 0))));
    var first := LoadFrame(k, p, m, identity, Mapping(own, Some(Rights(q, 1)), Some(Rights(p, 0))));
    ok := remapped && stored && second == Decode(99) && first == Decode(42);
  }

  lemma MayFree(m: Machine, own: set<nat>, frame: nat)
    requires frame in own && frame < PAGE_COUNT
    ensures frame * PAGE_SIZE < U64 && frame * PAGE_SIZE / PAGE_SIZE == frame && frame * PAGE_SIZE % PAGE_SIZE == 0
    ensures Legal(m, Mapping(own, None, None), Free(frame * PAGE_SIZE))
    ensures var s := Mapping(own, None, None); s.(owned := s.owned - {frame}) == Mapping(own - {frame}, None, None)
  {
    assert frame * PAGE_SIZE / PAGE_SIZE == frame;
  }

  method GiveBack(k: PageTables, frame: nat, ghost m: Machine, ghost identity: map<nat, Translation>,
                  ghost own: set<nat>) returns (ok: bool)
    requires Represents(k, m, identity, Mapping(own, None, None)) && frame in own && frame < PAGE_COUNT
    modifies k.pmm`freePages, k.pmm`cursor, k.pmm.inUse
    ensures ok && Represents(k, m, identity, Mapping(own - {frame}, None, None))
  {
    hide Represents, Mapping, Legal, Steps;
    MayFree(m, own, frame);
    MappingOwns(own, None, None);
    ghost var s';
    ok, s' := DoFree(k, frame * PAGE_SIZE, m, identity, Mapping(own, None, None));
  }

  /** Everything is unmapped and given back. */
  method Release(k: PageTables, p: nat, q: nat, ghost m: Machine, ghost identity: map<nat, Translation>, ghost own: set<nat>)
    returns (ok: bool)
    requires Represents(k, m, identity, Mapping(own, Some(Rights(q, 1)), Some(Rights(p, 0))))
    requires p in own && q in own && p != q && p < PAGE_COUNT && q < PAGE_COUNT
    modifies k`ram, k`tree, k`cache, k`tableCount, k.tablePages, k.pmm`freePages, k.pmm`cursor, k.pmm.inUse
    ensures ok && Represents(k, m, identity, Mapping(own - {p} - {q}, None, None))
  {
    hide *;
    var first := DropFirst(k, m, identity, own, Some(Rights(q, 1)), Some(Rights(p, 0)));
    var other := DropOther(k, m, identity, own, None, Rights(p, 0));
    var freedP := GiveBack(k, p, m, identity, own);
    var freedQ := GiveBack(k, q, m, identity, own - {p});
    ok := first && other && freedP && freedQ;
  }

  /** Everything between taking the two frames and giving them back. */
  method CheckFrames(k: PageTables, p: nat, q: nat, layout: Layout, guard: u64,
                     ghost m: Machine, ghost identity: map<nat, Translation>, ghost own: set<nat>)
    returns (enough: bool, ok: bool)
    requires Represents(k, m, identity, Mapping(own, None, None)) && m.identityTables <= 2054
    requires p in own && q in own && p != q && p < PAGE_COUNT && q < PAGE_COUNT
    requires p * PAGE_SIZE < PMM_LIMIT && p * PAGE_SIZE % PAGE_SIZE == 0
    requires Unowned(Mapping(own, None, None), layout, guard)
    modifies k`ram, k`tree, k`cache, k`tableCount, k.tablePages, k.pmm`freePages, k.pmm`cursor, k.pmm.inUse
    ensures enough <==> Spare(m, Mapping(own, None, None)) >= 4
    ensures enough ==> ok && Represents(k, m, identity, Mapping(own - {p} - {q}, None, None))
  {
    hide *;
    NoPages(own, p);
    var rejected := RejectsInvalidMappings(k, p * PAGE_SIZE, layout, guard, m, identity, Mapping(own, None, None));
    var aliased;
    enough, aliased := Aliasing(k, p, q, m, identity, own);
    ok := false;
    if !enough { return; }
    var permitted := Permissions(k, p, m, identity, own, Some(Rights(p, 0)));
    var remapped := Remapping(k, p, q, m, identity, own);
    var released := Release(k, p, q, m, identity, own);
    ok := rejected && aliased && permitted && remapped && released;
  }

  lemma NoPages(own: set<nat>, p: nat)
    requires p * PAGE_SIZE < PMM_LIMIT
    ensures Mapping(own, None, None).pages == map[] && 0 <= p * PAGE_SIZE < 0x1_0000_0000_0000_0000
  {
  }

  /** None of the frames that the check expects to be refused is managed by the allocator. */
  ghost predicate Unmanaged(m: Machine, layout: Layout, guard: u64) {
    && layout.textStart / PAGE_SIZE !in m.eligible && layout.rodataStart / PAGE_SIZE !in m.eligible
    && guard / PAGE_SIZE !in m.eligible && layout.guardLow / PAGE_SIZE !in m.eligible
  }

  lemma TwoTaken(k: PageTables, m: Machine, identity: map<nat, Translation>, own: set<nat>, p: nat, q: nat, layout: Layout, guard: u64)
    requires Represents(k, m, identity, Mapping(own + {p} + {q}, None, None)) && Unmanaged(m, layout, guard)
    requires p !in own && q !in own + {p}
    ensures p < PAGE_COUNT && q < PAGE_COUNT && p != q && p * PAGE_SIZE < PMM_LIMIT && p * PAGE_SIZE % PAGE_SIZE == 0
    ensures Unowned(Mapping(own + {p} + {q}, None, None), layout, guard)
    ensures Spare(m, Mapping(own + {p} + {q}, None, None)) == Spare(m, Mapping(own, None, None)) - 2
    ensures own + {p} + {q} - {p} - {q} == own
  {
    hide Represents, PageTables.Valid, Spine;
    var s := Mapping(own + {p} + {q}, None, None);
    RepresentedIsBacked(k, m, identity, s);
    OwnedIsSeen(k, m, identity, s, p);
    OwnedIsSeen(k, m, identity, s, q);
    if 0 in s.owned { OwnedIsSeen(k, m, identity, s, 0); }
    OneMore(own, p);
    OneMore(own + {p}, q);
  }

  /** `pmm_alloc` with nothing mapped. */
  method TakeFrame(k: PageTables, ghost m: Machine, ghost identity: map<nat, Translation>, ghost own: set<nat>) returns (r: Option<nat>)
    requires Represents(k, m, identity, Mapping(own, None, None))
    modifies k.pmm`freePages, k.pmm`cursor, k.pmm.inUse
    ensures r.None? <==> Spare(m, Mapping(own, None, None)) == 0
    ensures r.None? ==> Represents(k, m, identity, Mapping(own, None, None))
    ensures r.Some? ==> r.value !in own && Represents(k, m, identity, Mapping(own + {r.value}, None, None))
  {
    hide Represents, Spare, Steps;
    ghost var s';
    r, s' := DoAlloc(k, m, identity, Mapping(own, None, None));
  }

  lemma OneTaken(m: Machine, own: set<nat>, p: nat)
    requires p !in own
    ensures Spare(m, Mapping(own + {p}, None, None)) == Spare(m, Mapping(own, None, None)) - 1
  {
    hide Spine;
    OneMore(own, p);
  }

  lemma Available(k: PageTables, m: Machine, identity: map<nat, Translation>, own: set<nat>)
    requires Represents(k, m, identity, Mapping(own, None, None))
    ensures Spare(m, Mapping(own, None, None)) == k.pmm.freePages
  {
    hide Represents, Spare;
    Counted(k, m, identity, Mapping(own, None, None));
  }

  /**
    `check_aliases_and_permissions` on an empty window: it succeeds exactly when six pages
    are free (two frames, three tables for the first page, one more for the other), and
    then leaves the plain state as it was. Checks that cannot fail are conjuncts of the
    result here, where the C code returns early.
  */
  method CheckAliasesAndPermissions(k: PageTables, layout: Layout, guard: u64,
                                    ghost m: Machine, ghost identity: map<nat, Translation>, ghost own: set<nat>)
    returns (ok: bool)
    requires Represents(k, m, identity, Mapping(own, None, None)) && m.identityTables <= 2054 && Unmanaged(m, layout, guard)
    modifies k`ram, k`tree, k`cache, k`tableCount, k.tablePages, k.pmm`freePages, k.pmm`cursor, k.pmm.inUse
    ensures ok <==> old(k.pmm.freePages) >= 6
    ensures ok ==> Represents(k, m, identity, Mapping(own, None, None)) && k.pmm.freePages == old(k.pmm.freePages)
  {
    hide *;
    Available(k, m, identity, own);
    var before := k.pmm.freePages;
    var first := TakeFrame(k, m, identity, own);
    if first.None? { return false; }
    var p := first.value;
    OneTaken(m, own, p);
    var second := TakeFrame(k, m, identity, own + {p});
    if second.None? { return false; }
    var q := second.value;
    TwoTaken(k, m, identity, own, p, q, layout, guard);
    var enough;
    enough, ok := CheckFrames(k, p, q, layout, guard, m, identity, own + {p} + {q});
    if !enough { return false; }
    Available(k, m, identity, own);
    ok := ok && k.pmm.freePages == before;
  }

  lemma EmptyWindow(k: PageTables, m: Machine, identity: map<nat, Translation>, own: set<nat>)
    requires Represents(k, m, identity, Mapping(own, None, None))
    ensures k.Valid() && !k.interruptsEnabled && WindowPages(k.tree) == {} && |k.boot| == m.identityTables
    ensures k.pmm.Eligible() == m.eligible && k.ClientFrames() == own && identity == IdentityHalf(k.tree)
    ensures WindowHalf(k.tree) == map[]
  {
    hide Represents, PageTables.Valid, PageTables.ClientFrames;
    Opened(k, m, identity, Mapping(own, None, None));
    assert WindowPages(k.tree) == WindowHalf(k.tree).Keys;
  }

  lemma StillEmpty(k: PageTables, m: Machine, identity: map<nat, Translation>, own: set<nat>, held: set<nat>, tree: Tree)
    requires k.Valid() && !k.interruptsEnabled && k.pmm.Eligible() == m.eligible && |k.boot| == m.identityTables
    requires k.tree == tree && k.pmm.Allocated() == held && own == held - tree.tables.Values
    requires identity == IdentityHalf(tree) && WindowHalf(tree) == map[]
    ensures Represents(k, m, identity, Mapping(own, None, None))
  {
    hide Represents, PageTables.Valid;
    BooksAgree(k);
    Closed(k, m, identity, Mapping(own, None, None));
  }

  /** `paging_boot_check`: both checks succeed exactly when six pages are free, and leave no trace. */
  method PagingBootCheck(k: PageTables, layout: Layout, guard: u64, ghost m: Machine,
                         ghost identity: map<nat, Translation>, ghost own: set<nat>)
    returns (ok: bool)
    requires Represents(k, m, identity, Mapping(own, None, None)) && m.identityTables <= 2054 && Unmanaged(m, layout, guard)
    modifies k`ram, k`tree, k`cache, k`tableCount, k.tablePages, k.pmm`freePages, k.pmm`cursor, k.pmm.inUse
    ensures ok <==> old(k.pmm.freePages) >= 6
    ensures ok ==> Represents(k, m, identity, Mapping(own, None, None)) && k.pmm.freePages == old(k.pmm.freePages)
  {
    hide *;
    ok := CheckAliasesAndPermissions(k, layout, guard, m, identity, own);
    if !ok { return false; }
    EmptyWindow(k, m, identity, own);
    BooksAgree(k);
    ghost var held, tree := k.pmm.Allocated(), k.tree;
    ok := PagingCheck.CheckFailedMapCleanup(k);
    StillEmpty(k, m, identity, own, held, tree);
  }
}
