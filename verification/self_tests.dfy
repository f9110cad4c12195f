/** The boot-time self-tests, as client programs (kernel/pmm_check.c, kernel/paging_check.c). */
module SelfTests {
  import opened Bits
  import opened BootInformation
  import opened PhysicalPages
  import opened RadixTree

  // ---------------------------------------------------------------- pmm_boot_check

  /** `pages[i] ^ j` */
  function Pattern(page: nat, j: nat): Word {
    Decode(Xor(page * PAGE_SIZE, j))
  }

  ghost predicate HoldsPattern(ram: Ram, page: nat)
    requires page < PAGE_COUNT
  {
    forall j :: 0 <= j < ENTRIES ==> ram[page][j] == Pattern(page, j)
  }

  method FillPattern(ram: Ram, page: nat) returns (ram': Ram)
    requires page < PAGE_COUNT
    ensures HoldsPattern(ram', page) && Spares(ram, ram', {page})
  {
    ram' := ram;
    for j := 0 to ENTRIES
      invariant forall k :: 0 <= k < j ==> ram'[page][k] == Pattern(page, k)
      invariant Spares(ram, ram', {page})
    {
      ram' := Write(ram', page, j, Pattern(page, j));
    }
  }

  method CheckPattern(ram: Ram, page: nat) returns (ok: bool)
    requires page < PAGE_COUNT
    ensures ok <==> HoldsPattern(ram, page)
  {
    for j := 0 to ENTRIES
      invariant forall k :: 0 <= k < j ==> ram[page][k] == Pattern(page, k)
    {
      if ram[page][j] != Pattern(page, j) { return false; }
    }
    ok := true;
  }

  /** After freeing the middle of the three lowest free pages, it is the lowest again. */
  lemma MiddleComesBack(free: set<nat>, a: nat, b: nat, c: nat, again: nat)
    requires Lowest(a, free) && Lowest(b, free - {a}) && Lowest(c, free - {a, b})
    requires Lowest(again, free - {a, c})
    ensures again == b
  {
    assert b in free - {a, c};
    assert again in free - {a};
  }

  /** The pages in `taken` have been handed out on top of `held`. */
  ghost predicate Holding(pmm: PageAllocator, eligible: set<nat>, held: set<nat>, free: nat, taken: set<nat>)
    reads pmm, pmm.eligible, pmm.inUse
    ensures Holding(pmm, eligible, held, free, taken) ==> pmm.Valid()
  {
    && pmm.Valid() && pmm.Eligible() == eligible
    && pmm.Allocated() == held + taken && held !! taken
    && pmm.freePages + |taken| == free
  }

  /** The first loop of `pmm_boot_check`: three pages, each filled as soon as it is taken. */
  method TakeThree(pmm: PageAllocator, ram: Ram, ghost eligible: set<nat>, ghost held: set<nat>, ghost free: nat)
    returns (a: nat, b: nat, c: nat, ram': Ram)
    requires Holding(pmm, eligible, held, free, {}) && free >= 3
    modifies pmm`freePages, pmm`cursor, pmm.inUse
    ensures Holding(pmm, eligible, held, free, {a, b, c})
    ensures Lowest(a, eligible - held) && Lowest(b, eligible - held - {a}) && Lowest(c, eligible - held - {a, b})
    ensures Managed(a) && Managed(b) && Managed(c)
    ensures HoldsPattern(ram', a) && HoldsPattern(ram', b) && HoldsPattern(ram', c)
    ensures Spares(ram, ram', {a, b, c})
  {
    hide PageAllocator.Valid, Holding, HoldsPattern, Spares;
    a := TakePage(pmm, eligible, held, free, {});
    assert {} + {a} == {a} && eligible - held - {} == eligible - held;
    ram' := FillPattern(ram, a);
    var ram1 := ram';
    b := TakePage(pmm, eligible, held, free, {a});
    assert eligible - held - {a} - {b} == eligible - held - {a, b};
    assert {a} + {b} == {a, b};
    ram' := FillPattern(ram', b);
    var ram2 := ram';
    PatternKept(ram1, ram2, {b}, a);
    SparesBoth(ram, ram1, ram2, {a}, {b}, {a, b});
    c := TakePage(pmm, eligible, held, free, {a, b});
    assert {a, b} + {c} == {a, b, c};
    ram' := FillPattern(ram', c);
    PatternKept(ram2, ram', {c}, a);
    PatternKept(ram2, ram', {c}, b);
    SparesBoth(ram, ram2, ram', {a, b}, {c}, {a, b, c});
  }

  lemma PatternKept(ram: Ram, ram': Ram, written: set<nat>, page: nat)
    requires page < PAGE_COUNT && HoldsPattern(ram, page) && Spares(ram, ram', written) && page !in written
    ensures HoldsPattern(ram', page)
  {
  }

  method TakePage(pmm: PageAllocator, ghost eligible: set<nat>, ghost held: set<nat>, ghost free: nat, ghost taken: set<nat>)
    returns (page: nat)
    requires Holding(pmm, eligible, held, free, taken) && |taken| < free
    modifies pmm`freePages, pmm`cursor, pmm.inUse
    ensures Holding(pmm, eligible, held, free, taken + {page})
    ensures Lowest(page, eligible - held - taken) && page !in taken && Managed(page)
  {
    hide PageAllocator.Valid;
    page := GrabPage(pmm);
    assert eligible - (held + taken) == eligible - held - taken;
    OneMore(taken, page);
  }

  method GivePage(pmm: PageAllocator, page: nat, ghost eligible: set<nat>, ghost held: set<nat>, ghost free: nat, ghost taken: set<nat>)
    returns (ok: bool)
    requires Holding(pmm, eligible, held, free, taken) && page < PAGE_COUNT && (page in taken || page !in held)
    modifies pmm`freePages, pmm`cursor, pmm.inUse
    ensures Holding(pmm, eligible, held, free, taken - {page})
    ensures ok <==> page in taken
  {
    hide PageAllocator.Valid;
    ok := pmm.Free(page * PAGE_SIZE);
    if ok {
      OneMore(taken - {page}, page);
      assert taken - {page} + {page} == taken;
    } else {
      assert taken - {page} == taken;
    }
  }

  /** The second half of `pmm_boot_check`: refusals, the page that comes back, and giving all back. */
  method GiveBack(pmm: PageAllocator, a: nat, b: nat, c: nat, ghost eligible: set<nat>, ghost held: set<nat>, free: nat)
    returns (ok: bool)
    requires Holding(pmm, eligible, held, free, {a, b, c}) && a != b && a != c && b != c && free >= 3
    requires Lowest(a, eligible - held) && Lowest(b, eligible - held - {a}) && Lowest(c, eligible - held - {a, b})
    requires Managed(a) && Managed(b) && Managed(c) && 0 !in held
    modifies pmm`freePages, pmm`cursor, pmm.inUse
    ensures ok && Holding(pmm, eligible, held, free, {})
  {
    hide PageAllocator.Valid, Lowest, Holding;
    Triples(a, b, c);
    NothingHeld(pmm, eligible, held, free, {a, b, c});
    var freedOdd := GiveOdd(pmm, a * PAGE_SIZE + 1, eligible, held, free, {a, b, c});
    var freedZero := GivePage(pmm, 0, eligible, held, free, {a, b, c});
    var freedB := GivePage(pmm, b, eligible, held, free, {a, b, c});
    var freedTwice := GivePage(pmm, b, eligible, held, free, {a, c});
    NothingHeld(pmm, eligible, held, free, {a, c});
    var again := TakePage(pmm, eligible, held, free, {a, c});
    assert eligible - held - {a, c} == (eligible - held) - {a, c};
    MiddleComesBack(eligible - held, a, b, c, again);
    var freedA := GivePage(pmm, a, eligible, held, free, {a, b, c});
    var freedAgain := GivePage(pmm, again, eligible, held, free, {b, c});
    var freedC := GivePage(pmm, c, eligible, held, free, {c});
    NothingHeld(pmm, eligible, held, free, {});
    ok := !freedOdd && !freedZero && freedB && !freedTwice && again == b && freedA && freedAgain && freedC
          && pmm.freePages == free;
  }

  lemma Triples(a: nat, b: nat, c: nat)
    requires a != b && a != c && b != c && a != 0 && b != 0 && c != 0
    ensures {a, b, c} - {0} == {a, b, c}
    ensures {a, b, c} - {b} == {a, c} && {a, c} - {b} == {a, c} && {a, c} + {b} == {a, b, c}
    ensures {a, b, c} - {a} == {b, c} && {b, c} - {b} == {c} && {c} - {c} == {}
    ensures |{a, c}| == 2
  {
  }

  lemma NothingHeld(pmm: PageAllocator, eligible: set<nat>, held: set<nat>, free: nat, taken: set<nat>)
    requires Holding(pmm, eligible, held, free, taken)
    ensures pmm.freePages + |taken| == free && |taken| <= free && held !! taken
  {
  }

  method GiveOdd(pmm: PageAllocator, address: u64, ghost eligible: set<nat>, ghost held: set<nat>, ghost free: nat, ghost taken: set<nat>)
    returns (ok: bool)
    requires Holding(pmm, eligible, held, free, taken) && address % PAGE_SIZE != 0
    modifies pmm`freePages, pmm`cursor, pmm.inUse
    ensures Holding(pmm, eligible, held, free, taken) && !ok
  {
    hide PageAllocator.Valid;
    ok := pmm.Free(address);
  }

  /**
    `pmm_boot_check` on memory that keeps what is written to it: it succeeds exactly when
    three pages are free, and leaves the allocator as it found it. That it gets the page it
    has just freed depends on first-fit allocation. Every check that makes the C code
    return early is a conjunct of the result here.
  */
  method PmmBootCheck(pmm: PageAllocator, ram: Ram) returns (ok: bool, ram': Ram)
    requires pmm.Valid()
    modifies pmm`freePages, pmm`cursor, pmm.inUse
    ensures pmm.Valid() && pmm.Eligible() == old(pmm.Eligible())
    ensures ok <==> old(pmm.freePages) >= 3
    ensures pmm.Allocated() == old(pmm.Allocated()) && pmm.freePages == old(pmm.freePages)
    ensures Spares(ram, ram', old(pmm.Eligible() - pmm.Allocated()))
  {
    hide PageAllocator.Valid, HoldsPattern, Spares;
    pmm.EligibleManaged();
    ghost var eligible, held := pmm.Eligible(), pmm.Allocated();
    SparesNothing(ram, eligible - held);
    var before := pmm.freePages;
    if before < 3 { return false, ram; }
    var a, b, c;
    a, b, c, ram' := TakeThree(pmm, ram, eligible, held, before);
    SparesMore(ram, ram', {a, b, c}, eligible - held);
    var keptA := CheckPattern(ram', a);
    var keptB := CheckPattern(ram', b);
    var keptC := CheckPattern(ram', c);
    ok := a != b && a != c && b != c && keptA && keptB && keptC && pmm.freePages == before - 3;
    var returned := GiveBack(pmm, a, b, c, eligible, held, before);
    ok := ok && returned;
  }

  /** `pmm_alloc` where a page is known to be free. */
  method GrabPage(pmm: PageAllocator) returns (page: nat)
    requires pmm.Valid() && pmm.freePages > 0
    modifies pmm`freePages, pmm`cursor, pmm.inUse
    ensures pmm.Valid() && pmm.Eligible() == old(pmm.Eligible())
    ensures Lowest(page, old(pmm.Eligible() - pmm.Allocated())) && Managed(page)
    ensures pmm.Allocated() == old(pmm.Allocated()) + {page} && pmm.freePages == old(pmm.freePages) - 1
  {
    pmm.EligibleManaged();
    var r := pmm.Alloc();
    page := r.value;
  }
}
