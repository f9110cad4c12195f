/** `fault_check` (kernel/paging_check.c): revoked rights and mappings take effect at once, whatever was cached. */
module FaultCheck {
  import opened Bits
  import opened BootInformation
  import opened RadixTree
  import opened Paging
  import opened PlainPaging
  import opened AliasCheck

  lemma RightsOf(p: nat)
    ensures Rights(p, 0) == Translation(p, false, false) && Rights(p, 1) == Translation(p, true, false)
    ensures Rights(p, 2) == Translation(p, false, true)
    ensures Cost(Some(Rights(p, 1)), None) == 3
  {
  }

  /** What the processor finds at the first window page when it is not mapped. */
  lemma FirstUnseen(k: PageTables, m: Machine, identity: map<nat, Translation>, own: set<nat>)
    requires Represents(k, m, identity, Mapping(own, None, None))
    ensures FIRST < VIRTUAL_PAGES && 0 < ENTRIES && Seen(identity, Mapping(own, None, None), FIRST) == None
  {
    hide PageTables.Valid;
    Opened(k, m, identity, Mapping(own, None, None));
    CheckedPages();
  }

  /** Without write access a store faults. */
  method StoreFaults(k: PageTables, p: nat, ghost m: Machine, ghost identity: map<nat, Translation>,
                     ghost own: set<nat>) returns (faulted: bool)
    requires Represents(k, m, identity, Mapping(own, Some(Rights(p, 1)), None))
    modifies k`ram, k`tree, k`cache
    ensures faulted
  {
    hide *;
    RightsOf(p);
    CheckedPages();
    var revoked := ProtectFirst(k, 0, m, identity, own, Rights(p, 1), None);
    FirstSeen(identity, own, Rights(p, 0), None);
    var stored := DoStore(k, FIRST, 0, Decode(1), m, identity, Mapping(own, Some(Rights(p, 0)), None));
    faulted := revoked && !stored;
  }

  /** Code runs while the page is executable, and faults as soon as it is not. */
  method FetchFaults(k: PageTables, p: nat, ghost m: Machine, ghost identity: map<nat, Translation>,
                     ghost own: set<nat>) returns (faulted: bool)
    requires Represents(k, m, identity, Mapping(own, Some(Rights(p, 1)), None))
    modifies k`ram, k`tree, k`cache
    ensures faulted
  {
    hide *;
    RightsOf(p);
    CheckedPages();
    var granted := ProtectFirst(k, 2, m, identity, own, Rights(p, 1), None);
    FirstSeen(identity, own, Rights(p, 2), None);
    var ran := DoFetch(k, FIRST, 0, m, identity, Mapping(own, Some(Rights(p, 2)), None));
    var revoked := ProtectFirst(k, 0, m, identity, own, Rights(p, 2), None);
    FirstSeen(identity, own, Rights(p, 0), None);
    var again := DoFetch(k, FIRST, 0, m, identity, Mapping(own, Some(Rights(p, 0)), None));
    faulted := granted && ran.Some? && revoked && again.None?;
  }

  /** After unmapping a load faults. */
  method LoadFaults(k: PageTables, p: nat, ghost m: Machine, ghost identity: map<nat, Translation>,
                    ghost own: set<nat>) returns (faulted: bool)
    requires Represents(k, m, identity, Mapping(own, Some(Rights(p, 1)), None))
    modifies k`ram, k`tree, k`cache, k`tableCount, k.tablePages, k.pmm`freePages, k.pmm`cursor, k.pmm.inUse
    ensures faulted
  {
    hide *;
    var unmapped := DropFirst(k, m, identity, own, Some(Rights(p, 1)), None);
    FirstUnseen(k, m, identity, own);
    var loaded := DoLoad(k, FIRST, 0, m, identity, Mapping(own, None, None));
    faulted := unmapped && loaded.None?;
  }

  lemma OwnedFrame(k: PageTables, m: Machine, identity: map<nat, Translation>, own: set<nat>, p: nat)
    requires Represents(k, m, identity, Mapping(own, None, None)) && p in own
    ensures p < PAGE_COUNT
  {
    hide Represents;
    OwnedIsSeen(k, m, identity, Mapping(own, None, None), p);
  }

  /**
    `fault_check`: exactly if there is a frame and the three tables for one page, each mode
    ends in the fault it is meant to provoke, although the translation it revokes has been
    used before. Otherwise it is stuck in `check_failed`, which is `false` here.
  */
  method Run(k: PageTables, mode: nat, ghost m: Machine, ghost identity: map<nat, Translation>, ghost own: set<nat>) returns (faulted: bool)
    requires Represents(k, m, identity, Mapping(own, None, None)) && m.identityTables <= 2054
    modifies k`ram, k`tree, k`cache, k`tableCount, k.tablePages, k.pmm`freePages, k.pmm`cursor, k.pmm.inUse
    ensures faulted <==> Spare(m, Mapping(own, None, None)) >= 4
  {
    hide *;
    Available(k, m, identity, own);
    var frame := TakeFrame(k, m, identity, own);
    if frame.None? { return false; }
    var p := frame.value;
    OneTaken(m, own, p);
    OwnedFrame(k, m, identity, own + {p}, p);
    RightsOf(p);
    var mapped := SetFirst(k, p, 1, m, identity, own + {p}, None);
    if !mapped { return false; }
    var stored := StoreFirst(k, Decode(0xc3), m, identity, own + {p}, Rights(p, 1), None);
    if mode == 0 {
      faulted := StoreFaults(k, p, m, identity, own + {p});
    } else if mode == 1 {
      faulted := FetchFaults(k, p, m, identity, own + {p});
    } else {
      faulted := LoadFaults(k, p, m, identity, own + {p});
    }
  }
}
