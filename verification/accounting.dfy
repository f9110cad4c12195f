/**
  Which tables a set of mapped pages needs: the bookkeeping that `paging_map` and
  `paging_unmap` keep exact.
*/
module Accounting {
  import opened Bits
  import opened RadixTree

  /** PML4 slot 256 is the dynamic window; identity mappings use slot 0 only. */
  const WINDOW_SLOT: nat := 256

  predicate InWindow(v: nat) {
    v / Span(1) == WINDOW_SLOT
  }

  /** The tables of one level on the paths to a set of pages. */
  ghost function Level(pages: set<nat>, level: nat): set<Pos> {
    set v | v in pages :: At(v, level)
  }

  /** Every table below the root that the pages need. */
  ghost function Spine(pages: set<nat>): set<Pos> {
    Level(pages, 1) + Level(pages, 2) + Level(pages, 3)
  }

  ghost function WindowPages(t: Tree): set<nat> {
    set v | v in t.leaves && InWindow(v)
  }

  /** The PML4 slot under which a table below the root hangs. */
  function Top(c: Pos): nat {
    match c.level
    case 1 => c.prefix
    case 2 => c.prefix / 0x200
    case _ => c.prefix / 0x4_0000
  }

  /** `boot` is the root and the tables of the identity half. */
  ghost predicate BootTables(boot: set<Pos>) {
    ROOT in boot && forall c :: c in boot && c != ROOT ==> 1 <= c.level <= 3 && Top(c) != WINDOW_SLOT
  }

  /** The tables are those of the identity half plus exactly those the window's pages need. */
  ghost predicate Balanced(t: Tree, boot: set<Pos>) {
    BootTables(boot) && t.tables.Keys == boot + Spine(WindowPages(t))
  }

  lemma TopOfAt(v: nat, level: nat)
    requires v < VIRTUAL_PAGES && 1 <= level <= 3
    ensures Top(At(v, level)) == v / Span(1)
  {
  }

  lemma SpineMember(pages: set<nat>, c: Pos)
    ensures c in Spine(pages) <==> 1 <= c.level <= 3 && exists v :: v in pages && At(v, c.level) == c
  {
    if c in Spine(pages) {
      assert 1 <= c.level <= 3;
      var v :| v in pages && At(v, c.level) == c;
    }
  }

  lemma SpineOfUnion(pages: set<nat>, more: set<nat>)
    ensures Spine(pages + more) == Spine(pages) + Spine(more)
  {
    forall level: nat
      ensures Level(pages + more, level) == Level(pages, level) + Level(more, level)
    {
    }
  }

  lemma SpineOfOne(v: nat)
    ensures Spine({v}) == {At(v, 1), At(v, 2), At(v, 3)}
  {
  }

  lemma SpineInWindow(pages: set<nat>, c: Pos)
    requires forall v :: v in pages ==> v < VIRTUAL_PAGES && InWindow(v)
    requires c in Spine(pages)
    ensures 1 <= c.level <= 3 && Top(c) == WINDOW_SLOT
  {
    SpineMember(pages, c);
    var v :| v in pages && At(v, c.level) == c;
    TopOfAt(v, c.level);
  }

  // ---------------------------------------------------------------- counting

  lemma {:induction false} ImageSize(numbers: set<nat>, level: nat)
    ensures |set x | x in numbers :: Pos(level, x)| == |numbers|
    decreases numbers
  {
    if numbers != {} {
      var x :| x in numbers;
      var rest := numbers - {x};
      ImageSize(rest, level);
      assert (set y | y in numbers :: Pos(level, y)) == (set y | y in rest :: Pos(level, y)) + {Pos(level, x)};
    } else {
      assert (set x | x in numbers :: Pos(level, x)) == {};
    }
  }

  /** The distinct values of `v >> bits` over a set of pages. */
  ghost function Distinct(pages: set<nat>, span: nat): set<nat>
    requires span > 0
  {
    set v | v in pages :: v / span
  }

  lemma LevelSize(pages: set<nat>, level: nat)
    ensures |Level(pages, level)| == |Distinct(pages, Span(level))|
  {
    var numbers := Distinct(pages, Span(level));
    ImageSize(numbers, level);
    assert Level(pages, level) == set x | x in numbers :: Pos(level, x);
  }

  lemma DisjointSum(a: set<Pos>, b: set<Pos>)
    requires a !! b
    ensures |a + b| == |a| + |b|
  {
  }

  lemma SpineSize(pages: set<nat>)
    ensures |Spine(pages)| == |Distinct(pages, 0x800_0000)| + |Distinct(pages, 0x4_0000)| + |Distinct(pages, 0x200)|
  {
    LevelSize(pages, 1);
    LevelSize(pages, 2);
    LevelSize(pages, 3);
    DisjointSum(Level(pages, 1), Level(pages, 2));
    DisjointSum(Level(pages, 1) + Level(pages, 2), Level(pages, 3));
  }

  lemma OneDirectory(pages: set<nat>)
    requires forall v :: v in pages ==> InWindow(v)
    ensures |Distinct(pages, 0x800_0000)| == if pages == {} then 0 else 1
  {
    var numbers := Distinct(pages, 0x800_0000);
    if pages != {} {
      var v :| v in pages;
      assert v / 0x800_0000 in numbers;
      assert numbers == {WINDOW_SLOT};
    } else {
      assert numbers == {};
    }
  }

  /**
    Exact accounting: the tables are those of the identity half, one directory if anything
    is mapped in the window, one table per gigabyte and one per two megabytes in use.
  */
  lemma TableCount(t: Tree, boot: set<Pos>)
    requires Shaped(t) && Balanced(t, boot)
    ensures var pages := WindowPages(t);
      |t.tables| == |boot| + (if pages == {} then 0 else 1) + |Distinct(pages, 0x4_0000)| + |Distinct(pages, 0x200)|
  {
    var pages := WindowPages(t);
    forall c | c in Spine(pages)
      ensures c !in boot
    {
      SpineInWindow(pages, c);
    }
    DisjointSum(boot, Spine(pages));
    SpineSize(pages);
    OneDirectory(pages);
    assert |t.tables| == |t.tables.Keys|;
  }

  // ---------------------------------------------------------------- missing levels

  /** How many of the first `level` tables on the path to `v` do not exist. */
  function Missing(tables: map<Pos, nat>, v: nat, level: nat): nat {
    if level == 0 then 0
    else Missing(tables, v, level - 1) + (if At(v, level) in tables then 0 else 1)
  }

  ghost function Lacking(tables: map<Pos, nat>, v: nat, level: nat): set<Pos> {
    if level == 0 then {}
    else Lacking(tables, v, level - 1) + (if At(v, level) in tables then {} else {At(v, level)})
  }

  lemma {:induction false} LackingMember(tables: map<Pos, nat>, v: nat, level: nat, c: Pos)
    ensures c in Lacking(tables, v, level) <==> 1 <= c.level <= level && c == At(v, c.level) && c !in tables
  {
    if level > 0 { LackingMember(tables, v, level - 1, c); }
  }

  lemma {:induction false} LackingSize(tables: map<Pos, nat>, v: nat, level: nat)
    ensures |Lacking(tables, v, level)| == Missing(tables, v, level)
  {
    if level > 0 {
      LackingSize(tables, v, level - 1);
      LackingMember(tables, v, level - 1, At(v, level));
    }
  }

  lemma LackingIsNew(tables: map<Pos, nat>, base: set<Pos>, pages: set<nat>, v: nat, c: Pos)
    requires tables.Keys == base + Spine(pages) && base !! Spine({v})
    ensures c in Lacking(tables, v, 3) <==> c in Spine({v}) && c !in Spine(pages)
  {
    LackingMember(tables, v, 3, c);
    SpineMember({v}, c);
    if 1 <= c.level <= 3 && c == At(v, c.level) { assert v in {v} && At(v, c.level) == c; }
  }

  lemma LackingIsRest(tables: map<Pos, nat>, base: set<Pos>, pages: set<nat>, v: nat)
    requires tables.Keys == base + Spine(pages) && base !! Spine({v})
    ensures Lacking(tables, v, 3) == Spine({v}) - Spine(pages)
  {
    hide Spine, Lacking;
    forall c: Pos
      ensures c in Lacking(tables, v, 3) <==> c in Spine({v}) && c !in Spine(pages)
    {
      LackingIsNew(tables, base, pages, v, c);
    }
  }

  /** Mapping a page needs exactly the tables that its path lacks. */
  lemma MissingIsGrowth(tables: map<Pos, nat>, base: set<Pos>, pages: set<nat>, v: nat)
    requires tables.Keys == base + Spine(pages) && base !! Spine({v})
    ensures |Spine(pages + {v})| == |Spine(pages)| + Missing(tables, v, 3)
  {
    hide Spine, Missing, Lacking;
    LackingIsRest(tables, base, pages, v);
    SpineOfUnion(pages, {v});
    assert Spine(pages) + Spine({v}) == Spine(pages) + (Spine({v}) - Spine(pages));
    DisjointSum(Spine(pages), Spine({v}) - Spine(pages));
    LackingSize(tables, v, 3);
  }

  lemma WindowPathIsNotBoot(boot: set<Pos>, v: nat)
    requires BootTables(boot) && v < VIRTUAL_PAGES && InWindow(v)
    ensures boot !! Spine({v})
  {
    forall c | c in Spine({v})
      ensures c !in boot
    {
      SpineInWindow({v}, c);
    }
  }

  lemma {:induction false} MissingMonotone(tables: map<Pos, nat>, v: nat, level: nat, below: nat)
    requires level <= below
    ensures Missing(tables, v, level) <= Missing(tables, v, below)
    decreases below
  {
    if level < below { MissingMonotone(tables, v, level, below - 1); }
  }

  /** A path has no gaps: below a missing table everything is missing. */
  lemma {:induction false} NoGaps(t: Tree, v: nat, level: nat, below: nat)
    requires Shaped(t) && level <= below <= 3 && At(v, level) !in t.tables
    ensures At(v, below) !in t.tables
    decreases below
  {
    if level < below {
      NoGaps(t, v, level, below - 1);
      UpOfAt(v, below);
    }
  }

  // ---------------------------------------------------------------- growing a path

  /** `tables` extended by newly created frames at the last levels of the path to `v`. */
  function Grow(tables: map<Pos, nat>, v: nat, level: nat, created: seq<nat>): map<Pos, nat> {
    if created == [] || level == 0 then tables
    else Grow(tables, v, level - 1, created[..|created| - 1])[At(v, level) := created[|created| - 1]]
  }

  lemma {:induction false} GrowKeys(tables: map<Pos, nat>, v: nat, level: nat, created: seq<nat>, p: Pos)
    requires |created| <= level
    ensures p in Grow(tables, v, level, created)
       <==> p in tables || (level - |created| < p.level <= level && p == At(v, p.level))
    ensures p in Grow(tables, v, level, created) && !(level - |created| < p.level <= level && p == At(v, p.level))
        ==> Grow(tables, v, level, created)[p] == tables[p]
    decreases level
  {
    if created != [] {
      GrowKeys(tables, v, level - 1, created[..|created| - 1], p);
    }
  }

  lemma GrowMore(tables: map<Pos, nat>, v: nat, level: nat, created: seq<nat>, frame: nat)
    ensures Grow(tables, v, level + 1, created + [frame]) == Grow(tables, v, level, created)[At(v, level + 1) := frame]
  {
    assert (created + [frame])[..|created|] == created;
  }

  lemma GrowLess(tables: map<Pos, nat>, v: nat, level: nat, created: seq<nat>)
    requires 0 < |created| <= level && At(v, level) !in tables
    ensures Grow(tables, v, level, created) - {At(v, level)} == Grow(tables, v, level - 1, created[..|created| - 1])
    ensures At(v, level) in Grow(tables, v, level, created)
    ensures Grow(tables, v, level, created)[At(v, level)] == created[|created| - 1]
  {
    var less := Grow(tables, v, level - 1, created[..|created| - 1]);
    GrowKeys(tables, v, level - 1, created[..|created| - 1], At(v, level));
    assert less[At(v, level) := created[|created| - 1]] - {At(v, level)} == less;
  }

  /** The last table created on a path has nothing below it yet. */
  lemma FreshTableIsBlank(ram: Ram, t: Tree, v: nat, level: nat, created: seq<nat>)
    requires Shaped(t) && v < VIRTUAL_PAGES && 0 < |created| <= level <= 3
    requires At(v, level - |created| + 1) !in t.tables
    requires Stored(ram, Tree(Grow(t.tables, v, level, created), t.leaves))
    requires At(v, level) in Grow(t.tables, v, level, created)
    ensures Blank(ram, Grow(t.tables, v, level, created)[At(v, level)])
  {
    var grown := Tree(Grow(t.tables, v, level, created), t.leaves);
    var p := At(v, level);
    NoGaps(t, v, level - |created| + 1, level);
    assert TableStored(ram, grown, p);
    forall i | 0 <= i < ENTRIES
      ensures ram[grown.tables[p]][i] == ZERO
    {
      var d := Child(p, i);
      NothingBelow(t, d);
      GrowKeys(t.tables, v, level, created, d);
    }
  }
}
