/**
  Why `paging_unmap` may free a table exactly when all its entries are zero: what remains
  of the bookkeeping while it climbs from the page table towards the root.
*/
module Pruning {
  import opened Bits
  import opened RadixTree
  import opened Accounting

  /** The tables on the path to `v` from level 1 down to `level`. */
  ghost function Ancestors(v: nat, level: nat): set<Pos> {
    if level == 0 then {} else Ancestors(v, level - 1) + {At(v, level)}
  }

  /**
    Page `v` is gone and its tables below `level` have been dealt with: the tables are
    those that are needed, plus at most those still on the path above.
  */
  ghost predicate Climbing(t: Tree, boot: set<Pos>, v: nat, level: nat) {
    && BootTables(boot) && v < VIRTUAL_PAGES && InWindow(v) && level <= 3
    && v !in t.leaves
    && t.tables.Keys == boot + Spine(WindowPages(t)) + Ancestors(v, level)
  }

  lemma {:induction false} AncestorMember(v: nat, level: nat, c: Pos)
    ensures c in Ancestors(v, level) <==> 1 <= c.level <= level && c == At(v, c.level)
  {
    if level > 0 { AncestorMember(v, level - 1, c); }
  }

  lemma SpineIsAncestors(v: nat)
    ensures Spine({v}) == Ancestors(v, 3)
  {
    SpineOfOne(v);
    assert Ancestors(v, 1) == {At(v, 1)};
    assert Ancestors(v, 2) == {At(v, 1), At(v, 2)};
  }

  /** Clearing the leaf. */
  lemma StartClimb(t: Tree, boot: set<Pos>, v: nat)
    requires Balanced(t, boot) && v < VIRTUAL_PAGES && InWindow(v) && v in t.leaves
    ensures Climbing(t.(leaves := t.leaves - {v}), boot, v, 3)
  {
    hide Spine, Ancestors;
    var t' := t.(leaves := t.leaves - {v});
    assert WindowPages(t) == WindowPages(t') + {v};
    SpineOfUnion(WindowPages(t'), {v});
    SpineIsAncestors(v);
  }

  lemma ClimbDone(t: Tree, boot: set<Pos>, v: nat)
    requires Climbing(t, boot, v, 0)
    ensures Balanced(t, boot)
  {
  }

  lemma PathTableIsDynamic(boot: set<Pos>, v: nat, level: nat)
    requires BootTables(boot) && v < VIRTUAL_PAGES && InWindow(v) && 1 <= level <= 3
    ensures At(v, level) !in boot
  {
    TopOfAt(v, level);
  }

  /** A page whose path joins that of `v` keeps the whole common part in use. */
  lemma SharedPath(t: Tree, u: nat, v: nat, level: nat)
    requires u in t.leaves && u < VIRTUAL_PAGES && v < VIRTUAL_PAGES && InWindow(v)
    requires 1 <= level <= 3 && At(u, level) == At(v, level)
    ensures Ancestors(v, level) <= Spine(WindowPages(t))
  {
    SamePathAbove(u, v, level, 1);
    assert u in WindowPages(t);
    forall c | c in Ancestors(v, level)
      ensures c in Spine(WindowPages(t))
    {
      AncestorMember(v, level, c);
      SamePathAbove(u, v, level, c.level);
      SpineMember(WindowPages(t), c);
    }
  }

  /** Below a table on the path of `v` that is still linked, some other page is mapped. */
  lemma EntryHasPage(t: Tree, boot: set<Pos>, v: nat, level: nat, d: Pos) returns (u: nat)
    requires Shaped(t) && Climbing(t, boot, v, level) && 1 <= level
    requires d.level == level + 1 && Up(d) == At(v, level) && Content(t, d) != ZERO
    ensures u in t.leaves && u < VIRTUAL_PAGES && At(u, level) == At(v, level)
  {
    if level == 3 {
      u := d.prefix;
      UpOfAt(u, 4);
      AtEnds(u);
    } else {
      AncestorMember(v, level, d);
      TopOfAt(v, level);
      assert Top(d) == Top(At(v, level));
      assert d in Spine(WindowPages(t));
      SpineMember(WindowPages(t), d);
      u :| u in WindowPages(t) && At(u, d.level) == d;
      UpOfAt(u, level + 1);
    }
  }

  /** A table with a non-zero entry is needed, and so is everything above it. */
  lemma StopClimb(ram: Ram, t: Tree, boot: set<Pos>, v: nat, level: nat, i: nat)
    requires Stored(ram, t) && Climbing(t, boot, v, level) && 1 <= level
    requires At(v, level) in t.tables && i < ENTRIES && ram[t.tables[At(v, level)]][i] != ZERO
    ensures Balanced(t, boot)
  {
    var d := Child(At(v, level), i);
    assert TableStored(ram, t, At(v, level));
    var u := EntryHasPage(t, boot, v, level, d);
    SharedPath(t, u, v, level);
  }

  /** A table whose entries are all zero serves no mapped page. */
  lemma BlankIsUnused(ram: Ram, t: Tree, boot: set<Pos>, v: nat, level: nat)
    requires Stored(ram, t) && Climbing(t, boot, v, level) && 1 <= level
    requires At(v, level) in t.tables && Blank(ram, t.tables[At(v, level)])
    ensures At(v, level) !in Spine(WindowPages(t))
  {
    hide Spine, Blank, Stored, Child;
    var c := At(v, level);
    BlankMeansChildless(ram, t, c);
    SpineMember(WindowPages(t), c);
    forall u | u in WindowPages(t)
      ensures At(u, level) != c
    {
      if level == 3 {
        ChildlessLeaf(t, c, u);
      } else {
        UpOfAt(u, level + 1);
        SpineMember(WindowPages(t), At(u, level + 1));
        assert At(u, level + 1) in t.tables;
        ChildlessTable(t, c, At(u, level + 1));
      }
    }
  }

  /** Dropping an unused table leaves one level less to deal with. */
  lemma ClimbOne(ram: Ram, t: Tree, boot: set<Pos>, v: nat, level: nat)
    requires Stored(ram, t) && Climbing(t, boot, v, level) && 1 <= level
    requires At(v, level) in t.tables && Blank(ram, t.tables[At(v, level)])
    ensures Climbing(t.(tables := t.tables - {At(v, level)}), boot, v, level - 1)
  {
    var c := At(v, level);
    var t' := t.(tables := t.tables - {c});
    BlankIsUnused(ram, t, boot, v, level);
    PathTableIsDynamic(boot, v, level);
    AncestorMember(v, level - 1, c);
    assert WindowPages(t') == WindowPages(t);
  }
}
