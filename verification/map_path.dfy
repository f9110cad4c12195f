/**
  The path that `paging_map` builds and may have to take down again: its state after each
  step, as values, and what one step down or one step back does to it.
*/
module MapPath {
  import opened RadixTree
  import opened Accounting
  import opened TableRegistry

  /** The address of a table entry: `uint64_t *`. */
  datatype EntryAddress = EntryAddress(frame: nat, index: nat)

  ghost predicate LinksTo(tables: map<Pos, nat>, link: EntryAddress, v: nat, level: nat) {
    At(v, level) in tables && link == EntryAddress(tables[At(v, level)], v / Span(level + 1) % 512)
  }

  /** `links[k]` is the entry, one level further down each, that was made to point to a new table. */
  ghost predicate LinksMatch(tables: map<Pos, nat>, v: nat, level: nat, links: seq<EntryAddress>) {
    |links| <= level && forall k :: 0 <= k < |links| ==> LinksTo(tables, links[k], v, level - |links| + k)
  }

  /**
    `level` steps down the path to page `v`, the tree `before` has been extended by the
    tables `created`, the last of them at this level.
  */
  ghost predicate OnPath(t: Tree, before: Tree, v: nat, level: nat, links: seq<EntryAddress>, created: seq<nat>) {
    && Shaped(before) && v < VIRTUAL_PAGES && level <= 3
    && |links| == |created| <= level
    && t == Tree(Grow(before.tables, v, level, created), before.leaves)
    && |created| == Missing(before.tables, v, level)
    && (created != [] ==> At(v, level - |created| + 1) !in before.tables)
    && At(v, level) in t.tables
    && LinksMatch(t.tables, v, level, links)
    && NewFrames(t, before, created)
  }

  /** The new tables occupy the frames `created`, none of which held a table before. */
  ghost predicate NewFrames(t: Tree, before: Tree, created: seq<nat>) {
    t.tables.Values == before.tables.Values + Frames(created) && before.tables.Values !! Frames(created)
  }

  lemma PathFrames(t: Tree, before: Tree, v: nat, level: nat, links: seq<EntryAddress>, created: seq<nat>)
    requires OnPath(t, before, v, level, links, created)
    ensures t.tables.Values == before.tables.Values + Frames(created)
  {
  }

  lemma AtRoot(before: Tree, v: nat)
    requires Shaped(before) && v < VIRTUAL_PAGES
    ensures OnPath(before, before, v, 0, [], [])
  {
    AtEnds(v);
  }

  /** The next table exists now exactly if it existed before, and then nothing was created. */
  lemma NextTable(t: Tree, before: Tree, v: nat, level: nat, links: seq<EntryAddress>, created: seq<nat>)
    requires level < 3 && OnPath(t, before, v, level, links, created)
    ensures At(v, level + 1) in t.tables <==> At(v, level + 1) in before.tables
    ensures At(v, level + 1) in t.tables ==> created == []
  {
    UpOfAt(v, level + 1);
    GrowKeys(before.tables, v, level, created, At(v, level + 1));
    if created != [] { NoGaps(before, v, level - |created| + 1, level + 1); }
  }

  lemma StepThrough(t: Tree, before: Tree, v: nat, level: nat, links: seq<EntryAddress>, created: seq<nat>)
    requires level < 3 && OnPath(t, before, v, level, links, created) && At(v, level + 1) in t.tables
    ensures OnPath(t, before, v, level + 1, links, created)
  {
    NextTable(t, before, v, level, links, created);
  }

  lemma LinksExtend(tables: map<Pos, nat>, v: nat, level: nat, links: seq<EntryAddress>, frame: nat)
    requires LinksMatch(tables, v, level, links) && At(v, level) in tables && At(v, level + 1) !in tables
    ensures LinksMatch(tables[At(v, level + 1) := frame], v, level + 1,
                       links + [EntryAddress(tables[At(v, level)], v / Span(level + 1) % 512)])
  {
    var tables' := tables[At(v, level + 1) := frame];
    var links' := links + [EntryAddress(tables[At(v, level)], v / Span(level + 1) % 512)];
    forall k | 0 <= k < |links'|
      ensures LinksTo(tables', links'[k], v, level + 1 - |links'| + k)
    {
      if k < |links| { assert LinksTo(tables, links[k], v, level - |links| + k); }
    }
  }

  lemma LinksShrink(tables: map<Pos, nat>, v: nat, level: nat, links: seq<EntryAddress>)
    requires LinksMatch(tables, v, level, links) && links != []
    ensures LinksMatch(tables - {At(v, level)}, v, level - 1, links[..|links| - 1])
  {
    var n, links' := |links|, links[..|links| - 1];
    forall k | 0 <= k < |links'|
      ensures LinksTo(tables - {At(v, level)}, links'[k], v, level - 1 - |links'| + k)
    {
      assert LinksTo(tables, links[k], v, level - n + k);
    }
  }

  /** A step down through a table created for the purpose. */
  lemma StepCreating(t: Tree, before: Tree, v: nat, level: nat,
                     links: seq<EntryAddress>, created: seq<nat>, child: nat)
    requires level < 3 && OnPath(t, before, v, level, links, created) && At(v, level + 1) !in t.tables
    requires child !in t.tables.Values
    ensures OnPath(t.(tables := t.tables[At(v, level + 1) := child]), before, v, level + 1,
                   links + [EntryAddress(t.tables[At(v, level)], v / Span(level + 1) % 512)], created + [child])
  {
    hide Shaped, At, Grow, LinksMatch, Frames;
    NextTable(t, before, v, level, links, created);
    GrowMore(before.tables, v, level, created, child);
    LinksExtend(t.tables, v, level, links, child);
    TablesInSet(t.tables, At(v, level + 1), child);
    FramesGrow(created, child);
    if created != [] {
      assert level + 1 - |created + [child]| + 1 == level - |created| + 1;
    }
  }

  /** The last table created on the path can be taken off it again. */
  lemma LastCreated(ram: Ram, t: Tree, before: Tree, v: nat, level: nat, links: seq<EntryAddress>, created: seq<nat>)
    requires OnPath(t, before, v, level, links, created) && created != [] && Stored(ram, t)
    ensures level > 0 && At(v, level).level == level && At(v, level) !in before.tables
    ensures At(v, level) in t.tables && t.tables[At(v, level)] == created[|created| - 1]
    ensures Blank(ram, t.tables[At(v, level)])
    ensures Up(At(v, level)) == At(v, level - 1) && At(v, level - 1) in t.tables
    ensures links[|links| - 1] == EntryAddress(t.tables[At(v, level - 1)], Slot(At(v, level)))
  {
    NoGaps(before, v, level - |created| + 1, level);
    GrowLess(before.tables, v, level, created);
    FreshTableIsBlank(ram, before, v, level, created);
    UpOfAt(v, level);
    assert LinksTo(t.tables, links[|links| - 1], v, level - 1);
  }

  lemma StepBackFrames(t: Tree, before: Tree, v: nat, level: nat, links: seq<EntryAddress>, created: seq<nat>)
    requires OnPath(t, before, v, level, links, created) && created != []
    requires Shaped(t) && NoDuplicates(created)
    requires At(v, level) in t.tables && t.tables[At(v, level)] == created[|created| - 1]
    ensures NewFrames(t.(tables := t.tables - {At(v, level)}), before, created[..|created| - 1])
  {
    assert NewFrames(t, before, created);
    TablesLess(t, At(v, level));
    FramesShrink(before.tables.Values, created);
  }

  /** A step back up, dropping the last table created. */
  lemma StepBack(ram: Ram, t: Tree, before: Tree, v: nat, level: nat, links: seq<EntryAddress>, created: seq<nat>)
    requires OnPath(t, before, v, level, links, created) && created != []
    requires Stored(ram, t) && NoDuplicates(created)
    ensures OnPath(t.(tables := t.tables - {At(v, level)}), before, v, level - 1,
                   links[..|links| - 1], created[..|created| - 1])
  {
    LastCreated(ram, t, before, v, level, links, created);
    StepBackShape(t, before, v, level, links, created);
    StepBackFrames(t, before, v, level, links, created);
  }

  lemma StepBackShape(t: Tree, before: Tree, v: nat, level: nat, links: seq<EntryAddress>, created: seq<nat>)
    requires OnPath(t, before, v, level, links, created) && created != []
    requires At(v, level) !in before.tables && At(v, level - 1) in t.tables
    ensures NewFrames(t.(tables := t.tables - {At(v, level)}), before, created[..|created| - 1]) ==>
      OnPath(t.(tables := t.tables - {At(v, level)}), before, v, level - 1, links[..|links| - 1], created[..|created| - 1])
  {
    hide Shaped, NewFrames;
    var n := |created|;
    GrowLess(before.tables, v, level, created);
    LinksShrink(t.tables, v, level, links);
    hide LinksMatch;
    if n > 1 {
      assert level - 1 - (n - 1) + 1 == level - n + 1;
    }
  }

  /** With everything created dropped, the tree is the one before. */
  lemma BackToStart(t: Tree, before: Tree, v: nat, level: nat, links: seq<EntryAddress>, created: seq<nat>)
    requires OnPath(t, before, v, level, links, created) && created == []
    ensures t == before
  {
  }

  /** A finished path adds exactly the page's own tables. */
  lemma FullPathKeys(t: Tree, before: Tree, v: nat, links: seq<EntryAddress>, created: seq<nat>)
    requires OnPath(t, before, v, 3, links, created)
    ensures t.tables.Keys == before.tables.Keys + Spine({v})
  {
    SpineOfOne(v);
    forall p: Pos
      ensures p in t.tables <==> p in before.tables || p in Spine({v})
    {
      GrowKeys(before.tables, v, 3, created, p);
      SpineMember({v}, p);
      if p in Spine({v}) && p !in t.tables {
        MissingCovers(before, v, created, p);
      }
    }
  }

  /** Building a path moves no table. */
  lemma PathStays(t: Tree, before: Tree, v: nat, level: nat, links: seq<EntryAddress>, created: seq<nat>)
    requires OnPath(t, before, v, level, links, created)
    ensures TablesStay(before.tables, t.tables)
  {
    forall p | p in before.tables
      ensures p in t.tables && t.tables[p] == before.tables[p]
    {
      GrowKeys(before.tables, v, level, created, p);
      if level - |created| < p.level <= level && p == At(v, p.level) {
        NoGaps(before, v, level - |created| + 1, p.level);
      }
    }
  }

  lemma MissingCovers(before: Tree, v: nat, created: seq<nat>, p: Pos)
    requires Shaped(before) && |created| == Missing(before.tables, v, 3) <= 3
    requires 1 <= p.level <= 3 && p == At(v, p.level)
    ensures p in before.tables || 3 - |created| < p.level
  {
    if p !in before.tables {
      NoGaps(before, v, p.level, 3);
      if p.level <= 2 { NoGaps(before, v, p.level, 2); }
      assert Missing(before.tables, v, 1) <= 1;
      assert Missing(before.tables, v, 3) == Missing(before.tables, v, 2) + 1;
    }
  }
}
