/**
  Four-level page tables as values: what a tree is, how it lies in physical memory, and
  what one write to a table does to it.

  A table is identified by its position: its level (0 is the root) and the virtual-address
  bits that lead to it. A leaf entry is treated as position at level 4, whose prefix is
  the virtual page number itself.
*/
module RadixTree {
  import opened Bits
  import opened BootInformation

  const ENTRIES: nat := 512
  /** Virtual page numbers have 36 bits: four indices of nine bits each. */
  const VIRTUAL_PAGES: nat := 0x10_0000_0000

  type Table = t: seq<Word> | |t| == 512 ghost witness seq(512, _ => ZERO)
  type Ram = r: seq<Table> | |r| == 0x10_0000 ghost witness seq(0x10_0000, _ => seq(512, _ => ZERO))

  function Write(ram: Ram, frame: nat, index: nat, word: Word): Ram
    requires frame < PAGE_COUNT && index < ENTRIES
  {
    ram[frame := ram[frame][index := word]]
  }

  /** Only the frames in `written` differ. */
  ghost predicate Spares(ram: Ram, ram': Ram, written: set<nat>) {
    forall f :: 0 <= f < PAGE_COUNT && f !in written ==> ram'[f] == ram[f]
  }

  /** The frames in `kept` are the same. */
  ghost predicate Keeps(ram: Ram, ram': Ram, kept: set<nat>) {
    forall f :: 0 <= f < PAGE_COUNT && f in kept ==> ram'[f] == ram[f]
  }

  lemma SparesKeeps(ram: Ram, ram': Ram, written: set<nat>, kept: set<nat>)
    requires Spares(ram, ram', written) && written !! kept
    ensures Keeps(ram, ram', kept)
  {
  }

  lemma KeepsBoth(ram: Ram, ram': Ram, first: set<nat>, second: set<nat>, kept: set<nat>)
    requires Keeps(ram, ram', first) && Keeps(ram, ram', second) && kept <= first + second
    ensures Keeps(ram, ram', kept)
  {
  }

  lemma KeepsItself(ram: Ram, kept: set<nat>)
    ensures Keeps(ram, ram, kept)
  {
  }

  lemma KeepsFewer(ram: Ram, ram': Ram, kept: set<nat>, fewer: set<nat>)
    requires Keeps(ram, ram', kept) && fewer <= kept
    ensures Keeps(ram, ram', fewer)
  {
  }

  lemma SparesNothing(ram: Ram, written: set<nat>)
    ensures Spares(ram, ram, written)
  {
  }

  lemma SparesMore(ram: Ram, ram': Ram, written: set<nat>, more: set<nat>)
    requires Spares(ram, ram', written) && written <= more
    ensures Spares(ram, ram', more)
  {
  }

  lemma SparesBoth(ram: Ram, ram': Ram, ram'': Ram, first: set<nat>, second: set<nat>, written: set<nat>)
    requires Spares(ram, ram', first) && Spares(ram', ram'', second) && first + second <= written
    ensures Spares(ram, ram'', written)
  {
  }

  // ---------------------------------------------------------------- positions

  datatype Pos = Pos(level: nat, prefix: nat)

  const ROOT: Pos := Pos(0, 0)

  function Slot(c: Pos): (i: nat)
    ensures i < ENTRIES
  {
    c.prefix % 512
  }

  function Up(c: Pos): Pos
    requires c.level > 0
  {
    Pos(c.level - 1, c.prefix / 512)
  }

  function Child(p: Pos, i: nat): (c: Pos)
    requires i < ENTRIES
    ensures c.level == p.level + 1 && Up(c) == p && Slot(c) == i
  {
    Pos(p.level + 1, p.prefix * 512 + i)
  }

  lemma ChildOfUp(c: Pos)
    requires c.level > 0
    ensures Child(Up(c), Slot(c)) == c
  {
  }

  /** How many virtual pages one position at this level spans. */
  function Span(level: nat): (s: nat)
    ensures s > 0
  {
    match level
    case 0 => 0x10_0000_0000
    case 1 => 0x800_0000
    case 2 => 0x4_0000
    case 3 => 0x200
    case _ => 1
  }

  /** The position that the walk for virtual page `v` visits at `level`. */
  function At(v: nat, level: nat): Pos {
    Pos(level, v / Span(level))
  }

  lemma UpOfAt(v: nat, level: nat)
    requires 1 <= level <= 4
    ensures Up(At(v, level)) == At(v, level - 1)
    ensures Slot(At(v, level)) == v / Span(level) % 512
    ensures Child(At(v, level - 1), Slot(At(v, level))) == At(v, level)
  {
    ChildOfUp(At(v, level));
  }

  lemma AtEnds(v: nat)
    requires v < VIRTUAL_PAGES
    ensures At(v, 0) == ROOT && At(v, 4) == Pos(4, v)
    ensures Slot(At(v, 4)) == v % 512
  {
  }

  lemma {:induction false} SamePathAbove(u: nat, v: nat, level: nat, above: nat)
    requires above <= level <= 4 && At(u, level) == At(v, level)
    ensures At(u, above) == At(v, above)
    decreases level
  {
    if above < level {
      UpOfAt(u, level);
      UpOfAt(v, level);
      SamePathAbove(u, v, level - 1, above);
    }
  }

  // ---------------------------------------------------------------- trees

  datatype Translation = Translation(frame: nat, write: bool, exec: bool)

  /** `tables` gives each table position its frame, `leaves` each mapped page its target. */
  datatype Tree = Tree(tables: map<Pos, nat>, leaves: map<nat, Translation>)

  /** The entry that belongs at position `c` of its parent table. */
  function Content(t: Tree, c: Pos): Word {
    if c.level == 4 then
      if c.prefix in t.leaves then LeafWord(t.leaves[c.prefix].frame, t.leaves[c.prefix].write, t.leaves[c.prefix].exec)
      else ZERO
    else if c in t.tables then LinkWord(t.tables[c])
    else ZERO
  }

  ghost predicate Shaped(t: Tree) {
    && ROOT in t.tables
    && (forall p :: p in t.tables ==> p.level <= 3 && t.tables[p] < PAGE_COUNT)
    && (forall p :: p in t.tables && p.level == 0 ==> p == ROOT)
    && (forall p {:trigger Up(p)} :: p in t.tables && p.level > 0 ==> Up(p) in t.tables)
    // No two positions share a frame.
    && (forall p, q :: p in t.tables && q in t.tables && t.tables[p] == t.tables[q] ==> p == q)
    && (forall v :: v in t.leaves ==> v < VIRTUAL_PAGES && At(v, 3) in t.tables && t.leaves[v].frame < PAGE_COUNT)
  }

  ghost predicate TableStored(ram: Ram, t: Tree, p: Pos)
    requires p in t.tables && t.tables[p] < PAGE_COUNT
  {
    forall i :: 0 <= i < ENTRIES ==> ram[t.tables[p]][i] == Content(t, Child(p, i))
  }

  /** Physical memory holds exactly this tree: every entry of every table is accounted for. */
  ghost predicate Stored(ram: Ram, t: Tree) {
    && Shaped(t)
    && forall p :: p in t.tables ==> TableStored(ram, t, p)
  }

  lemma SlotStored(ram: Ram, t: Tree, c: Pos)
    requires Stored(ram, t) && c.level > 0 && Up(c) in t.tables
    ensures ram[t.tables[Up(c)]][Slot(c)] == Content(t, c)
  {
    ChildOfUp(c);
    assert TableStored(ram, t, Up(c));
  }

  /** Frames that hold no table can be rewritten freely. */
  lemma OtherFrames(ram: Ram, ram': Ram, t: Tree)
    requires Stored(ram, t)
    requires forall p :: p in t.tables ==> ram'[t.tables[p]] == ram[t.tables[p]]
    ensures Stored(ram', t)
  {
    forall p | p in t.tables
      ensures TableStored(ram', t, p)
    {
      assert TableStored(ram, t, p);
    }
  }

  ghost predicate SameExcept(t: Tree, t': Tree, c: Pos) {
    forall d: Pos :: d != c ==> Content(t', d) == Content(t, d)
  }

  /** Memory that holds the same tree holds the same tables, word for word. */
  lemma SameTree(ram: Ram, ram': Ram, t: Tree)
    requires Stored(ram, t) && Stored(ram', t)
    ensures Keeps(ram, ram', t.tables.Values)
  {
    forall f | f in t.tables.Values
      ensures ram'[f] == ram[f]
    {
      var p :| p in t.tables && t.tables[p] == f;
      assert TableStored(ram, t, p) && TableStored(ram', t, p);
      forall i | 0 <= i < ENTRIES
        ensures ram'[f][i] == ram[f][i]
      {
        assert ram[f][i] == Content(t, Child(p, i));
      }
    }
  }

  /** One write that changes what belongs at position `c`, and nothing else. */
  lemma WriteSlot(ram: Ram, t: Tree, t': Tree, c: Pos)
    requires Stored(ram, t) && Shaped(t') && c.level > 0 && Up(c) in t.tables
    requires forall p :: p in t'.tables ==> p in t.tables && t'.tables[p] == t.tables[p]
    requires SameExcept(t, t', c)
    ensures Stored(Write(ram, t.tables[Up(c)], Slot(c), Content(t', c)), t')
  {
    var ram' := Write(ram, t.tables[Up(c)], Slot(c), Content(t', c));
    ChildOfUp(c);
    forall p | p in t'.tables
      ensures TableStored(ram', t', p)
    {
      assert TableStored(ram, t, p);
      if p == Up(c) {
        forall i | 0 <= i < ENTRIES
          ensures ram'[t'.tables[p]][i] == Content(t', Child(p, i))
        {
          assert i != Slot(c) ==> Child(p, i) != c;
        }
      } else {
        assert t.tables[p] != t.tables[Up(c)];
        forall i | 0 <= i < ENTRIES
          ensures ram'[t'.tables[p]][i] == Content(t', Child(p, i))
        {
          assert Up(Child(p, i)) == p;
        }
      }
    }
  }

  /** `leaf = physical | flags` */
  lemma SetLeaf(ram: Ram, t: Tree, v: nat, to: Translation)
    requires Stored(ram, t) && v < VIRTUAL_PAGES && At(v, 3) in t.tables && to.frame < PAGE_COUNT
    ensures Stored(Write(ram, t.tables[At(v, 3)], v % 512, LeafWord(to.frame, to.write, to.exec)),
                   t.(leaves := t.leaves[v := to]))
  {
    var t' := t.(leaves := t.leaves[v := to]);
    var c := At(v, 4);
    UpOfAt(v, 4);
    AtEnds(v);
    assert SameExcept(t, t', c);
    assert Content(t', c) == LeafWord(to.frame, to.write, to.exec);
    WriteSlot(ram, t, t', c);
  }

  /** `leaf = 0` */
  lemma ClearLeaf(ram: Ram, t: Tree, v: nat)
    requires Stored(ram, t) && v < VIRTUAL_PAGES && At(v, 3) in t.tables
    ensures Stored(Write(ram, t.tables[At(v, 3)], v % 512, ZERO), t.(leaves := t.leaves - {v}))
  {
    var t' := t.(leaves := t.leaves - {v});
    var c := At(v, 4);
    UpOfAt(v, 4);
    AtEnds(v);
    assert SameExcept(t, t', c);
    assert Content(t', c) == ZERO;
    WriteSlot(ram, t, t', c);
  }

  ghost predicate Blank(ram: Ram, frame: nat)
    requires frame < PAGE_COUNT
  {
    forall i :: 0 <= i < ENTRIES ==> ram[frame][i] == ZERO
  }

  lemma LinkShaped(t: Tree, c: Pos, frame: nat)
    requires Shaped(t) && 1 <= c.level <= 3 && c !in t.tables && Up(c) in t.tables
    requires frame < PAGE_COUNT && frame !in t.tables.Values
    ensures Shaped(t.(tables := t.tables[c := frame]))
  {
    var tables' := t.tables[c := frame];
    forall p, q | p in tables' && q in tables' && tables'[p] == tables'[q]
      ensures p == q
    {
      if p != c { assert t.tables[p] in t.tables.Values; }
      if q != c { assert t.tables[q] in t.tables.Values; }
    }
  }

  /** `*entry = child | FLAGS`, where `child` is a zeroed frame that holds no table yet. */
  lemma LinkTable(ram: Ram, t: Tree, c: Pos, frame: nat)
    requires Stored(ram, t) && 1 <= c.level <= 3 && c !in t.tables && Up(c) in t.tables
    requires frame < PAGE_COUNT && frame !in t.tables.Values && Blank(ram, frame)
    ensures Stored(Write(ram, t.tables[Up(c)], Slot(c), LinkWord(frame)), t.(tables := t.tables[c := frame]))
  {
    var t' := t.(tables := t.tables[c := frame]);
    var ram' := Write(ram, t.tables[Up(c)], Slot(c), LinkWord(frame));
    LinkShaped(t, c, frame);
    ChildOfUp(c);
    assert t.tables[Up(c)] in t.tables.Values;
    forall p | p in t'.tables
      ensures TableStored(ram', t', p)
    {
      if p == c {
        forall i | 0 <= i < ENTRIES
          ensures ram'[frame][i] == Content(t', Child(c, i))
        {
          NothingBelow(t, Child(c, i));
        }
      } else {
        LinkOthers(ram, t, c, frame, p);
      }
    }
  }

  lemma LinkOthers(ram: Ram, t: Tree, c: Pos, frame: nat, p: Pos)
    requires Stored(ram, t) && 1 <= c.level <= 3 && c !in t.tables && Up(c) in t.tables
    requires p in t.tables && frame < PAGE_COUNT
    ensures TableStored(Write(ram, t.tables[Up(c)], Slot(c), LinkWord(frame)), t.(tables := t.tables[c := frame]), p)
  {
    var t' := t.(tables := t.tables[c := frame]);
    var ram' := Write(ram, t.tables[Up(c)], Slot(c), LinkWord(frame));
    ChildOfUp(c);
    assert TableStored(ram, t, p);
    forall i | 0 <= i < ENTRIES
      ensures ram'[t'.tables[p]][i] == Content(t', Child(p, i))
    {
      if p == Up(c) { assert i != Slot(c) ==> Child(p, i) != c; }
    }
  }

  /** Where there is no table, nothing hangs below. */
  lemma NothingBelow(t: Tree, d: Pos)
    requires Shaped(t) && 1 <= d.level <= 4 && Up(d) !in t.tables
    ensures Content(t, d) == ZERO
  {
    if d.level == 4 && d.prefix in t.leaves {
      UpOfAt(d.prefix, 4);
      AtEnds(d.prefix);
    }
  }

  ghost predicate Childless(t: Tree, c: Pos) {
    forall d: Pos {:trigger Content(t, d)} :: d.level > 0 && Up(d) == c ==> Content(t, d) == ZERO
  }

  lemma BlankMeansChildless(ram: Ram, t: Tree, c: Pos)
    requires Stored(ram, t) && c in t.tables && Blank(ram, t.tables[c])
    ensures Childless(t, c)
  {
    assert TableStored(ram, t, c);
    forall d: Pos | d.level > 0 && Up(d) == c
      ensures Content(t, d) == ZERO
    {
      ChildOfUp(d);
    }
  }

  lemma ChildlessTable(t: Tree, c: Pos, p: Pos)
    requires Childless(t, c) && p in t.tables && 1 <= p.level <= 3
    ensures Up(p) != c
  {
    assert Content(t, p) == LinkWord(t.tables[p]);
  }

  lemma ChildlessLeaf(t: Tree, c: Pos, v: nat)
    requires Childless(t, c) && v in t.leaves && v < VIRTUAL_PAGES
    ensures At(v, 3) != c
  {
    UpOfAt(v, 4);
    AtEnds(v);
    assert Content(t, At(v, 4)).present;
  }

  lemma UnlinkShaped(t: Tree, c: Pos)
    requires Shaped(t) && 1 <= c.level && c in t.tables && Childless(t, c)
    ensures Shaped(t.(tables := t.tables - {c}))
  {
    var tables' := t.tables - {c};
    forall p | p in tables' && p.level > 0
      ensures Up(p) in tables'
    {
      ChildlessTable(t, c, p);
    }
    forall v | v in t.leaves
      ensures At(v, 3) in tables'
    {
      ChildlessLeaf(t, c, v);
    }
  }

  /** `*link = 0`, where the linked table is all zero. */
  lemma UnlinkTable(ram: Ram, t: Tree, c: Pos)
    requires Stored(ram, t) && 1 <= c.level && c in t.tables && Blank(ram, t.tables[c])
    ensures Stored(Write(ram, t.tables[Up(c)], Slot(c), ZERO), t.(tables := t.tables - {c}))
  {
    BlankMeansChildless(ram, t, c);
    UnlinkShaped(t, c);
    WriteSlot(ram, t, t.(tables := t.tables - {c}), c);
  }

  /** A mapped page has its whole path. */
  lemma {:induction false} MappedPath(t: Tree, v: nat, level: nat)
    requires Shaped(t) && v in t.leaves && level <= 4
    ensures if level == 4 then Content(t, At(v, 4)).present else At(v, level) in t.tables
    decreases 4 - level
  {
    AtEnds(v);
    if level < 3 {
      MappedPath(t, v, level + 1);
      UpOfAt(v, level + 1);
    }
  }

  // ---------------------------------------------------------------- walks

  /** One step of the processor's walk: rights only shrink on the way down. */
  function Next(ram: Ram, from: Translation, index: nat): Option<Translation>
    requires index < ENTRIES
  {
    if from.frame < PAGE_COUNT && ram[from.frame][index].present then
      var word := ram[from.frame][index];
      Some(Translation(word.frame, from.write && word.writable, from.exec && !word.noExecute))
    else None
  }

  /** The first `level` steps of the walk for `v`; four steps translate the page. */
  function Walk(ram: Ram, root: nat, v: nat, level: nat): Option<Translation> {
    if level == 0 then Some(Translation(root, true, true))
    else
      match Walk(ram, root, v, level - 1)
      case None => None
      case Some(from) => Next(ram, from, v / Span(level) % 512)
  }

  /**
    The walk, address bit by address bit: bits 47:39, 38:30, 29:21 and 20:12 select the
    entries; all four must be present; all must be writable for a write, and none may
    forbid execution for a fetch (section 4.5 of the Intel SDM, Volume 3A).
  */
  lemma WalkOnEntries(ram: Ram, root: nat, v: nat)
    requires root < PAGE_COUNT
    ensures Walk(ram, root, v, 4) ==
      var e3 := ram[root][v / 0x800_0000 % 512];
      if !e3.present || e3.frame >= PAGE_COUNT then None else
      var e2 := ram[e3.frame][v / 0x4_0000 % 512];
      if !e2.present || e2.frame >= PAGE_COUNT then None else
      var e1 := ram[e2.frame][v / 512 % 512];
      if !e1.present || e1.frame >= PAGE_COUNT then None else
      var e0 := ram[e1.frame][v % 512];
      if !e0.present then None else
      Some(Translation(e0.frame, e3.writable && e2.writable && e1.writable && e0.writable,
                       !(e3.noExecute || e2.noExecute || e1.noExecute || e0.noExecute)))
  {
    hide Walk, Next;
    WalkBegins(ram, root, v);
    WalkGoesOn(ram, root, v, 1);
    WalkGoesOn(ram, root, v, 2);
    WalkGoesOn(ram, root, v, 3);
    WalkGoesOn(ram, root, v, 4);
    var e3 := ram[root][v / 0x800_0000 % 512];
    NextEntry(ram, Translation(root, true, true), v / 0x800_0000 % 512);
    if !e3.present { return; }
    NextEntry(ram, Walk(ram, root, v, 1).value, v / 0x4_0000 % 512);
    if e3.frame >= PAGE_COUNT { return; }
    var e2 := ram[e3.frame][v / 0x4_0000 % 512];
    if !e2.present { return; }
    NextEntry(ram, Walk(ram, root, v, 2).value, v / 512 % 512);
    if e2.frame >= PAGE_COUNT { return; }
    var e1 := ram[e2.frame][v / 512 % 512];
    if !e1.present { return; }
    NextEntry(ram, Walk(ram, root, v, 3).value, v % 512);
  }

  lemma NextEntry(ram: Ram, from: Translation, index: nat)
    requires index < ENTRIES
    ensures from.frame >= PAGE_COUNT ==> Next(ram, from, index) == None
    ensures from.frame < PAGE_COUNT ==> var entry := ram[from.frame][index];
      Next(ram, from, index) == if !entry.present then None else
        Some(Translation(entry.frame, from.write && entry.writable, from.exec && !entry.noExecute))
  {
  }

  lemma WalkBegins(ram: Ram, root: nat, v: nat)
    ensures Walk(ram, root, v, 0) == Some(Translation(root, true, true))
  {
  }

  lemma WalkGoesOn(ram: Ram, root: nat, v: nat, level: nat)
    requires level > 0
    ensures Walk(ram, root, v, level) ==
      match Walk(ram, root, v, level - 1)
      case None => None
      case Some(from) => Next(ram, from, v / Span(level) % 512)
  {
  }

  /** What a walk should find at a position. */
  function Current(t: Tree, c: Pos): Option<Translation> {
    if c.level == 4 then
      if c.prefix in t.leaves then Some(t.leaves[c.prefix]) else None
    else
      if c in t.tables then Some(Translation(t.tables[c], true, true)) else None
  }

  lemma StepFollowsTree(ram: Ram, t: Tree, p: Pos, i: nat)
    requires Stored(ram, t) && p in t.tables && i < ENTRIES
    ensures Next(ram, Translation(t.tables[p], true, true), i) == Current(t, Child(p, i))
  {
    assert TableStored(ram, t, p);
  }

  /** The processor's walk through memory finds exactly what the tree says. */
  lemma {:induction false} WalkFollowsTree(ram: Ram, t: Tree, v: nat, level: nat)
    requires Stored(ram, t) && v < VIRTUAL_PAGES && level <= 4
    ensures Walk(ram, t.tables[ROOT], v, level) == Current(t, At(v, level))
  {
    AtEnds(v);
    if level > 0 {
      WalkFollowsTree(ram, t, v, level - 1);
      UpOfAt(v, level);
      var p := At(v, level - 1);
      if p in t.tables {
        StepFollowsTree(ram, t, p, Slot(At(v, level)));
      } else {
        NothingBelow(t, At(v, level));
      }
    }
  }
}
