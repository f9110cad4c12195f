/**
  The processor's TLB and paging-structure caches (section 4.10 of the Intel SDM, Volume
  3A), as a set of cached walk results that may grow at any moment.
*/
module TranslationCache {
  import opened BootInformation
  import opened RadixTree

  /**
    A cached partial walk: the position reached and what was found there. Level 4 is a TLB
    entry for one page; levels 1 to 3 are paging-structure-cache entries.
  */
  datatype Cached = Cached(pos: Pos, to: Translation)

  /**
    What the processor may add next: one more step of a walk, starting from the root or
    from any cached table, through memory as it is now.
  */
  function Derive(ram: Ram, root: nat, cache: set<Cached>, parent: Cached, index: nat): Option<Cached>
    requires index < ENTRIES
  {
    if (parent == Cached(ROOT, Translation(root, true, true)) || parent in cache) && parent.pos.level < 4 then
      match Next(ram, parent.to, index)
      case None => None
      case Some(to) => Some(Cached(Child(parent.pos, index), to))
    else None
  }

  /** INVLPG: drops the page's translations and every paging-structure-cache entry. */
  function InvalidatePage(cache: set<Cached>, v: nat): set<Cached> {
    set e | e in cache && e.pos.level == 4 && e.pos.prefix != v
  }

  ghost predicate Agrees(e: Cached, t: Tree) {
    1 <= e.pos.level <= 4 && Current(t, e.pos) == Some(e.to)
  }

  /** Every cached entry is what a walk of the present tree would find. */
  ghost predicate Coherent(cache: set<Cached>, t: Tree) {
    forall e :: e in cache ==> Agrees(e, t)
  }

  /** Between a write and its INVLPG: entries may still be those of the tree before it. */
  ghost predicate Transitional(cache: set<Cached>, was: Tree, t: Tree) {
    forall e :: e in cache ==> Agrees(e, was) || Agrees(e, t)
  }

  /** A table that has been unlinked holds no entry that a stale pointer could follow. */
  ghost predicate StaleTablesBlank(ram: Ram, was: Tree, t: Tree) {
    && Shaped(was)
    && forall p :: p in was.tables && !(p in t.tables && t.tables[p] == was.tables[p]) ==> Blank(ram, was.tables[p])
  }

  /**
    The processor may cache every step of the walk to a mapped page: the next one through
    what it has, or from the root.
  */
  lemma WalkIsCached(ram: Ram, t: Tree, cache: set<Cached>, v: nat, level: nat)
    requires Stored(ram, t) && v in t.leaves && level < 4
    requires var here := Current(t, At(v, level)); here.Some? && (level == 0 || Cached(At(v, level), here.value) in cache)
    ensures var here, next := Current(t, At(v, level)), Current(t, At(v, level + 1));
      && next.Some?
      && Derive(ram, t.tables[ROOT], cache, Cached(At(v, level), here.value), v / Span(level + 1) % 512)
         == Some(Cached(At(v, level + 1), next.value))
  {
    hide Span;
    AtEnds(v);
    UpOfAt(v, level + 1);
    MappedPath(t, v, level + 1);
    StepFollowsTree(ram, t, At(v, level), v / Span(level + 1) % 512);
  }

  /** Without INVLPG entries go stale: what was cached for a page or a table outlives its removal. */
  lemma StaleWithoutInvalidation(t: Tree, v: nat, level: nat)
    requires Shaped(t) && v in t.leaves && 1 <= level <= 3
    ensures var page := Cached(Pos(4, v), t.leaves[v]);
      Coherent({page}, t) && !Coherent({page}, t.(leaves := t.leaves - {v}))
    ensures At(v, level) in t.tables
    ensures var table := Cached(At(v, level), Translation(t.tables[At(v, level)], true, true));
      Coherent({table}, t) && !Coherent({table}, t.(tables := t.tables - {At(v, level)}))
  {
    MappedPath(t, v, level);
    var page, table := Cached(Pos(4, v), t.leaves[v]), Cached(At(v, level), Translation(t.tables[At(v, level)], true, true));
    assert page in {page} && table in {table};
    assert !Agrees(page, t.(leaves := t.leaves - {v}));
    assert !Agrees(table, t.(tables := t.tables - {At(v, level)}));
  }

  /** Whatever the processor adds, even through a stale pointer, belongs to the present tree. */
  lemma FillAgrees(ram: Ram, cache: set<Cached>, was: Tree, t: Tree, parent: Cached, index: nat)
    requires Stored(ram, t) && StaleTablesBlank(ram, was, t)
    requires Transitional(cache, was, t) && index < ENTRIES
    ensures var e := Derive(ram, t.tables[ROOT], cache, parent, index); e.Some? ==> Agrees(e.value, t)
  {
    var p := parent.pos;
    if p in t.tables && parent.to == Translation(t.tables[p], true, true) {
      StepFollowsTree(ram, t, p, index);
    } else if p in was.tables && parent.to == Translation(was.tables[p], true, true) {
      assert Blank(ram, was.tables[p]);
    }
  }

  /** After INVLPG nothing stale is left, if the two trees differ only on the page's path. */
  lemma InvalidationRestores(cache: set<Cached>, was: Tree, t: Tree, v: nat)
    requires Transitional(cache, was, t)
    requires was.leaves - {v} == t.leaves - {v}
    ensures Coherent(InvalidatePage(cache, v), t)
  {
    forall e | e in InvalidatePage(cache, v)
      ensures Agrees(e, t)
    {
      var u := e.pos.prefix;
      assert u in was.leaves <==> u in was.leaves - {v};
      assert u in t.leaves <==> u in t.leaves - {v};
      assert u in was.leaves ==> was.leaves[u] == (was.leaves - {v})[u];
      assert u in t.leaves ==> t.leaves[u] == (t.leaves - {v})[u];
    }
  }

  /** Growing a tree never makes a cached entry wrong. */
  lemma CoherentAfterGrowth(cache: set<Cached>, was: Tree, t: Tree)
    requires Coherent(cache, was)
    requires forall p :: p in was.tables ==> p in t.tables && t.tables[p] == was.tables[p]
    requires forall v :: v in was.leaves ==> v in t.leaves && t.leaves[v] == was.leaves[v]
    ensures Coherent(cache, t)
  {
    forall e | e in cache
      ensures Agrees(e, t)
    {
      assert Agrees(e, was);
    }
  }

  /** The tree knows the table by one position only: nothing cached leads to another frame's table. */
  lemma UnlinkedTableNotCached(cache: set<Cached>, t: Tree, frame: nat)
    requires Coherent(cache, t) && frame !in t.tables.Values
    ensures forall e :: e in cache && e.pos.level <= 3 ==> e.to.frame != frame
  {
    forall e | e in cache && e.pos.level <= 3
      ensures e.to.frame != frame
    {
      assert Agrees(e, t);
      assert t.tables[e.pos] in t.tables.Values;
    }
  }
}
