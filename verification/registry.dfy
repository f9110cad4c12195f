/** The flat list of table frames, `table_pages[]`, and how it matches a tree. */
module TableRegistry {
  import opened RadixTree

  ghost predicate NoDuplicates(s: seq<nat>) {
    forall i, j :: 0 <= i < j < |s| ==> s[i] != s[j]
  }

  /** The registry lists each table frame exactly once. */
  ghost predicate Registers(registry: seq<nat>, tables: map<Pos, nat>) {
    NoDuplicates(registry) && forall f :: f in registry <==> f in tables.Values
  }

  ghost function Frames(s: seq<nat>): set<nat> {
    set f | f in s
  }

  /** `table_pages[i] = table_pages[--paging_table_count]` */
  function SwapRemove(s: seq<nat>, i: nat): seq<nat>
    requires i < |s|
  {
    s[i := s[|s| - 1]][..|s| - 1]
  }

  lemma SwapRemoveDrops(s: seq<nat>, i: nat)
    requires i < |s| && NoDuplicates(s)
    ensures NoDuplicates(SwapRemove(s, i))
    ensures forall f :: f in SwapRemove(s, i) <==> f in s && f != s[i]
  {
    var r := SwapRemove(s, i);
    forall f | f in s && f != s[i]
      ensures f in r
    {
      var k :| 0 <= k < |s| && s[k] == f;
      if k == |s| - 1 { assert r[i] == f; } else { assert r[k] == f; }
    }
  }

  lemma WithoutNewest(s: seq<nat>)
    requires s != [] && NoDuplicates(s)
    ensures var rest := s[..|s| - 1];
      NoDuplicates(rest) && s == rest + [s[|s| - 1]] && s[|s| - 1] !in rest && Frames(rest) == Frames(s) - {s[|s| - 1]}
  {
    var rest, last := s[..|s| - 1], s[|s| - 1];
    forall f | f in s && f != last
      ensures f in rest
    {
      var k :| 0 <= k < |s| && s[k] == f;
      assert rest[k] == f;
    }
  }

  lemma SuffixNoDuplicates(registry: seq<nat>, created: seq<nat>)
    requires NoDuplicates(registry + created)
    ensures NoDuplicates(created)
  {
    var all := registry + created;
    forall i, j | 0 <= i < j < |created|
      ensures created[i] != created[j]
    {
      assert all[|registry| + i] == created[i] && all[|registry| + j] == created[j];
    }
  }

  /** Swap-removing the last element, wherever the search found it, drops just that. */
  lemma LastSwap(all: seq<nat>, left: seq<nat>)
    requires all != [] && NoDuplicates(all)
    requires exists i :: 0 <= i < |all| && all[i] == all[|all| - 1] && left == SwapRemove(all, i)
    ensures left == all[..|all| - 1]
  {
    var i :| 0 <= i < |all| && all[i] == all[|all| - 1] && left == SwapRemove(all, i);
    assert i == |all| - 1;
  }

  /** Giving back the newest of the pending frames. */
  lemma NewestOf(registry: seq<nat>, created: seq<nat>, held: set<nat>)
    requires created != [] && NoDuplicates(registry + created) && held !! Frames(created)
    ensures var all, fewer, last := registry + created, created[..|created| - 1], created[|created| - 1];
      && all != [] && all[|all| - 1] == last && last in all && last in Frames(created)
      && all[..|all| - 1] == registry + fewer && NoDuplicates(registry + fewer)
      && Frames(fewer) == Frames(created) - {last}
      && held + Frames(fewer) == held + Frames(created) - {last} && held !! Frames(fewer)
      && Frames(registry + fewer) == Frames(all) - {last}
  {
    var all, last := registry + created, created[|created| - 1];
    SuffixNoDuplicates(registry, created);
    WithoutNewest(created);
    WithoutNewest(all);
    assert all[..|all| - 1] == registry + created[..|created| - 1];
    assert last in Frames(created);
  }

  lemma FramesGrow(created: seq<nat>, frame: nat)
    ensures Frames(created + [frame]) == Frames(created) + {frame}
  {
    forall f | f in Frames(created) + {frame}
      ensures f in created + [frame]
    {
      if f in created {
        var k :| 0 <= k < |created| && created[k] == f;
        assert (created + [frame])[k] == f;
      } else {
        assert (created + [frame])[|created|] == f;
      }
    }
  }

  lemma NewestNoDuplicates(s: seq<nat>, frame: nat, frames: set<nat>)
    requires NoDuplicates(s) && Frames(s) <= frames && frame !in frames
    ensures NoDuplicates(s + [frame]) && Frames(s + [frame]) <= frames + {frame}
  {
    assert frame !in s by { assert frame !in Frames(s); }
    FramesGrow(s, frame);
  }

  lemma FramesWithin(created: seq<nat>)
    requires created != []
    ensures Frames(created[..|created| - 1]) <= Frames(created)
  {
  }

  lemma FramesShrink(frames: set<nat>, created: seq<nat>)
    requires created != [] && NoDuplicates(created) && frames !! Frames(created)
    ensures frames + Frames(created[..|created| - 1]) == frames + Frames(created) - {created[|created| - 1]}
    ensures frames !! Frames(created[..|created| - 1])
  {
    WithoutNewest(created);
    assert created[|created| - 1] in Frames(created);
  }

  lemma {:induction false} RegistrySize(registry: seq<nat>, frames: set<nat>)
    requires NoDuplicates(registry) && forall f :: f in registry <==> f in frames
    ensures |registry| == |frames|
  {
    if registry != [] {
      var n := |registry| - 1;
      var f := registry[n];
      assert forall g :: g in registry[..n] <==> g in registry && g != f;
      RegistrySize(registry[..n], frames - {f});
    } else {
      assert frames == {};
    }
  }

  lemma {:induction false} InjectiveSize(tables: map<Pos, nat>)
    requires forall p, q :: p in tables && q in tables && tables[p] == tables[q] ==> p == q
    ensures |tables.Values| == |tables|
    decreases |tables|
  {
    if |tables| > 0 {
      var p :| p in tables;
      var rest := tables - {p};
      assert tables.Values == rest.Values + {tables[p]} by {
        forall f | f in tables.Values
          ensures f in rest.Values + {tables[p]}
        {
          var q :| q in tables && tables[q] == f;
          if q != p { assert rest[q] == f; }
        }
      }
      assert forall q :: q in rest ==> rest[q] == tables[q] && tables[q] != tables[p];
      InjectiveSize(rest);
    } else {
      assert tables.Values == {};
    }
  }

  /** Every table of `small` is a table of `large`, in the same frame. */
  ghost predicate TablesStay(small: map<Pos, nat>, large: map<Pos, nat>) {
    forall c :: c in small ==> c in large && large[c] == small[c]
  }

  lemma SameTables(first: map<Pos, nat>, second: map<Pos, nat>, large: map<Pos, nat>)
    requires TablesStay(first, large) && TablesStay(second, large) && first.Keys == second.Keys
    ensures first == second
  {
  }

  /** There are as many registered frames as there are tables. */
  lemma RegisteredSize(registry: seq<nat>, t: Tree)
    requires Shaped(t) && Registers(registry, t.tables)
    ensures |registry| == |t.tables|
  {
    RegistrySize(registry, t.tables.Values);
    InjectiveSize(t.tables);
  }

  lemma TablesInSet(tables: map<Pos, nat>, c: Pos, frame: nat)
    requires c !in tables
    ensures tables[c := frame].Values == tables.Values + {frame}
  {
    var more := tables[c := frame];
    forall f | f in tables.Values + {frame}
      ensures f in more.Values
    {
      if f in tables.Values {
        var p :| p in tables && tables[p] == f;
        assert more[p] == f;
      } else {
        assert more[c] == f;
      }
    }
  }

  lemma TablesLess(t: Tree, c: Pos)
    requires Shaped(t) && c in t.tables
    ensures (t.tables - {c}).Values == t.tables.Values - {t.tables[c]}
  {
    var less := t.tables - {c};
    forall f | f in t.tables.Values && f != t.tables[c]
      ensures f in less.Values
    {
      var p :| p in t.tables && t.tables[p] == f;
      assert less[p] == f;
    }
  }

  lemma RegistersGrow(registry: seq<nat>, created: seq<nat>, before: map<Pos, nat>, tables: map<Pos, nat>)
    requires Registers(registry, before) && NoDuplicates(registry + created)
    requires tables.Values == before.Values + Frames(created)
    ensures Registers(registry + created, tables)
  {
    forall f
      ensures f in registry + created <==> f in tables.Values
    {
      assert f in registry + created <==> f in registry || f in created;
    }
  }
}
