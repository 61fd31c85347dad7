/** `walk`: what it finds, what it builds, and that building never changes a translation. */
module Walking {
  import opened Bits
  import opened KernelState
  import opened Separation

  /** Linking a zeroed page as a missing table. */
  lemma LinkKeeps(s: State, key: Key, j: nat, p: nat, s': State)
    requires WF(s) && key in s.tables && key.lvl > 0 && j < 512 && (key.lvl == 2 ==> j < 256)
    requires Child(key, j) !in s.tables && p in s.owner && s.owner[p] == Held
    requires forall i :: 0 <= i < 512 ==> Entry(s.mem, p, i) == 0
    requires s' == LinkTable(s, s.tables[key] * 512 + j, p, Child(key, j))
    ensures WF(s') && SameLeaves(s, s')
    ensures forall q :: q != s.tables[key] ==> SamePage(s.mem, s'.mem, q)
  {
    assert TableOk(s, key);
    LinkChain(s, key, j, p, s');
    LinkTables(s, key, j, p, s');
    LinkEntries(s, key, j, p, s');
    LinkLeaves(s, key, j, p, s');
  }

  lemma LinkChain(s: State, key: Key, j: nat, p: nat, s': State)
    requires PagesOk(s) && ChainOk(s) && key in s.tables && key.lvl > 0 && j < 512 && TableOk(s, key)
    requires p in s.owner && s.owner[p] == Held
    requires s' == LinkTable(s, s.tables[key] * 512 + j, p, Child(key, j))
    ensures ChainOk(s')
  {
    forall i | 0 <= i < |s'.free|
      ensures LinkOk(s', i)
    {
      assert LinkOk(s, i);
    }
  }

  lemma LinkTables(s: State, key: Key, j: nat, p: nat, s': State)
    requires TablesOk(s) && key in s.tables && key.lvl > 0 && j < 512
    requires Child(key, j) !in s.tables && p in s.owner && s.owner[p] == Held && 0 < p < PPN_LIMIT
    requires s' == LinkTable(s, s.tables[key] * 512 + j, p, Child(key, j))
    ensures TablesOk(s')
  {
    assert TableOk(s, key);
    forall k | k in s'.tables
      ensures TableOk(s', k)
    {
      if k in s.tables {
        assert TableOk(s, k);
      }
    }
  }

  lemma LinkEntry(s: State, key: Key, j: nat, p: nat, s': State, k: Key, i: nat)
    requires PagesOk(s) && TablesOk(s) && EntriesOk(s)
    requires key in s.tables && key.lvl > 0 && j < 512
    requires Child(key, j) !in s.tables && p in s.owner && s.owner[p] == Held
    requires s' == LinkTable(s, s.tables[key] * 512 + j, p, Child(key, j))
    requires k in s.tables && k.lvl > 0 && i < 512
    ensures EntryOk(s', k, i)
  {
    assert TableOk(s, key) && TableOk(s, k) && EntryOk(s, k, i);
    if k != key || i != j {
      assert Child(k, i) != Child(key, j);
      assert Entry(s'.mem, s.tables[k], i) == Entry(s.mem, s.tables[k], i);
    }
  }

  lemma NoOrphan(s: State, key: Key, i: nat)
    requires TablesOk(s) && key !in s.tables && 0 < key.lvl <= 2 && i < 512
    ensures Child(key, i) !in s.tables
  {
    assert (key.k * 512 + i) / 512 == key.k;
    assert Child(key, i) in s.tables ==> TableOk(s, Child(key, i));
  }

  lemma LinkEntries(s: State, key: Key, j: nat, p: nat, s': State)
    requires PagesOk(s) && TablesOk(s) && EntriesOk(s)
    requires key in s.tables && key.lvl > 0 && j < 512 && (key.lvl == 2 ==> j < 256)
    requires Child(key, j) !in s.tables && p in s.owner && s.owner[p] == Held
    requires forall i :: 0 <= i < 512 ==> Entry(s.mem, p, i) == 0
    requires s' == LinkTable(s, s.tables[key] * 512 + j, p, Child(key, j))
    ensures EntriesOk(s')
  {
    assert TableOk(s, key);
    forall k, i | k in s'.tables && k.lvl > 0 && 0 <= i < 512
      ensures EntryOk(s', k, i)
    {
      if k in s.tables {
        LinkEntry(s, key, j, p, s', k, i);
      } else {
        NoOrphan(s, k, i);
        assert Entry(s'.mem, p, i) == Entry(s.mem, p, i);
      }
    }
    if s.root != 0 {
      assert TableOk(s, Key(2, 0));
      RootHalf(s, s', s.tables[key] * 512 + j);
    }
  }

  lemma RootHalf(s: State, s': State, slot: nat)
    requires s.root != 0 && EntriesOk(s) && s'.root == s.root
    requires |s'.mem| == |s.mem| && forall i :: 0 <= i < |s.mem| && i != slot ==> s'.mem[i] == s.mem[i]
    requires !(s.root * 512 + 256 <= slot < s.root * 512 + 512)
    ensures forall i :: 256 <= i < 512 ==> Entry(s'.mem, s'.root, i) == 0
  {
    forall i | 256 <= i < 512
      ensures Entry(s'.mem, s.root, i) == 0
    {
      assert Entry(s'.mem, s.root, i) == Entry(s.mem, s.root, i);
    }
  }

  lemma LinkLeaves(s: State, key: Key, j: nat, p: nat, s': State)
    requires PagesOk(s) && TablesOk(s) && key in s.tables && key.lvl > 0 && j < 512
    requires Child(key, j) !in s.tables && p in s.owner && s.owner[p] == Held
    requires forall i :: 0 <= i < 512 ==> Entry(s.mem, p, i) == 0
    requires s' == LinkTable(s, s.tables[key] * 512 + j, p, Child(key, j))
    ensures SameLeaves(s, s')
  {
    assert TableOk(s, key);
    forall x: nat
      ensures Leaf(s', x) == Leaf(s, x)
    {
      var k := PathKey(0, x);
      if k in s.tables {
        assert TableOk(s, k);
        assert Entry(s'.mem, s.tables[k], Index(0, x)) == Entry(s.mem, s.tables[k], Index(0, x));
      } else if k in s'.tables {
        assert Entry(s'.mem, p, Index(0, x)) == Entry(s.mem, p, Index(0, x)) == 0;
      }
    }
  }

  lemma ChildOnPath(lvl: nat, x: nat)
    requires 0 < lvl <= 2 && x < MAX_VPN
    ensures PathKey(lvl - 1, x) == Child(PathKey(lvl, x), Index(lvl, x))
    ensures Index(lvl, x) < 512 && (lvl == 2 ==> Index(lvl, x) < 256)
  {
  }

  lemma EntrySelects(s: State, key: Key, j: nat)
    requires EntriesOk(s) && key in s.tables && key.lvl > 0 && j < 512
    ensures Child(key, j) in s.tables <==> Entry(s.mem, s.tables[key], j) % 2 == 1
    ensures Child(key, j) in s.tables ==> Entry(s.mem, s.tables[key], j) / 1024 == s.tables[Child(key, j)]
  {
    assert EntryOk(s, key, j);
    if Child(key, j) in s.tables {
      DivModUnique(Entry(s.mem, s.tables[key], j), 2, s.tables[Child(key, j)] * 512, 1);
      DivModUnique(Entry(s.mem, s.tables[key], j), 1024, s.tables[Child(key, j)], 1);
    }
  }

  /** Taking a free page, zeroing it and linking it as the missing child `j` of table `key`. */
  lemma MakeTable(s: State, key: Key, j: nat, s': State)
    requires WF(s) && key in s.tables && key.lvl > 0 && j < 512 && (key.lvl == 2 ==> j < 256)
    requires Child(key, j) !in s.tables && s.free != [] && s.free[0] < PPN_LIMIT
    requires s' == NewTable(s, s.tables[key] * 512 + j, Child(key, j))
    ensures WF(s') && SameLeaves(s, s') && Extends(s, s')
    ensures s'.free == s.free[1..] && s'.tables == s.tables[Child(key, j) := s.free[0]]
  {
    PNewKeeps(s);
    var (s1, p) := PNew(s);
    FillHeld(s1, p, 0);
    var s2 := s1.(mem := FillPage(s1.mem, p, 0));
    LinkKeeps(s2, key, j, p, s');
    assert TableOk(s, key);
    forall q: nat | Foreign(s, q)
      ensures SamePage(s.mem, s'.mem, q)
    {
      assert SamePage(s.mem, s1.mem, q) && SamePage(s1.mem, s2.mem, q) && SamePage(s2.mem, s'.mem, q);
    }
  }

  /** The tables below the root on the path to page number `x`. */
  function Path(x: nat): set<Key> {
    {PathKey(1, x), PathKey(0, x)}
  }

  /** How many tables `walk` has to make for page number `x`, when it has those of `have`. */
  function Cost(have: set<Key>, x: nat): nat {
    (if PathKey(1, x) in have then 0 else 1) + (if PathKey(0, x) in have then 0 else 1)
  }

  /** The part of the path and of its cost above level `lvl`. */
  function PathTo(lvl: nat, x: nat): set<Key> {
    if lvl == 2 then {} else if lvl == 1 then {PathKey(1, x)} else Path(x)
  }

  function CostTo(have: set<Key>, lvl: nat, x: nat): nat {
    if lvl == 2 then 0
    else if lvl == 1 then if PathKey(1, x) in have then 0 else 1
    else Cost(have, x)
  }

  /** What `walk` for page number `x` does from state `s`: with allocation it succeeds exactly when
      enough pages are free, and takes exactly the tables that were missing; without, it only looks
      up. Whether or not it succeeds, it changes no translation. */
  ghost predicate Walked(s: State, x: nat, alloc: bool, s': State, found: Found) {
    && WF(s') && SameLeaves(s, s') && Extends(s, s')
    && (found.Page? <==> if alloc then Cost(s.tables.Keys, x) <= |s.free| else HasSlot(s, x))
    && (found.Page? ==> HasSlot(s', x) && s'.tables[PathKey(0, x)] == found.page)
    && (found.Page? && alloc ==>
          && Cost(s.tables.Keys, x) <= |s.free| && s'.free == Rest(s.free, Cost(s.tables.Keys, x))
          && s'.tables.Keys == s.tables.Keys + Path(x))
    && (found.Missing? && alloc ==> s'.free == [] && s'.tables.Keys <= s.tables.Keys + Path(x))
    && (!alloc ==> s' == s)
  }

  /** How far the walk has got when it stands at table `t` of level `lvl`: the tables above are
      there and have been paid for. */
  ghost predicate Reached(s: State, x: nat, s': State, lvl: nat, t: nat) {
    && lvl <= 2 && PathKey(lvl, x) in s'.tables && s'.tables[PathKey(lvl, x)] == t
    && CostTo(s.tables.Keys, lvl, x) <= |s.free|
    && s'.free == Rest(s.free, CostTo(s.tables.Keys, lvl, x))
    && s'.tables.Keys == s.tables.Keys + PathTo(lvl, x)
  }

  ghost predicate Kept(s: State, s': State) {
    WF(s') && SameLeaves(s, s') && Extends(s, s')
  }

  lemma WalkStarts(s: State, x: nat)
    requires WF(s) && s.root != 0 && x < MAX_VPN
    ensures Kept(s, s) && Reached(s, x, s, 2, s.root)
  {
  }

  lemma WalkEnds(s: State, x: nat, alloc: bool, s': State, t: nat)
    requires Kept(s, s') && Reached(s, x, s', 0, t) && (!alloc ==> s' == s)
    ensures Walked(s, x, alloc, s', Page(t))
  {
  }

  /** The next table exists: the walk follows it. */
  lemma WalkFollows(s: State, x: nat, s': State, lvl: nat, t: nat)
    requires TablesOk(s) && EntriesOk(s') && Reached(s, x, s', lvl, t) && lvl > 0 && x < MAX_VPN
    requires Entry(s'.mem, t, Index(lvl, x)) % 2 == 1
    ensures Reached(s, x, s', lvl - 1, Entry(s'.mem, t, Index(lvl, x)) / 1024)
  {
    ChildOnPath(lvl, x);
    EntrySelects(s', PathKey(lvl, x), Index(lvl, x));
    var below := PathKey(lvl - 1, x);
    assert below in s.tables;
    if lvl == 1 {
      assert PathTo(0, x) == PathTo(1, x) + {below};
    }
    assert s.tables.Keys + PathTo(lvl - 1, x) == s.tables.Keys + PathTo(lvl, x);
  }

  /** The next table is missing, and cannot or must not be made. */
  lemma WalkStops(s: State, x: nat, alloc: bool, s': State, lvl: nat, t: nat)
    requires TablesOk(s) && Kept(s, s') && Reached(s, x, s', lvl, t) && lvl > 0 && x < MAX_VPN
    requires !alloc ==> s' == s
    requires Entry(s'.mem, t, Index(lvl, x)) % 2 == 0 && (!alloc || s'.free == [])
    ensures Walked(s, x, alloc, s', Missing)
  {
    ChildOnPath(lvl, x);
    EntrySelects(s', PathKey(lvl, x), Index(lvl, x));
    MissingBelow(s, x);
  }

  /** Without its level-1 table a page number has no level-0 table either. */
  lemma MissingBelow(s: State, x: nat)
    requires TablesOk(s)
    ensures PathKey(0, x) in s.tables ==> PathKey(1, x) in s.tables
  {
    assert PathKey(0, x) in s.tables ==> TableOk(s, PathKey(0, x));
  }

  /** The next table is missing and is made from the first free page. */
  lemma WalkMakes(s: State, x: nat, s': State, lvl: nat, t: nat, s'': State)
    requires TablesOk(s) && EntriesOk(s') && Reached(s, x, s', lvl, t) && lvl > 0 && x < MAX_VPN
    requires Entry(s'.mem, t, Index(lvl, x)) % 2 == 0 && s'.free != []
    requires s''.free == s'.free[1..] && s''.tables == s'.tables[PathKey(lvl - 1, x) := s'.free[0]]
    ensures Reached(s, x, s'', lvl - 1, s'.free[0])
  {
    ChildOnPath(lvl, x);
    EntrySelects(s', PathKey(lvl, x), Index(lvl, x));
    MissingBelow(s, x);
    var c := CostTo(s.tables.Keys, lvl, x);
    assert Rest(s.free, c)[1..] == Rest(s.free, c + 1);
    assert PathTo(lvl - 1, x) == PathTo(lvl, x) + {PathKey(lvl - 1, x)};
  }

  /** A turn that makes the next table keeps everything and gets one level further. */
  lemma WalkGrows(s: State, x: nat, s': State, lvl: nat, t: nat, s'': State)
    requires TablesOk(s) && Kept(s, s') && Reached(s, x, s', lvl, t) && lvl > 0 && x < MAX_VPN
    requires Entry(s'.mem, t, Index(lvl, x)) % 2 == 0 && s'.free != [] && s'.free[0] < PPN_LIMIT
    requires s'' == NewTable(s', t * 512 + Index(lvl, x), PathKey(lvl - 1, x))
    ensures Kept(s, s'') && Reached(s, x, s'', lvl - 1, s'.free[0])
  {
    ChildOnPath(lvl, x);
    EntrySelects(s', PathKey(lvl, x), Index(lvl, x));
    MakeTable(s', PathKey(lvl, x), Index(lvl, x), s'');
    ExtendsTrans(s, s', s'');
    WalkMakes(s, x, s', lvl, t, s'');
  }

  /** The table of level `lvl` on the path to `x` is in page `t`. */
  ghost predicate OnPath(s: State, x: nat, lvl: nat, t: nat) {
    PathKey(lvl, x) in s.tables && s.tables[PathKey(lvl, x)] == t
  }

  /** A table on the path is in memory, and what it shows as valid is the page of the next. */
  lemma AtLevel(s: State, x: nat, lvl: nat, t: nat)
    requires WF(s) && 0 < lvl <= 2 && x < MAX_VPN && OnPath(s, x, lvl, t)
    ensures 0 < t < PPN_LIMIT && t * 512 + 512 <= |s.mem| && Index(lvl, x) < 512
    ensures var w := Entry(s.mem, t, Index(lvl, x));
            w % 2 == 1 ==> 0 < w / 1024 < PPN_LIMIT && w == w / 1024 * 1024 + 1
    ensures s.free != [] ==> 0 < s.free[0] < PPN_LIMIT
  {
    var key, j := PathKey(lvl, x), Index(lvl, x);
    ChildOnPath(lvl, x);
    EntrySelects(s, key, j);
    assert TableOk(s, key) && EntryOk(s, key, j);
    if Child(key, j) in s.tables {
      assert TableOk(s, Child(key, j));
    }
    if s.free != [] {
      assert LinkOk(s, 0);
    }
  }

  /** One turn in the course of a walk from state `s`, now in state `s'`. */
  lemma VisitReaches(s: State, x: nat, alloc: bool, s': State, lvl: nat, t: nat, s'': State, q: nat)
    requires TablesOk(s) && Kept(s, s') && Reached(s, x, s', lvl, t) && lvl > 0 && x < MAX_VPN && (!alloc ==> s' == s)
    requires Visit(s', x, lvl, t, alloc) == (s'', q)
    ensures !alloc ==> s'' == s
    ensures q == 0 ==> Walked(s, x, alloc, s'', Missing)
    ensures q != 0 ==> Kept(s, s'') && Reached(s, x, s'', lvl - 1, q)
  {
    AtLevel(s', x, lvl, t);
    if Entry(s'.mem, t, Index(lvl, x)) % 2 == 1 {
      WalkFollows(s, x, s', lvl, t);
    } else if !alloc || s'.free == [] {
      WalkStops(s, x, alloc, s', lvl, t);
    } else {
      WalkGrows(s, x, s', lvl, t, s'');
    }
  }

  /** One turn by itself: it keeps the invariant and stays on the path. */
  lemma VisitKeeps(s: State, x: nat, alloc: bool, lvl: nat, t: nat, s'': State, q: nat)
    requires WF(s) && 0 < lvl <= 2 && x < MAX_VPN && OnPath(s, x, lvl, t)
    requires Visit(s, x, lvl, t, alloc) == (s'', q)
    ensures WF(s'') && s''.root == s.root && (q != 0 ==> OnPath(s'', x, lvl - 1, q))
  {
    assert s.tables.Keys + PathTo(lvl, x) == s.tables.Keys;
    VisitReaches(s, x, alloc, s, lvl, t, s'', q);
  }

  /** The rest of a walk from state `s`, now in state `s'`. */
  lemma {:induction false} WalkRuns(s: State, x: nat, alloc: bool, s': State, lvl: nat, t: nat)
    requires TablesOk(s) && Kept(s, s') && Reached(s, x, s', lvl, t) && x < MAX_VPN && (!alloc ==> s' == s)
    ensures var (end, found) := WalkFrom(s', x, lvl, t, alloc); Walked(s, x, alloc, end, found)
    decreases lvl
  {
    if lvl == 0 {
      WalkEnds(s, x, alloc, s', t);
    } else {
      var (s'', q) := Visit(s', x, lvl, t, alloc);
      VisitReaches(s, x, alloc, s', lvl, t, s'', q);
      if q != 0 {
        WalkRuns(s, x, alloc, s'', lvl - 1, q);
      }
    }
  }

  /** What `walk` does to a well-formed state is what Walked says. */
  lemma WalkMeans(s: State, x: nat, alloc: bool)
    requires WF(s) && s.root != 0 && x < MAX_VPN
    ensures Walked(s, x, alloc, WalkState(s, x, alloc).0, WalkState(s, x, alloc).1)
  {
    WalkStarts(s, x);
    WalkRuns(s, x, alloc, s, 2, s.root);
  }

  /** Slots are a function of the page number, and injective: two page numbers share a slot only if
      they are equal. */
  lemma SlotsInjective(s: State, x: nat, y: nat)
    requires WF(s) && HasSlot(s, x) && HasSlot(s, y)
    ensures Slot(s, x) == Slot(s, y) <==> x == y
  {
    assert TableOk(s, PathKey(0, x));
    assert TableOk(s, PathKey(0, y));
  }
}
