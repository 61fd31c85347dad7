/** Whole runs: what every sequence of allocations, releases, client writes, walks and maps keeps. */
module Runs {
  import opened ArchMm
  import opened Bits
  import opened Kernel
  import opened KernelState
  import opened Separation
  import opened Walking
  import opened Mapping

  /** One call into the memory layer, or one write by a client; with what it returned. */
  datatype Event =
    | Alloc(page: nat)
    | Release(page: nat)
    | Write(mem: seq<u64>)
    | Walk(x: nat, alloc: bool, found: Found)
    | Map(first: nat, last: nat, pa: u64, perm: u64, next: nat, end: MapEnd)

  /** A word of a page that a client holds. */
  ghost predicate InHeld(s: State, k: nat) {
    exists p <- s.owner :: s.owner[p] == Held && p * 512 <= k < p * 512 + 512
  }

  /** A call has the effect on the state that its routine is proved to have; a client frees and writes
      only what it holds. */
  ghost predicate Step(s: State, e: Event, s': State) {
    match e
    case Alloc(p) => PNew(s) == (s', p)
    case Release(p) => p in s.owner && s.owner[p] == Held && p < PPN_LIMIT && s' == PFree(s, p)
    case Write(m) =>
      |m| == |s.mem| && s' == s.(mem := m) && forall k :: 0 <= k < |m| && !InHeld(s, k) ==> m[k] == s.mem[k]
    case Walk(x, alloc, found) => s.root != 0 && x < MAX_VPN && WalkState(s, x, alloc) == (s', found)
    case Map(first, last, pa, perm, next, end) => s.root != 0 && MapState(s, first, last, pa, perm) == (s', next, end)
  }

  ghost predicate Run(states: seq<State>, events: seq<Event>) {
    |states| == |events| + 1 && forall i :: 0 <= i < |events| ==> Step(states[i], events[i], states[i + 1])
  }

  lemma RunExtends(states: seq<State>, events: seq<Event>, e: Event, s': State)
    requires Run(states, events) && Step(states[|events|], e, s')
    ensures Run(states + [s'], events + [e])
  {
    var all, more := states + [s'], events + [e];
    forall i | 0 <= i < |more|
      ensures Step(all[i], more[i], all[i + 1])
    {
      if i < |events| {
        assert Step(states[i], events[i], states[i + 1]);
      }
    }
  }

  /** Two managed pages have no word in common. */
  lemma WriteApart(s: State, m: seq<u64>, p: nat)
    requires |m| == |s.mem| && forall k :: 0 <= k < |m| && !InHeld(s, k) ==> m[k] == s.mem[k]
    requires p in s.owner && s.owner[p] != Held
    ensures SamePage(s.mem, m, p)
  {
    forall i | 0 <= i < 512
      ensures Entry(m, p, i) == Entry(s.mem, p, i)
    {
      var k := p * 512 + i;
      assert forall q: nat :: q * 512 <= k < q * 512 + 512 ==> q == p;
      assert !InHeld(s, k);
    }
  }

  /** The invariant, and no page is lost or gained. */
  lemma StepKeeps(s: State, e: Event, s': State)
    requires WF(s) && Step(s, e, s')
    ensures WF(s') && s'.owner.Keys == s.owner.Keys && s'.root == s.root
  {
    match e
    case Alloc(p) => PNewKeeps(s);
    case Release(p) => PFreeKeeps(s, p);
    case Write(m) =>
      forall p <- s.owner | s.owner[p] != Held
        ensures SamePage(s.mem, m, p)
      {
        WriteApart(s, m, p);
      }
      WriteHeld(s, m);
    case Walk(x, alloc, found) => WalkMeans(s, x, alloc);
    case Map(first, last, pa, perm, next, end) => MapMeans(s, first, last, pa, perm);
  }

  /** Tables are never taken away or moved. */
  ghost predicate TablesStay(s: State, s': State) {
    forall key <- s.tables :: key in s'.tables && s'.tables[key] == s.tables[key]
  }

  /** A page number once present keeps the word that translates it. */
  ghost predicate LeavesStay(s: State, s': State) {
    forall x: nat :: Present(s, x) ==> Leaf(s', x) == Leaf(s, x)
  }

  lemma StepStays(s: State, e: Event, s': State)
    requires WF(s) && Step(s, e, s')
    ensures TablesStay(s, s') && LeavesStay(s, s')
    ensures !e.Map? ==> SameLeaves(s, s')
  {
    match e
    case Alloc(p) => PNewKeeps(s);
    case Release(p) => PFreeKeeps(s, p);
    case Write(m) =>
      forall p <- s.owner | s.owner[p] != Held
        ensures SamePage(s.mem, m, p)
      {
        WriteApart(s, m, p);
      }
      WriteHeld(s, m);
    case Walk(x, alloc, found) => WalkMeans(s, x, alloc);
    case Map(first, last, pa, perm, next, end) => MapMeans(s, first, last, pa, perm);
  }

  // ---------- the running kernel ----------

  /** A call as a program makes it. */
  datatype Call =
    | DoAlloc
    | DoRelease(page: nat)
    | DoWrite(k: nat, w: u64)
    | DoWalk(va: u64, alloc: bool)
    | DoMap(va: u64, pa: u64, sz: u64, perm: u64)

  /** What the caller owes: it frees and writes only what it holds, has an address space to walk or map
      in, and does not run into the two panics that come before anything is done. */
  ghost predicate Allowed(s: State, c: Call) {
    match c
    case DoAlloc => true
    case DoRelease(p) => p in s.owner && s.owner[p] == Held
    case DoWrite(k, w) => InHeld(s, k) && 8 * k < TWO64
    case DoWalk(va, alloc) => s.root != 0 && va < MAX_VA
    case DoMap(va, pa, sz, perm) => s.root != 0 && sz != 0
  }

  /** Every call of the running kernel is a step, so what is proved of runs holds of it. */
  method Perform(m: Memory, c: Call) returns (ghost e: Event)
    requires m.Valid() && Allowed(m.View(), c)
    modifies m, m.mem
    ensures m.Valid() && Step(old(m.View()), e, m.View())
  {
    ghost var s := m.View();
    match c {
      case DoAlloc =>
        FreeFacts(s);
        var cb := m.AllocPnew();
        e := Alloc(PNew(s).1);
      case DoRelease(p) =>
        m.AllocPfree(p * 4096, p);
        e := Release(p);
      case DoWrite(k, w) =>
        m.Store(8 * k, w, k);
        e := Write(m.mem[..]);
      case DoWalk(va, alloc) =>
        ghost var found;
        var r;
        r, found := m.Walk(m.ptbl, va, alloc);
        e := Walk(va / 4096, alloc, found);
      case DoMap(va, pa, sz, perm) =>
        ghost var next;
        var r;
        r, next := m.Map(m.ptbl, va, pa, sz, perm);
        e := Map(FirstOf(va), LastOf(va, sz), pa, perm, next, MapEndOf(r));
    }
    StepKeeps(s, e, m.View());
  }

  /** What a client holds stays its own: no call but its own release changes a held page's use, and no
      call but its own write changes the contents. */
  lemma StepRespectsHeld(s: State, e: Event, s': State, p: nat)
    requires WF(s) && Step(s, e, s') && p in s.owner && s.owner[p] == Held && e != Release(p)
    ensures p in s'.owner && s'.owner[p] == Held
    ensures e.Write? || SamePage(s.mem, s'.mem, p)
  {
    match e
    case Alloc(q) => PNewKeeps(s);
    case Release(q) => PFreeKeeps(s, q);
    case Write(m) =>
    case Walk(x, alloc, found) => WalkMeans(s, x, alloc);
    case Map(first, last, pa, perm, next, end) => MapMeans(s, first, last, pa, perm);
  }

  /** The invariant holds at every point of every run, over the same pages and the same root. */
  lemma {:induction false} RunKeeps(states: seq<State>, events: seq<Event>, i: nat)
    requires Run(states, events) && WF(states[0]) && i < |states|
    ensures WF(states[i]) && states[i].owner.Keys == states[0].owner.Keys && states[i].root == states[0].root
  {
    if i > 0 {
      RunKeeps(states, events, i - 1);
      StepKeeps(states[i - 1], events[i - 1], states[i]);
    }
  }

  /** From any point of a run to any later one tables stay where they are, and what is mapped stays
      mapped to the same place. */
  lemma {:induction false} RunStays(states: seq<State>, events: seq<Event>, i: nat, j: nat)
    requires Run(states, events) && WF(states[0]) && i <= j < |states|
    ensures TablesStay(states[i], states[j]) && LeavesStay(states[i], states[j])
    decreases j - i
  {
    if i < j {
      var a, b, c := states[i], states[j - 1], states[j];
      RunStays(states, events, i, j - 1);
      assert TablesStay(b, c) && LeavesStay(b, c) by {
        RunKeeps(states, events, j - 1);
        StepStays(b, events[j - 1], c);
      }
      StayOn(a, b, c);
    }
  }

  lemma StayOn(a: State, b: State, c: State)
    requires TablesStay(a, b) && LeavesStay(a, b) && TablesStay(b, c) && LeavesStay(b, c)
    ensures TablesStay(a, c) && LeavesStay(a, c)
  {
    forall x: nat | Present(a, x)
      ensures Leaf(c, x) == Leaf(a, x)
    {
      assert Present(b, x);
    }
  }

  /** After a walk that succeeded its slot is there. */
  lemma WalkFound(states: seq<State>, events: seq<Event>, i: nat, x: nat, alloc: bool, f: Found)
    requires Run(states, events) && WF(states[0]) && i < |events| && events[i] == Walk(x, alloc, f) && f.Page?
    ensures HasSlot(states[i + 1], x) && states[i + 1].tables[PathKey(0, x)] == f.page
  {
    assert Step(states[i], events[i], states[i + 1]);
    RunKeeps(states, events, i);
    WalkMeans(states[i], x, alloc);
  }

  /** A walk without allocation finds the slot that a walk found before, whatever happened in between:
      other walks, maps, allocations, releases and client writes. */
  lemma FoundAgain(states: seq<State>, events: seq<Event>, i: nat, j: nat, x: nat, alloc: bool, f: Found, g: Found)
    requires Run(states, events) && WF(states[0]) && i < j < |events|
    requires events[i] == Walk(x, alloc, f) && f.Page? && events[j] == Walk(x, false, g)
    ensures g == f
  {
    assert Step(states[j], events[j], states[j + 1]);
    WalkFound(states, events, i, x, alloc, f);
    RunStays(states, events, i + 1, j);
    RunKeeps(states, events, j);
    WalkMeans(states[j], x, false);
  }

  /** Two successful walks return the same slot if and only if they are for the same page number. */
  lemma SlotsApart(states: seq<State>, events: seq<Event>, i: nat, j: nat, x: nat, y: nat, f: Found, g: Found)
    requires Run(states, events) && WF(states[0]) && i < j < |events| && f.Page? && g.Page?
    requires exists alloc :: events[i] == Walk(x, alloc, f)
    requires exists alloc :: events[j] == Walk(y, alloc, g)
    ensures f.page * 512 + Index(0, x) == g.page * 512 + Index(0, y) <==> x == y
  {
    var b: bool :| events[i] == Walk(x, b, f);
    var c: bool :| events[j] == Walk(y, c, g);
    WalkFound(states, events, i, x, b, f);
    WalkFound(states, events, j, y, c, g);
    RunStays(states, events, i + 1, j + 1);
    RunKeeps(states, events, j + 1);
    SlotsInjective(states[j + 1], x, y);
  }

  /** No page is handed out while it is held or a table, and NULL exactly when none is free. */
  lemma HandedOut(states: seq<State>, events: seq<Event>, i: nat, p: nat)
    requires Run(states, events) && WF(states[0]) && i < |events| && events[i] == Alloc(p)
    ensures p == 0 <==> states[i].free == []
    ensures p != 0 ==> && p in states[i].owner && states[i].owner[p] == Free && states[i].free[0] == p
                       && states[i + 1].owner[p] == Held && states[i + 1].free == states[i].free[1..]
  {
    assert Step(states[i], events[i], states[i + 1]);
    RunKeeps(states, events, i);
    PNewKeeps(states[i]);
  }

  /** The free pages are a stack: allocation pops it, release pushes, and walks and maps only take from
      the top. */
  lemma StepStack(s: State, e: Event, s': State)
    requires WF(s) && Step(s, e, s')
    ensures match e
            case Alloc(_) => s'.free == if s.free == [] then [] else s.free[1..]
            case Release(p) => s'.free == [p] + s.free
            case Write(_) => s'.free == s.free
            case Walk(_, _, _) => exists n: nat :: n <= |s.free| && s'.free == Rest(s.free, n)
            case Map(_, _, _, _, _, _) => exists n: nat :: n <= |s.free| && s'.free == Rest(s.free, n)
  {
    match e
    case Alloc(p) => PNewKeeps(s);
    case Release(p) => PFreeKeeps(s, p);
    case Write(m) =>
    case Walk(x, alloc, found) =>
      WalkMeans(s, x, alloc);
      if !alloc {
        assert s'.free == Rest(s.free, 0);
      } else if found.Missing? {
        Emptied(s.free);
      }
    case Map(first, last, pa, perm, next, end) =>
      MapMeans(s, first, last, pa, perm);
      if end.NoMemory? {
        Emptied(s.free);
      }
  }

  lemma Emptied(free: seq<nat>)
    ensures Rest(free, |free|) == []
  {
  }

  // ---------- what the invariant means ----------

  /** The chain as a reader of the memory finds it, for at most `n` links. */
  function ReadChain(m: seq<u64>, head: u64, n: nat): seq<nat>
    decreases n
  {
    if n == 0 || head == 0 then [] else [head / 4096] + ReadChain(m, At(m, head / 4096 * 512), n - 1)
  }

  /** From any link on, the chain in memory is the rest of the stack, and ends there however far one
      reads. */
  lemma {:induction false} ChainIsStack(s: State, i: nat, n: nat)
    requires WF(s) && i <= |s.free| <= i + n && Link(s.free, i) < TWO64
    ensures ReadChain(s.mem, Link(s.free, i), n) == s.free[i..]
    decreases n
  {
    if i < |s.free| {
      assert LinkOk(s, i);
      assert s.free[i] * 4096 / 4096 == s.free[i];
      ChainIsStack(s, i + 1, n - 1);
    }
  }

  /** So reading the chain from its head lists the free pages, next to be handed out first. */
  lemma ChainFromHead(s: State, n: nat)
    requires WF(s) && |s.free| <= n
    ensures ReadChain(s.mem, s.head, n) == s.free
  {
    ChainIsStack(s, 0, n);
    assert s.free[0..] == s.free;
  }

  ghost function HeldPages(s: State): set<nat> {
    set p | p in s.owner && s.owner[p] == Held
  }

  ghost function TablePages(s: State): set<nat> {
    set p | p in s.owner && s.owner[p].Table?
  }

  ghost function FreePages(s: State): set<nat> {
    set p | p in s.owner && s.owner[p] == Free
  }

  lemma {:induction false} DistinctSize(free: seq<nat>, pages: set<nat>)
    requires forall i, j :: 0 <= i < j < |free| ==> free[i] != free[j]
    requires forall p :: p in pages <==> p in free
    ensures |pages| == |free|
  {
    if free != [] {
      var rest := pages - {free[0]};
      forall p ensures p in rest <==> p in free[1..] {
        assert free == [free[0]] + free[1..];
      }
      DistinctSize(free[1..], rest);
    }
  }

  lemma {:induction false} TableSize(tables: map<Key, nat>, names: map<nat, Key>)
    requires forall p <- names :: names[p] in tables && tables[names[p]] == p
    requires forall k <- tables :: tables[k] in names && names[tables[k]] == k
    ensures |names| == |tables|
    decreases |tables|
  {
    if tables != map[] {
      var k :| k in tables;
      var p := tables[k];
      TableSize(tables - {k}, names - {p});
      assert tables == (tables - {k})[k := p] && names == (names - {p})[p := k];
    } else {
      assert names == map[];
    }
  }

  lemma FreeCount(s: State)
    requires WF(s)
    ensures |FreePages(s)| == |s.free|
  {
    forall p
      ensures p in FreePages(s) <==> p in s.free
    {
      if p in s.free {
        var i :| 0 <= i < |s.free| && s.free[i] == p;
        assert LinkOk(s, i);
      }
    }
    DistinctSize(s.free, FreePages(s));
  }

  lemma TableCount(s: State)
    requires WF(s)
    ensures |TablePages(s)| == |s.tables|
  {
    var names := map p | p in TablePages(s) :: s.owner[p].key;
    forall k | k in s.tables
      ensures s.tables[k] in names && names[s.tables[k]] == k
    {
      assert TableOk(s, k);
    }
    TableSize(s.tables, names);
    assert names.Keys == TablePages(s);
    assert |names| == |names.Keys|;
  }

  lemma ThreeParts(all: set<nat>, a: set<nat>, b: set<nat>, c: set<nat>)
    requires all == a + b + c && a !! b && a !! c && b !! c
    ensures |all| == |a| + |b| + |c|
  {
  }

  lemma OwnersPartition(s: State)
    ensures FreePages(s) !! HeldPages(s) && FreePages(s) !! TablePages(s) && HeldPages(s) !! TablePages(s)
    ensures s.owner.Keys == FreePages(s) + HeldPages(s) + TablePages(s)
  {
  }

  /** Every managed page is free, held or a table, and the three add up to all of them. */
  lemma Conservation(s: State)
    requires WF(s)
    ensures |s.free| + |HeldPages(s)| + |s.tables| == |s.owner|
  {
    assert |FreePages(s)| == |s.free| by { FreeCount(s); }
    assert |TablePages(s)| == |s.tables| by { TableCount(s); }
    OwnersPartition(s);
    ThreeParts(s.owner.Keys, FreePages(s), HeldPages(s), TablePages(s));
  }

  /** Entry `j` of table `key` is valid and points to page `p`. */
  ghost predicate Refers(s: State, key: Key, j: nat, p: nat)
    requires key in s.tables
  {
    Entry(s.mem, s.tables[key], j) % 2 == 1 && Entry(s.mem, s.tables[key], j) / 1024 == p
  }

  /** The tables form a tree: a table below the root is pointed to by one upper-level entry and no
      other, and the root by none. */
  lemma TablesFormTree(s: State, child: Key, key: Key, j: nat)
    requires WF(s) && child in s.tables && key in s.tables && key.lvl > 0 && j < 512
    ensures child.lvl < 2 ==> Key(child.lvl + 1, child.k / 512) in s.tables
    ensures Refers(s, key, j, s.tables[child])
            <==> child.lvl < 2 && key == Key(child.lvl + 1, child.k / 512) && j == child.k % 512
  {
    EntrySelects(s, key, j);
    assert TableOk(s, child) && TableOk(s, key);
    if Child(key, j) in s.tables {
      assert TableOk(s, Child(key, j));
    }
  }
}
