/** `map`: exactly which pages it installs, when it succeeds, and what it costs. */
module Mapping {
  import opened Bits
  import opened Sysdef
  import opened ArchMm
  import opened KernelState
  import opened Separation
  import opened Walking

  /** The page numbers at the two ends of the range of `map`, with the rounding and wrapping it does. */
  function FirstOf(va: u64): nat {
    RoundUp(va, PAGESZ) / 4096
  }

  function LastOf(va: u64, sz: u64): nat {
    RoundDown(Wrap(va + sz - 1), PAGESZ) / 4096
  }

  /** Writing the leaf of one page number changes that leaf and no other. */
  lemma InstallKeeps(s: State, x: nat, w: u64, s': State)
    requires WF(s) && HasSlot(s, x) && s' == s.(mem := Put(s.mem, Slot(s, x), w))
    ensures WF(s') && Extends(s, s')
    ensures forall y: nat :: Leaf(s', y) == if y == x then w else Leaf(s, y)
  {
    assert TableOk(s, PathKey(0, x));
    InstallChain(s, x, w, s');
    InstallTree(s, x, w, s');
    forall y: nat
      ensures Leaf(s', y) == if y == x then w else Leaf(s, y)
    {
      if HasSlot(s, y) {
        assert TableOk(s, PathKey(0, y));
        SlotsInjective(s, x, y);
      }
    }
  }

  lemma InstallChain(s: State, x: nat, w: u64, s': State)
    requires WF(s) && HasSlot(s, x) && s' == s.(mem := Put(s.mem, Slot(s, x), w))
    ensures ChainOk(s')
  {
    assert TableOk(s, PathKey(0, x));
    forall i | 0 <= i < |s'.free|
      ensures LinkOk(s', i)
    {
      assert LinkOk(s, i);
    }
  }

  lemma InstallTree(s: State, x: nat, w: u64, s': State)
    requires WF(s) && HasSlot(s, x) && s' == s.(mem := Put(s.mem, Slot(s, x), w))
    ensures TablesOk(s') && EntriesOk(s')
  {
    assert TableOk(s, PathKey(0, x));
    forall key | key in s'.tables
      ensures TableOk(s', key)
    {
      assert TableOk(s, key);
    }
    forall key, j | key in s'.tables && key.lvl > 0 && 0 <= j < 512
      ensures EntryOk(s', key, j)
    {
      assert TableOk(s, key) && EntryOk(s, key, j);
      assert Entry(s'.mem, s.tables[key], j) == Entry(s.mem, s.tables[key], j);
    }
    if s.root != 0 {
      assert TableOk(s, Key(2, 0));
      RootHalf(s, s', Slot(s, x));
    }
  }

  /** The tables there are once those for all of [a, b) have been added to `have`. */
  ghost function TablesWith(have: set<Key>, a: nat, b: nat): set<Key>
    decreases b
  {
    if b <= a then have else TablesWith(have, a, b - 1) + Path(b - 1)
  }

  /** How many tables that takes. */
  ghost function Price(have: set<Key>, a: nat, b: nat): nat
    decreases b
  {
    if b <= a then 0 else Price(have, a, b - 1) + Cost(TablesWith(have, a, b - 1), b - 1)
  }

  /** What has happened to the leaves: the page numbers in [x, next) got their words and no other leaf
      changed; none of them was present before. */
  ghost predicate Installed(s: State, s': State, x: nat, next: nat, word: nat -> u64) {
    && x <= next
    && (forall y: nat :: Leaf(s', y) == if x <= y < next then word(y) else Leaf(s, y))
    && (forall y :: x <= y < next ==> !Present(s, y))
  }

  /** What has happened to the free pages and the tables: those needed for [x, next) have been made. */
  ghost predicate Paid(s: State, s': State, x: nat, next: nat) {
    && Price(s.tables.Keys, x, next) <= |s.free|
    && s'.free == Rest(s.free, Price(s.tables.Keys, x, next))
    && s'.tables.Keys == TablesWith(s.tables.Keys, x, next)
  }

  /** Page number `next` was one too many: the tables for [x, next] cost more than there was, all of it
      has been used up, and on nothing but those tables. */
  ghost predicate Starved(s: State, s': State, x: nat, next: nat) {
    && Price(s.tables.Keys, x, next + 1) > |s.free| && s'.free == []
    && s'.tables.Keys <= TablesWith(s.tables.Keys, x, next + 1)
  }

  /** How `map` of [x, last] ended at page number `next`, and what that says of the starting state. */
  ghost predicate Ended(s: State, x: nat, last: nat, s': State, next: nat, end: MapEnd) {
    match end
    case Done => x <= last < MAX_VPN && next == last + 1 && Paid(s, s', x, next)
    case NoMemory => next < MAX_VPN && !Present(s, next) && (x <= last ==> next <= last) && Starved(s, s', x, next)
    case Panic => (next >= MAX_VPN || Present(s, next)) && (x <= last ==> next <= last) && Paid(s, s', x, next)
  }

  lemma NothingYet(s: State, x: nat, word: nat -> u64)
    ensures Installed(s, s, x, x, word) && Paid(s, s, x, x)
  {
    assert Price(s.tables.Keys, x, x) == 0 && TablesWith(s.tables.Keys, x, x) == s.tables.Keys;
  }

  lemma PaysNext(s: State, s1: State, x: nat, y: nat, s2: State)
    requires Paid(s, s1, x, y) && x <= y
    requires Cost(s1.tables.Keys, y) <= |s1.free| && s2.free == Rest(s1.free, Cost(s1.tables.Keys, y))
    requires s2.tables.Keys == s1.tables.Keys + Path(y)
    ensures Paid(s, s2, x, y + 1)
  {
    var c, m := Price(s.tables.Keys, x, y), Cost(s1.tables.Keys, y);
    assert Rest(Rest(s.free, c), m) == Rest(s.free, c + m);
  }

  lemma CannotPay(s: State, s1: State, x: nat, y: nat)
    requires Paid(s, s1, x, y) && x <= y && Cost(s1.tables.Keys, y) > |s1.free|
    ensures Price(s.tables.Keys, x, y + 1) > |s.free|
  {
  }

  lemma InstallsNext(s: State, s1: State, x: nat, y: nat, word: nat -> u64, s2: State)
    requires Installed(s, s1, x, y, word) && !Present(s1, y)
    requires forall z: nat :: Leaf(s2, z) == if z == y then word(y) else Leaf(s1, z)
    ensures Installed(s, s2, x, y + 1, word)
  {
    assert Leaf(s1, y) == Leaf(s, y);
  }

  lemma SameLeavesInstalled(s: State, s1: State, x: nat, y: nat, word: nat -> u64, s2: State)
    requires Installed(s, s1, x, y, word) && SameLeaves(s1, s2)
    ensures Installed(s, s2, x, y, word)
  {
  }

  /** A present page number has its tables, so walking to it costs nothing. */
  lemma PresentIsFree(s: State, x: nat, s': State, found: Found)
    requires TablesOk(s) && Present(s, x) && Walked(s, x, true, s', found) && found.Page?
    ensures s'.free == s.free && s'.tables.Keys == s.tables.Keys
  {
    assert TableOk(s, PathKey(0, x));
    assert s.tables.Keys + Path(x) == s.tables.Keys;
  }

  /** How the mapping loop over [x, last], storing `word`, can end from state `s` when it has made `made`
      tables: the state it leaves, the page number it got to, and in what way. */
  ghost predicate MapMade(s: State, x: nat, last: nat, word: nat -> u64, s': State, next: nat, end: MapEnd, made: nat) {
    && WF(s') && Extends(s, s') && Installed(s, s', x, next, word) && Ended(s, x, last, s', next, end)
    && made <= |s.free| && s'.free == Rest(s.free, made)
  }

  ghost predicate MapRan(s: State, x: nat, last: nat, word: nat -> u64, s': State, next: nat, end: MapEnd) {
    exists made: nat :: MapMade(s, x, last, word, s', next, end, made)
  }

  lemma MapEndsWith(s: State, x: nat, last: nat, word: nat -> u64, s': State, next: nat, end: MapEnd)
    requires WF(s') && Extends(s, s') && Installed(s, s', x, next, word) && Ended(s, x, last, s', next, end)
    ensures MapRan(s, x, last, word, s', next, end)
  {
    var made := if end.NoMemory? then |s.free| else Price(s.tables.Keys, x, next);
    assert Rest(s.free, |s.free|) == [];
    assert MapMade(s, x, last, word, s', next, end, made);
  }

  /** Where that loop, over [first, last], can stand at page number `x`. */
  ghost predicate MapGoing(s: State, first: nat, last: nat, word: nat -> u64, s': State, x: nat) {
    && WF(s') && Extends(s, s') && Installed(s, s', first, x, word) && Paid(s, s', first, x)
    && (first <= last ==> x <= last)
  }

  /** The words that `map` stores when page number `first` goes to address `pa`, `first + 1` to the
      page after it, and so on. */
  function Targets(first: nat, pa: u64, perm: u64): nat -> u64 {
    y => LeafPte(Wrap(pa + (y - first) * 4096), perm)
  }

  lemma ExtendsRefl(s: State)
    ensures Extends(s, s)
  {
  }

  lemma MapStarts(s: State, first: nat, last: nat, word: nat -> u64)
    requires WF(s)
    ensures MapGoing(s, first, last, word, s, first)
  {
    ExtendsRefl(s);
    NothingYet(s, first, word);
  }

  lemma MapTooFar(s: State, first: nat, last: nat, word: nat -> u64, s': State, x: nat)
    requires MapGoing(s, first, last, word, s', x) && x >= MAX_VPN
    ensures MapRan(s, first, last, word, s', x, Panic)
  {
    MapEndsWith(s, first, last, word, s', x, Panic);
  }

  lemma StarvedIsAbsent(s: State, x: nat, s1: State)
    requires TablesOk(s) && Walked(s, x, true, s1, Missing)
    ensures !Present(s, x)
  {
    assert HasSlot(s, x) ==> TableOk(s, PathKey(0, x));
  }

  lemma MapStarves(s: State, first: nat, last: nat, word: nat -> u64, s': State, x: nat, s1: State)
    requires MapGoing(s, first, last, word, s', x) && Walked(s', x, true, s1, Missing) && x < MAX_VPN
    ensures MapRan(s, first, last, word, s1, x, NoMemory)
  {
    ExtendsTrans(s, s', s1);
    CannotPay(s, s', first, x);
    StarvedIsAbsent(s', x, s1);
    assert Leaf(s', x) == Leaf(s, x);
    SameLeavesInstalled(s, s', first, x, word, s1);
    MapEndsWith(s, first, last, word, s1, x, NoMemory);
  }

  lemma MapClashes(s: State, first: nat, last: nat, word: nat -> u64, s': State, x: nat, s1: State, p: nat)
    requires MapGoing(s, first, last, word, s', x)
    requires Walked(s', x, true, s1, Page(p)) && Present(s', x)
    ensures MapRan(s, first, last, word, s1, x, Panic)
  {
    ExtendsTrans(s, s', s1);
    PresentIsFree(s', x, s1, Page(p));
    SameLeavesInstalled(s, s', first, x, word, s1);
    assert Leaf(s', x) == Leaf(s, x);
    MapEndsWith(s, first, last, word, s1, x, Panic);
  }

  lemma StoreKeeps(s: State, first: nat, last: nat, word: nat -> u64, s': State, x: nat, s1: State, p: nat, s2: State)
    requires MapGoing(s, first, last, word, s', x)
    requires Walked(s', x, true, s1, Page(p)) && !Present(s', x)
    requires s2 == s1.(mem := Put(s1.mem, p * 512 + Index(0, x), word(x)))
    ensures WF(s2) && Extends(s, s2) && Installed(s, s2, first, x + 1, word) && Paid(s, s2, first, x + 1)
  {
    InstallKeeps(s1, x, word(x), s2);
    ExtendsTrans(s, s', s1);
    ExtendsTrans(s, s1, s2);
    PaysNext(s, s', first, x, s2);
    InstallsNext(s, s', first, x, word, s2);
  }

  lemma MapInstalls(s: State, first: nat, last: nat, word: nat -> u64, s': State, x: nat, s1: State, p: nat, s2: State)
    requires MapGoing(s, first, last, word, s', x)
    requires Walked(s', x, true, s1, Page(p)) && !Present(s', x)
    requires s2 == s1.(mem := Put(s1.mem, p * 512 + Index(0, x), word(x)))
    ensures x == last && x < MAX_VPN ==> MapRan(s, first, last, word, s2, x + 1, Done)
    ensures x != last ==> MapGoing(s, first, last, word, s2, x + 1)
  {
    StoreKeeps(s, first, last, word, s', x, s1, p, s2);
    if x == last < MAX_VPN {
      MapEndsWith(s, first, last, word, s2, x + 1, Done);
    }
  }

  /** The entry that `walk` found shows whether the page number is present. */
  lemma SlotShows(s: State, x: nat, s1: State, p: nat)
    requires Walked(s, x, true, s1, Page(p))
    ensures At(s1.mem, p * 512 + Index(0, x)) % 2 == 1 <==> Present(s, x)
    ensures p * 512 + 512 <= |s1.mem| && p < PPN_LIMIT
  {
    assert TableOk(s1, PathKey(0, x));
    assert Leaf(s1, x) == Leaf(s, x);
  }

  lemma WrapAdds(a: int, b: int)
    ensures Wrap(Wrap(a) + b) == Wrap(a + b)
  {
    var q := a / TWO64;
    assert a == q * TWO64 + Wrap(a);
    var c := Wrap(a) + b;
    DivModUnique(a + b, TWO64, q + c / TWO64, c % TWO64);
  }

  lemma AddressStarts(first: nat, pa: u64)
    ensures AddressAt(first, pa, first) == pa
  {
  }

  lemma NextAddress(first: nat, pa: u64, x: nat)
    ensures AddressAt(first, pa, x + 1) == Wrap(AddressAt(first, pa, x) + 4096)
  {
    WrapAdds(pa + (x - first) * 4096, 4096);
  }

  /** The part of a turn after `walk` has found the slot. */
  lemma FoundKeeps(s: State, x: nat, s1: State, p: nat, w: u64)
    requires WF(s) && Walked(s, x, true, s1, Page(p))
    ensures var s2 := s1.(mem := Put(s1.mem, p * 512 + Index(0, x), w)); WF(s2) && s2.root == s.root
  {
    InstallKeeps(s1, x, w, s1.(mem := Put(s1.mem, p * 512 + Index(0, x), w)));
  }

  /** One turn of the loop from a well-formed state. */
  lemma MapPageKeeps(s: State, x: nat, leaf: u64, s': State, end: MapEnd)
    requires WF(s) && s.root != 0 && x < MAX_VPN && MapPage(s, x, leaf) == (s', end)
    ensures WF(s') && s'.root == s.root
  {
    WalkMeans(s, x, true);
    var (s1, found) := WalkState(s, x, true);
    if found.Page? {
      FoundKeeps(s, x, s1, found.page, leaf);
    }
  }

  lemma FoundGoes(s: State, first: nat, last: nat, word: nat -> u64, s': State, x: nat, s1: State, p: nat, s2: State)
    requires MapGoing(s, first, last, word, s', x) && x < MAX_VPN && Walked(s', x, true, s1, Page(p))
    requires s2 == s1.(mem := Put(s1.mem, p * 512 + Index(0, x), word(x)))
    ensures At(s1.mem, p * 512 + Index(0, x)) % 2 == 1 ==> MapRan(s, first, last, word, s1, x, Panic)
    ensures At(s1.mem, p * 512 + Index(0, x)) % 2 == 0 && x == last ==> MapRan(s, first, last, word, s2, x + 1, Done)
    ensures At(s1.mem, p * 512 + Index(0, x)) % 2 == 0 && x != last ==> MapGoing(s, first, last, word, s2, x + 1)
  {
    SlotShows(s', x, s1, p);
    if Present(s', x) {
      MapClashes(s, first, last, word, s', x, s1, p);
    } else {
      MapInstalls(s, first, last, word, s', x, s1, p, s2);
    }
  }

  /** What a turn makes of the state `s1` in which `walk` left it. */
  predicate TurnEnds(s1: State, found: Found, x: nat, w: u64, s'': State, end: MapEnd) {
    if found.Missing? then s'' == s1 && end == NoMemory
    else if At(s1.mem, found.page * 512 + Index(0, x)) % 2 == 1 then s'' == s1 && end == Panic
    else s'' == s1.(mem := Put(s1.mem, found.page * 512 + Index(0, x), w)) && end == Done
  }

  /** One turn in the course of the loop: it ends there, or goes on. */
  lemma TurnGoes(s: State, first: nat, last: nat, word: nat -> u64, s': State, x: nat, s1: State, found: Found,
                 s'': State, end: MapEnd)
    requires MapGoing(s, first, last, word, s', x) && x < MAX_VPN && Walked(s', x, true, s1, found)
    requires TurnEnds(s1, found, x, word(x), s'', end)
    ensures !end.Done? ==> MapRan(s, first, last, word, s'', x, end)
    ensures end.Done? && x == last ==> MapRan(s, first, last, word, s'', x + 1, Done)
    ensures end.Done? && x != last ==> MapGoing(s, first, last, word, s'', x + 1)
  {
    if found.Missing? {
      MapStarves(s, first, last, word, s', x, s1);
    } else {
      FoundGoes(s, first, last, word, s', x, s1, found.page,
                s1.(mem := Put(s1.mem, found.page * 512 + Index(0, x), word(x))));
    }
  }

  /** What is left of the loop of `map` after one turn. */
  lemma LoopStep(turn: (State, nat) -> (State, MapEnd), first: nat, last: nat, pa: u64, perm: u64, s: State, x: nat,
                 a: u64, s': State, end: MapEnd)
    requires turn == MapTurn(first, pa, perm) && a == AddressAt(first, pa, x)
    requires if x < MAX_VPN then MapPage(s, x, LeafPte(a, perm)) == (s', end) else s' == s && end == Panic
    ensures end.Done? ==> x < MAX_VPN
    ensures MapLoop(turn, s, x, last) ==
            if !end.Done? then (s', x, end) else if x == last then (s', x + 1, Done) else MapLoop(turn, s', x + 1, last)
  {
  }

  /** A turn at page number `x` leads from a state that is `going` to one that is `going` or `over`. */
  ghost predicate Leads(going: (State, nat) -> bool, over: (State, nat, MapEnd) -> bool,
                        turn: (State, nat) -> (State, MapEnd), last: nat, s: State, x: nat)
  {
    if x >= MAX_VPN then over(s, x, Panic)
    else
      var (s1, end) := turn(s, x);
      if !end.Done? then over(s1, x, end) else if x == last then over(s1, x + 1, Done) else going(s1, x + 1)
  }

  /** Induction over the loop of `map`: what every turn leads to holds at its end. */
  lemma {:induction false} MapInduction(going: (State, nat) -> bool, over: (State, nat, MapEnd) -> bool,
                                        turn: (State, nat) -> (State, MapEnd), last: nat, s: State, x: nat)
    requires forall z: State, y: nat :: going(z, y) ==> Leads(going, over, turn, last, z, y)
    requires going(s, x)
    ensures var (e, next, end) := MapLoop(turn, s, x, last); over(e, next, end)
    decreases if x < MAX_VPN then MAX_VPN - x else 0
  {
    assert Leads(going, over, turn, last, s, x);
    if x < MAX_VPN {
      var (s1, end) := turn(s, x);
      if end.Done? && x != last {
        MapInduction(going, over, turn, last, s1, x + 1);
      }
    }
  }

  /** The states in which the loop of a call of `map` goes on, and those in which it ends. */
  ghost function Goings(s: State, first: nat, last: nat, word: nat -> u64): (State, nat) -> bool {
    (z: State, y: nat) => MapGoing(s, first, last, word, z, y)
  }

  ghost function Ends(s: State, first: nat, last: nat, word: nat -> u64): (State, nat, MapEnd) -> bool {
    (z: State, y: nat, end: MapEnd) => MapRan(s, first, last, word, z, y, end)
  }

  lemma TurnLeads(s: State, first: nat, last: nat, word: nat -> u64, turn: (State, nat) -> (State, MapEnd), z: State,
                  y: nat, s1: State, found: Found, z1: State, end: MapEnd)
    requires MapGoing(s, first, last, word, z, y) && y < MAX_VPN && Walked(z, y, true, s1, found)
    requires turn(z, y) == (z1, end) && TurnEnds(s1, found, y, word(y), z1, end)
    ensures Leads(Goings(s, first, last, word), Ends(s, first, last, word), turn, last, z, y)
  {
    TurnGoes(s, first, last, word, z, y, s1, found, z1, end);
  }

  lemma PageTurn(z: State, y: nat, w: u64, z1: State, end: MapEnd) returns (s1: State, found: Found)
    requires WF(z) && z.root != 0 && y < MAX_VPN && MapPage(z, y, w) == (z1, end)
    ensures Walked(z, y, true, s1, found) && TurnEnds(s1, found, y, w, z1, end)
  {
    WalkMeans(z, y, true);
    s1, found := WalkState(z, y, true).0, WalkState(z, y, true).1;
  }

  lemma TurnIs(first: nat, pa: u64, perm: u64, z: State, y: nat)
    ensures MapTurn(first, pa, perm)(z, y) == MapPage(z, y, Targets(first, pa, perm)(y))
  {
  }

  lemma MapLeads(s: State, first: nat, last: nat, pa: u64, perm: u64, word: nat -> u64,
                 turn: (State, nat) -> (State, MapEnd), z: State, y: nat)
    requires word == Targets(first, pa, perm) && turn == MapTurn(first, pa, perm)
    requires s.root != 0 && MapGoing(s, first, last, word, z, y) && y < MAX_VPN
    ensures Leads(Goings(s, first, last, word), Ends(s, first, last, word), turn, last, z, y)
  {
    TurnIs(first, pa, perm, z, y);
    var (z1, end) := turn(z, y);
    var s1, found := PageTurn(z, y, word(y), z1, end);
    TurnLeads(s, first, last, word, turn, z, y, s1, found, z1, end);
  }

  lemma AllLead(s: State, first: nat, last: nat, pa: u64, perm: u64, word: nat -> u64,
                turn: (State, nat) -> (State, MapEnd))
    requires s.root != 0 && word == Targets(first, pa, perm) && turn == MapTurn(first, pa, perm)
    ensures forall z: State, y: nat :: Goings(s, first, last, word)(z, y) ==>
              Leads(Goings(s, first, last, word), Ends(s, first, last, word), turn, last, z, y)
  {
    forall z: State, y: nat | Goings(s, first, last, word)(z, y)
      ensures Leads(Goings(s, first, last, word), Ends(s, first, last, word), turn, last, z, y)
    {
      if y >= MAX_VPN {
        MapTooFar(s, first, last, word, z, y);
      } else {
        MapLeads(s, first, last, pa, perm, word, turn, z, y);
      }
    }
  }

  /** What `map` does to a well-formed state is what MapRan says. */
  lemma MapMeans(s: State, first: nat, last: nat, pa: u64, perm: u64)
    requires WF(s) && s.root != 0
    ensures var ran := MapState(s, first, last, pa, perm);
            MapRan(s, first, last, Targets(first, pa, perm), ran.0, ran.1, ran.2)
  {
    var word, turn := Targets(first, pa, perm), MapTurn(first, pa, perm);
    var going, over := Goings(s, first, last, word), Ends(s, first, last, word);
    assert going(s, first) by { MapStarts(s, first, last, word); }
    AllLead(s, first, last, pa, perm, word, turn);
    MapInduction(going, over, turn, last, s, first);
    var (s', next, end) := MapState(s, first, last, pa, perm);
    assert over(s', next, end);
  }
}
