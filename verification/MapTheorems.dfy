/** What `map` promises: exactly when it succeeds, exactly what it costs, and exactly what the
    hardware sees afterwards. */
module MapTheorems {
  import opened Bits
  import opened Sysdef
  import opened ArchMm
  import opened Sv39
  import opened KernelState
  import opened Separation
  import opened Walking
  import opened Mapping
  import opened Meaning

  /** The tables that the page numbers in [a, b) need: one per distinct va>>30, one per distinct va>>21. */
  ghost function Needed(a: nat, b: nat): set<Key>
    decreases b
  {
    if b <= a then {} else Needed(a, b - 1) + Path(b - 1)
  }

  lemma {:induction false} NeededMeaning(a: nat, b: nat, key: Key)
    ensures key in Needed(a, b) <==> exists y :: a <= y < b && (key == PathKey(1, y) || key == PathKey(0, y))
    decreases b
  {
    if a < b {
      NeededMeaning(a, b - 1, key);
      if key in Path(b - 1) {
        assert a <= b - 1 < b && (key == PathKey(1, b - 1) || key == PathKey(0, b - 1));
      }
    }
  }

  ghost function MissingTables(s: State, a: nat, b: nat): set<Key> {
    Needed(a, b) - s.tables.Keys
  }

  lemma {:induction false} TablesWithIs(have: set<Key>, a: nat, b: nat)
    ensures TablesWith(have, a, b) == have + Needed(a, b)
    decreases b
  {
    if a < b {
      TablesWithIs(have, a, b - 1);
    }
  }

  lemma AddsOne<T>(have: set<T>, need: set<T>, x: T)
    ensures |need + {x} - have| == |need - have| + if x in have + need then 0 else 1
  {
    assert need + {x} - have == (need - have) + if x in have + need then {} else {x};
  }

  lemma AddsTwo<T>(have: set<T>, need: set<T>, x: T, y: T)
    requires x != y
    ensures |need + {x, y} - have|
            == |need - have| + (if x in have + need then 0 else 1) + (if y in have + need then 0 else 1)
  {
    AddsOne(have, need, x);
    AddsOne(have, need + {x}, y);
    assert need + {x} + {y} == need + {x, y};
  }

  /** The price added up page by page is the number of missing tables. */
  lemma {:induction false} PriceIsMissing(have: set<Key>, a: nat, b: nat)
    ensures Price(have, a, b) == |Needed(a, b) - have|
    decreases b
  {
    if a < b {
      var x := b - 1;
      PriceIsMissing(have, a, x);
      TablesWithIs(have, a, x);
      AddsTwo(have, Needed(a, x), PathKey(1, x), PathKey(0, x));
    }
  }

  lemma {:induction false} PriceGrows(have: set<Key>, a: nat, b: nat, c: nat)
    requires b <= c
    ensures Price(have, a, b) <= Price(have, a, c)
    decreases c
  {
    if b < c {
      PriceGrows(have, a, b, c - 1);
    }
  }

  /** How many tables are missing for [a, b). */
  ghost function Shortage(s: State, a: nat, b: nat): nat {
    |MissingTables(s, a, b)|
  }

  lemma ShortageIsPrice(s: State, a: nat, b: nat)
    ensures Shortage(s, a, b) == Price(s.tables.Keys, a, b)
  {
    PriceIsMissing(s.tables.Keys, a, b);
  }

  /** A longer range misses no fewer tables than a shorter one costs. */
  lemma ShortageCovers(s: State, x: nat, next: nat, last: nat, m: nat)
    requires next <= last && m == Shortage(s, x, last + 1)
    ensures Price(s.tables.Keys, x, next + 1) <= m
  {
    var have := s.tables.Keys;
    var p, q := Price(have, x, last + 1), Price(have, x, next + 1);
    assert q <= p by { PriceGrows(have, x, next + 1, last + 1); }
    assert m == p by { ShortageIsPrice(s, x, last + 1); }
  }

  lemma PanicShows(s: State, x: nat, last: nat, s': State, next: nat)
    requires Ended(s, x, last, s', next, Panic) && x <= last < MAX_VPN
    ensures next <= last && Present(s, next)
  {
  }

  lemma SuccessShows(s: State, x: nat, last: nat, s': State, next: nat)
    requires Ended(s, x, last, s', next, Done)
    ensures x <= last < MAX_VPN && next == last + 1 && Shortage(s, x, last + 1) <= |s.free|
  {
    ShortageIsPrice(s, x, last + 1);
  }

  /** What `map` needs to succeed: a range in order and below the limit, no page of it mapped already,
      and at least as many free pages as missing tables. */
  ghost predicate CanMap(s: State, x: nat, last: nat) {
    && x <= last < MAX_VPN
    && (forall y :: x <= y <= last ==> !Present(s, y))
    && Shortage(s, x, last + 1) <= |s.free|
  }

  /** `map` succeeds if and only if it can. */
  lemma MapOutcome(s: State, x: nat, last: nat, word: nat -> u64, s': State, next: nat, end: MapEnd)
    requires Installed(s, s', x, next, word) && Ended(s, x, last, s', next, end)
    ensures end.Done? <==> CanMap(s, x, last)
  {
    if end.Done? {
      SuccessShows(s, x, last, s', next);
    } else if x <= last < MAX_VPN {
      if end.NoMemory? {
        ShortageCovers(s, x, next, last, Shortage(s, x, last + 1));
      } else {
        PanicShows(s, x, last, s', next);
      }
    }
  }

  lemma MapRanOutcome(s: State, x: nat, last: nat, word: nat -> u64, s': State, next: nat, end: MapEnd)
    requires MapRan(s, x, last, word, s', next, end)
    ensures end.Done? <==> CanMap(s, x, last)
    ensures end.Done? ==> next == last + 1
  {
    MapOutcome(s, x, last, word, s', next, end);
  }

  /** The outcome of a call, from a well-formed state. */
  lemma MapDoes(s: State, first: nat, last: nat, pa: u64, perm: u64, s': State, next: nat, end: MapEnd)
    requires WF(s) && s.root != 0
    ensures MapState(s, first, last, pa, perm) == (s', next, end) ==>
              && MapRan(s, first, last, Targets(first, pa, perm), s', next, end)
              && (end.Done? <==> CanMap(s, first, last)) && (end.Done? ==> next == last + 1)
  {
    MapMeans(s, first, last, pa, perm);
    if MapState(s, first, last, pa, perm) == (s', next, end) {
      MapRanOutcome(s, first, last, Targets(first, pa, perm), s', next, end);
    }
  }

  /** On success exactly the missing tables have been taken, from the top of the stack. */
  lemma MapCost(s: State, x: nat, last: nat, s': State, next: nat)
    requires Ended(s, x, last, s', next, Done)
    ensures Shortage(s, x, last + 1) <= |s.free| && s'.free == Rest(s.free, Shortage(s, x, last + 1))
    ensures s'.tables.Keys == s.tables.Keys + Needed(x, last + 1)
  {
    ShortageIsPrice(s, x, last + 1);
    TablesWithIs(s.tables.Keys, x, last + 1);
  }

  /** Page number `y` can come up in the loop of `map` over [x, last]. */
  predicate InWay(x: nat, last: nat, y: nat) {
    x <= y && (x <= last ==> y <= last)
  }

  /** For page number `y` the free pages no longer suffice, and nothing stops the loop before. */
  ghost predicate OutOfMemoryAt(s: State, x: nat, last: nat, y: nat) {
    && InWay(x, last, y) && y < MAX_VPN && Shortage(s, x, y + 1) > |s.free|
    && forall z :: x <= z <= y ==> !Present(s, z)
  }

  /** Page number `y` cannot be mapped, and the free pages suffice up to there. */
  ghost predicate BlockedAt(s: State, x: nat, last: nat, y: nat) {
    InWay(x, last, y) && (y >= MAX_VPN || Present(s, y)) && Shortage(s, x, y) <= |s.free|
  }

  /** The price up to `next` bounds every shorter one. */
  lemma PaidUpTo(s: State, x: nat, y: nat, next: nat, p: nat)
    requires y <= next && p == Price(s.tables.Keys, x, y) && Price(s.tables.Keys, x, next) <= |s.free|
    ensures p <= |s.free|
  {
    PriceGrows(s.tables.Keys, x, y, next);
  }

  lemma OutOfMemoryEnds(s: State, x: nat, last: nat, s': State, next: nat, end: MapEnd, y: nat, p: nat)
    requires Ended(s, x, last, s', next, end)
    requires InWay(x, last, y) && y < MAX_VPN && p == Price(s.tables.Keys, x, y + 1) && p > |s.free|
    requires forall z :: x <= z <= y ==> !Present(s, z)
    requires x <= next
    ensures end == NoMemory
  {
    if !end.NoMemory? && y < next {
      PaidUpTo(s, x, y + 1, next, p);
    }
  }

  lemma BlockedEnds(s: State, x: nat, last: nat, s': State, next: nat, end: MapEnd, y: nat, p: nat)
    requires Ended(s, x, last, s', next, end) && InWay(x, last, y) && (y >= MAX_VPN || Present(s, y))
    requires p == Price(s.tables.Keys, x, y) && p <= |s.free|
    requires forall z :: x <= z < next ==> !Present(s, z)
    ensures end == Panic
  {
    if end.NoMemory? && next < y {
      PaidUpTo(s, x, next + 1, y, Price(s.tables.Keys, x, next + 1));
    }
  }

  lemma IsPrice(s: State, x: nat, y: nat, m: nat, p: nat)
    requires m == Shortage(s, x, y) && p == Price(s.tables.Keys, x, y)
    ensures m == p
  {
    ShortageIsPrice(s, x, y);
  }

  lemma StarvesThere(s: State, x: nat, last: nat, s': State, next: nat, m: nat)
    requires Ended(s, x, last, s', next, NoMemory) && m == Shortage(s, x, next + 1)
    ensures m > |s.free|
  {
    IsPrice(s, x, next + 1, m, Price(s.tables.Keys, x, next + 1));
  }

  lemma NoneLeftAt(s: State, x: nat, last: nat, y: nat, m: nat)
    requires InWay(x, last, y) && y < MAX_VPN && m == Shortage(s, x, y + 1) && m > |s.free|
    requires forall z :: x <= z <= y ==> !Present(s, z)
    ensures OutOfMemoryAt(s, x, last, y)
  {
  }

  lemma StarvesOnly(s: State, x: nat, last: nat, s': State, next: nat, end: MapEnd, y: nat, m: nat)
    requires Ended(s, x, last, s', next, end) && x <= next && OutOfMemoryAt(s, x, last, y) && m == Shortage(s, x, y + 1)
    ensures end == NoMemory
  {
    IsPrice(s, x, y + 1, m, Price(s.tables.Keys, x, y + 1));
    OutOfMemoryEnds(s, x, last, s', next, end, y, Price(s.tables.Keys, x, y + 1));
  }

  /** Exactly when `map` ends with -2: some page is below the limit and cannot be paid for, and neither it
      nor any before it is present. The page it got to is such a one, and no free page is left. */
  lemma MapRunsOut(s: State, x: nat, last: nat, word: nat -> u64, s': State, next: nat, end: MapEnd)
    requires Installed(s, s', x, next, word) && Ended(s, x, last, s', next, end)
    ensures end == NoMemory <==> exists y: nat :: OutOfMemoryAt(s, x, last, y)
    ensures end == NoMemory ==> s'.free == [] && OutOfMemoryAt(s, x, last, next)
  {
    if end.NoMemory? {
      StarvesThere(s, x, last, s', next, Shortage(s, x, next + 1));
      NoneLeftAt(s, x, last, next, Shortage(s, x, next + 1));
    }
    if y: nat :| OutOfMemoryAt(s, x, last, y) {
      StarvesOnly(s, x, last, s', next, end, y, Shortage(s, x, y + 1));
    }
  }

  /** And exactly when in a panic: some page is present or beyond the limit, and all before it could be
      paid for. */
  lemma MapPanics(s: State, x: nat, last: nat, word: nat -> u64, s': State, next: nat, end: MapEnd)
    requires Installed(s, s', x, next, word) && Ended(s, x, last, s', next, end)
    ensures end == Panic <==> exists y: nat :: BlockedAt(s, x, last, y)
  {
    if end.Panic? {
      IsPrice(s, x, next, Shortage(s, x, next), Price(s.tables.Keys, x, next));
      assert BlockedAt(s, x, last, next);
    }
    if y: nat :| BlockedAt(s, x, last, y) {
      IsPrice(s, x, y, Shortage(s, x, y), Price(s.tables.Keys, x, y));
      BlockedEnds(s, x, last, s', next, end, y, Price(s.tables.Keys, x, y));
    }
  }

  lemma InstalledTranslation(s: State, s': State, x: nat, next: nat, word: nat -> u64, va: u64)
    requires WF(s) && WF(s') && s.root == s'.root != 0 && Installed(s, s', x, next, word) && next <= MAX_VPN
    ensures Translate(s'.mem, s'.root, va) ==
            if x <= va / 4096 < next then LeafMeaning(word(va / 4096), va % 4096) else Translate(s.mem, s.root, va)
  {
    TranslateIsLeaf(s, va);
    TranslateIsLeaf(s', va);
    assert Leaf(s', va / 4096) == if x <= va / 4096 < next then word(va / 4096) else Leaf(s, va / 4096);
  }

  lemma TargetMeaning(x: nat, pa: u64, perm: u64, y: nat, offset: nat)
    requires LegalPerm(perm) && x <= y && pa / 4096 + (y - x) < PPN_LIMIT
    ensures LeafMeaning(Targets(x, pa, perm)(y), offset)
            == Mapped((pa / 4096 + (y - x)) * 4096 + offset, PermsOf(perm))
  {
    var target: nat := pa + (y - x) * 4096;
    assert target / 4096 == pa / 4096 + (y - x);
    assert Wrap(target) == target;
    LeafPteMeaning(target, perm, offset);
  }

  /** Address `va`, on page `first` or later, when `first` goes to the page of `pa`. */
  function Shifted(first: nat, pa: u64, perm: u64, va: u64): Translation
    requires first <= va / 4096
  {
    Mapped(pa / 4096 * 4096 + (va - first * 4096), PermsOf(perm))
  }

  /** Whatever the outcome, after `map` the hardware translates the addresses of the installed pages
      to their targets, with the given permissions, and every other 64-bit address as before. */
  lemma MapTranslation(s: State, x: nat, pa: u64, perm: u64, s': State, next: nat, va: u64)
    requires WF(s) && WF(s') && s.root == s'.root != 0 && LegalPerm(perm)
    requires Installed(s, s', x, next, Targets(x, pa, perm))
    requires next <= MAX_VPN && pa / 4096 + (next - x) <= PPN_LIMIT
    ensures Translate(s'.mem, s'.root, va) ==
            if x <= va / 4096 < next
            then Shifted(x, pa, perm, va)
            else Translate(s.mem, s.root, va)
  {
    InstalledTranslation(s, s', x, next, Targets(x, pa, perm), va);
    if x <= va / 4096 < next {
      TargetMeaning(x, pa, perm, va / 4096, va % 4096);
    }
  }

  lemma WholePage(r: nat, q: nat)
    requires r % 4096 == 0 && q == r / 4096
    ensures r == q * 4096
  {
  }

  lemma FirstBound(va: u64)
    requires va <= MAX_VA
    ensures va <= FirstOf(va) * 4096 < va + 4096
  {
    RoundUpMeaning(va);
    WholePage(RoundUp(va, PAGESZ), FirstOf(va));
  }

  lemma LastBound(va: u64, sz: u64, end: u64)
    requires sz != 0 && va + sz <= MAX_VA && end == va + sz - 1
    ensures LastOf(va, sz) * 4096 <= end < LastOf(va, sz) * 4096 + 4096
  {
    DivModUnique(end, TWO64, 0, end);
    RoundDownMeaning(end);
    WholePage(RoundDown(end, PAGESZ), LastOf(va, sz));
  }

  /** The page numbers that `map` computes are the least not below `va` and that of the last byte. */
  lemma CallEnds(va: u64, sz: u64)
    requires sz != 0 && va + sz <= MAX_VA
    ensures va <= FirstOf(va) * 4096 < va + 4096
    ensures LastOf(va, sz) * 4096 < va + sz <= LastOf(va, sz) * 4096 + 4096
  {
    FirstBound(va);
    LastBound(va, sz, va + sz - 1);
  }

  /** They are in order if and only if `va` is the start of a page, or the range reaches the next page. */
  lemma CallInOrder(va: u64, sz: u64)
    requires sz != 0 && va + sz <= MAX_VA
    ensures FirstOf(va) <= LastOf(va, sz) <==> va % 4096 == 0 || va % 4096 + sz > 4096
  {
    CallEnds(va, sz);
    PagesInOrder(va, sz, FirstOf(va), LastOf(va, sz), va / 4096, va % 4096);
  }

  lemma PagesInOrder(va: nat, sz: nat, first: nat, last: nat, q: nat, r: nat)
    requires va == q * 4096 + r && r < 4096 && sz != 0
    requires va <= first * 4096 < va + 4096 && last * 4096 < va + sz <= last * 4096 + 4096
    ensures first <= last <==> r == 0 || r + sz > 4096
  {
  }

  /** One call of `map`, in the addresses its caller gave, for the page numbers of CallEnds: it succeeds
      exactly when it can, and then the hardware takes the whole pages from the rounded `va` on to those
      from `pa` on; however it ends, the pages up to `next` are so mapped and every other 64-bit address
      means what it did. */
  lemma MapCall(s: State, va: u64, pa: u64, sz: u64, perm: u64, s': State, first: nat, last: nat, next: nat,
                end: MapEnd, a: u64)
    requires WF(s) && s.root != 0 && LegalPerm(perm) && va + sz <= MAX_VA && pa + sz <= PPN_LIMIT * 4096
    requires first <= last && va <= first * 4096 < va + 4096 && last * 4096 < va + sz <= last * 4096 + 4096
    requires MapRan(s, first, last, Targets(first, pa, perm), s', next, end)
    ensures end.Done? <==> CanMap(s, first, last)
    ensures end.Done? ==> next == last + 1
    ensures Translate(s'.mem, s'.root, a) ==
            if first <= a / 4096 < next then Shifted(first, pa, perm, a) else Translate(s.mem, s.root, a)
  {
    var word := Targets(first, pa, perm);
    MapRanOutcome(s, first, last, word, s', next, end);
    RoomAbove(va, pa, sz, first, last, next);
    MapTranslation(s, first, pa, perm, s', next, a);
  }

  lemma RoomAbove(va: nat, pa: nat, sz: nat, first: nat, last: nat, next: nat)
    requires va <= first * 4096 && last * 4096 < va + sz <= MAX_VA && pa + sz <= PPN_LIMIT * 4096
    requires first <= next <= last + 1
    ensures next <= MAX_VPN && pa / 4096 + (next - first) <= PPN_LIMIT
  {
  }

  /** Every page that has left the free list is a table of the tree. */
  lemma TakenAreTables(s: State, s': State, p: nat)
    requires WF(s) && WF(s') && Extends(s, s') && p in s.free && p !in s'.free
    ensures exists key :: key in s'.tables && s'.tables[key] == p
  {
    var i :| 0 <= i < |s.free| && s.free[i] == p;
    assert LinkOk(s, i);
    assert s'.owner[p].Table?;
  }
}
