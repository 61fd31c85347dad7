/** The kernel's own address space, as start-up leaves it: an identity map of the memory, text first. */
module Boot {
  import opened Bits
  import opened ArchMm
  import opened Sv39
  import opened KernelState
  import opened Separation
  import opened Mapping
  import opened MapTheorems
  import opened Meaning

  const PAGES: nat := 8192

  /** What the hardware is to make of a virtual address once the kernel has started. */
  function KernelMap(start: nat, textEnd: nat, va: u64): Translation {
    if start <= va < textEnd then Mapped(va, Perms(true, false, true, false))
    else if textEnd <= va < start + 0x200_0000 then Mapped(va, Perms(true, true, false, false))
    else Fault
  }

  /** How many tables a range of page numbers needs below the root. */
  function Spread(a: nat, b: nat): nat
    requires a < b
  {
    ((b - 1) / 0x4_0000 - a / 0x4_0000 + 1) + ((b - 1) / 512 - a / 512 + 1)
  }

  lemma PathOf(y: nat)
    ensures PathKey(0, y) == Key(0, y / 512) && PathKey(1, y) == Key(1, y / 0x4_0000)
  {
    assert y / 512 / 512 == y / 0x4_0000;
  }

  /** Division is monotonic, and moves by at most one from a number to the next. */
  lemma DivStep(y: nat, d: nat)
    requires d > 0
    ensures y / d <= (y + 1) / d <= y / d + 1
  {
    var q, r := y / d, y % d;
    assert y == q * d + r;
    if r + 1 < d {
      DivModUnique(y + 1, d, q, r + 1);
    } else {
      assert y + 1 == (q + 1) * d + 0;
      DivModUnique(y + 1, d, q + 1, 0);
    }
  }

  /** A key of the last page number but one is already needed exactly if it is that of the last. */
  lemma {:induction false} NeededKeys(a: nat, b: nat, lvl: nat, d: nat, k: nat)
    requires a < b && ((lvl == 0 && d == 512) || (lvl == 1 && d == 0x4_0000))
    ensures Key(lvl, k) in Needed(a, b) <==> a / d <= k <= (b - 1) / d
    decreases b
  {
    var y := b - 1;
    PathOf(y);
    if a == y {
      assert Needed(a, y) == {};
    } else {
      NeededKeys(a, y, lvl, d, k);
      DivStep(y - 1, d);
      DivMono(a, y, d);
    }
  }

  lemma DivMono(a: nat, b: nat, d: nat)
    requires a <= b && d > 0
    ensures a / d <= b / d
  {
    var q := b / d;
    assert b == q * d + b % d;
    assert b < (q + 1) * d;
    assert a == a / d * d + a % d;
    if a / d >= q + 1 {
      MulMono(q + 1, a / d, d);
    }
  }

  lemma GrowsByTwo<T>(need: set<T>, x: T, y: T)
    requires x != y
    ensures |need + {x, y}| == |need| + (if x in need then 0 else 1) + (if y in need then 0 else 1)
  {
    assert need + {x, y} == need + (if x in need then {} else {x}) + (if y in need then {} else {y});
  }

  /** The number of tables needed, exactly. */
  lemma {:induction false} NeededCount(a: nat, b: nat)
    requires a < b
    ensures |Needed(a, b)| == Spread(a, b)
    decreases b
  {
    var y := b - 1;
    PathOf(y);
    GrowsByTwo(Needed(a, y), PathKey(1, y), PathKey(0, y));
    if a == y {
      assert Needed(a, y) == {};
    } else {
      NeededCount(a, y);
      NeededKeys(a, y, 0, 512, y / 512);
      NeededKeys(a, y, 1, 0x4_0000, y / 0x4_0000);
      DivStep(y - 1, 512);
      DivStep(y - 1, 0x4_0000);
      DivMono(a, y, 512);
      DivMono(a, y, 0x4_0000);
    }
  }

  lemma {:induction false} NeededJoin(a: nat, b: nat, c: nat)
    requires a <= b <= c
    ensures Needed(a, b) + Needed(b, c) == Needed(a, c)
    decreases c
  {
    if b < c {
      NeededJoin(a, b, c - 1);
    } else {
      assert Needed(b, c) == {};
    }
  }

  /** 32 MiB need at most 19 tables below the root, wherever they start. */
  lemma SpreadBound(a: nat)
    ensures Spread(a, a + PAGES) <= 19
  {
    assert (a + 8191) / 512 - a / 512 <= 16;
    assert (a + 8191) / 0x4_0000 - a / 0x4_0000 <= 1;
  }

  /** The state in which only the root table exists, so nothing is mapped. */
  ghost predicate OnlyRoot(s: State) {
    WF(s) && s.root != 0 && s.tables.Keys == {Key(2, 0)}
  }

  lemma TextShortage(s: State, f: nat, t: nat)
    requires s.tables.Keys == {Key(2, 0)}
    ensures Shortage(s, f, t) == |Needed(f, t)|
  {
    NoRoot(f, t);
    assert MissingTables(s, f, t) == Needed(f, t);
  }

  lemma WholeBounds(f: nat, t: nat)
    requires f < t <= f + PAGES
    ensures |Needed(f, t)| <= |Needed(f, f + PAGES)| == Spread(f, f + PAGES) <= 19
  {
    NeededJoin(f, t, f + PAGES);
    SubsetSize(Needed(f, t), Needed(f, f + PAGES));
    NeededCount(f, f + PAGES);
    SpreadBound(f);
  }

  lemma {:induction false} NoRoot(a: nat, b: nat)
    ensures Key(2, 0) !in Needed(a, b)
    decreases b
  {
    if a < b {
      NoRoot(a, b - 1);
    }
  }

  lemma SubsetSize<T>(a: set<T>, b: set<T>)
    requires a <= b
    ensures |a| <= |b|
  {
    assert b == a + (b - a);
  }

  lemma UnionSize<T>(a: set<T>, b: set<T>)
    ensures |a + b| == |a| + |b - a|
  {
    assert a + b == a + (b - a);
  }

  /** What is missing for the rest of the memory, once the text has been mapped. */
  lemma RestShortage(s1: State, f: nat, t: nat)
    requires f < t < f + PAGES && s1.tables.Keys == {Key(2, 0)} + Needed(f, t)
    ensures |Needed(f, t)| + Shortage(s1, t, f + PAGES) == Spread(f, f + PAGES) <= 19
  {
    var all, text, rest := Needed(f, f + PAGES), Needed(f, t), Needed(t, f + PAGES);
    NoRoot(t, f + PAGES);
    assert MissingTables(s1, t, f + PAGES) == rest - text;
    UnionSize(text, rest);
    assert text + rest == all by { NeededJoin(f, t, f + PAGES); }
    WholeBounds(f, t);
  }

  lemma TextTables(s: State, f: nat, t: nat, s1: State)
    requires s.tables.Keys == {Key(2, 0)} && f < t && Ended(s, f, t - 1, s1, t, Done)
    ensures s1.tables.Keys == {Key(2, 0)} + Needed(f, t)
    ensures |s1.free| == |s.free| - |Needed(f, t)|
  {
    assert Shortage(s, f, t) == |Needed(f, t)| by { TextShortage(s, f, t); }
    MapCost(s, f, t - 1, s1, t);
  }

  lemma NothingPresent(s: State, y: nat)
    requires OnlyRoot(s)
    ensures Leaf(s, y) == 0
  {
  }

  lemma AddSize<T>(x: T, all: set<T>, keys: set<T>)
    requires x !in all && keys == {x} + all
    ensures |keys| == 1 + |all|
  {
    UnionSize({x}, all);
    assert all - {x} == all;
  }

  lemma Regroup<T>(r: set<T>, x: set<T>, y: set<T>, z: set<T>)
    requires x + y == z
    ensures r + x + y == r + z
  {
  }

  lemma AllKeys(s1: State, f: nat, t: nat, s2: State)
    requires f < t < f + PAGES && s1.tables.Keys == {Key(2, 0)} + Needed(f, t)
    requires Ended(s1, t, f + PAGES - 1, s2, f + PAGES, Done)
    ensures s2.tables.Keys == {Key(2, 0)} + Needed(f, f + PAGES)
  {
    MapCost(s1, t, f + PAGES - 1, s2, f + PAGES);
    NeededJoin(f, t, f + PAGES);
    Regroup({Key(2, 0)}, Needed(f, t), Needed(t, f + PAGES), Needed(f, f + PAGES));
  }

  /** How many tables there are in the end, the root among them: at most 20. */
  lemma TablesUsed(s1: State, f: nat, t: nat, s2: State)
    requires f < t < f + PAGES && s1.tables.Keys == {Key(2, 0)} + Needed(f, t)
    requires Ended(s1, t, f + PAGES - 1, s2, f + PAGES, Done)
    ensures |s2.tables| == 1 + Spread(f, f + PAGES) <= 20
  {
    AllKeys(s1, f, t, s2);
    NoRoot(f, f + PAGES);
    WholeBounds(f, t);
    AddSize(Key(2, 0), Needed(f, f + PAGES), s2.tables.Keys);
  }

  const RX: u64 := 10
  const RW: u64 := 6

  /** What the hardware sees after both maps: the identity on the memory, read and execute below the
      end of the text, read and write above, and nothing anywhere else. */
  lemma BootTranslation(s: State, f: nat, t: nat, s1: State, s2: State, va: u64)
    requires OnlyRoot(s) && WF(s1) && WF(s2) && s.root == s1.root == s2.root && f < t < f + PAGES <= MAX_VPN
    requires Installed(s, s1, f, t, Targets(f, f * 4096, RX))
    requires Installed(s1, s2, t, f + PAGES, Targets(t, t * 4096, RW))
    ensures Translate(s2.mem, s2.root, va) == KernelMap(f * 4096, t * 4096, va)
  {
    KernelPerms();
    EmptyFaults(s, va);
    IdentityTranslation(s, f, t, f * 4096, RX, s1, va);
    IdentityTranslation(s1, t, f + PAGES, t * 4096, RW, s2, va);
    TwoMaps(f, t, va, Translate(s1.mem, s1.root, va), Translate(s2.mem, s2.root, va));
  }

  lemma KernelPerms()
    ensures LegalPerm(RX) && PermsOf(RX) == Perms(true, false, true, false)
    ensures LegalPerm(RW) && PermsOf(RW) == Perms(true, true, false, false)
  {
  }

  lemma TwoMaps(f: nat, t: nat, va: u64, text: Translation, both: Translation)
    requires f < t < f + PAGES
    requires text == if f * 4096 <= va < t * 4096 then Mapped(va, PermsOf(RX)) else Fault
    requires both == if t * 4096 <= va < (f + PAGES) * 4096 then Mapped(va, PermsOf(RW)) else text
    ensures both == KernelMap(f * 4096, t * 4096, va)
  {
    KernelPerms();
  }

  lemma EmptyFaults(s: State, va: u64)
    requires OnlyRoot(s)
    ensures Translate(s.mem, s.root, va) == Fault
  {
    TranslateIsLeaf(s, va);
    NothingPresent(s, va / 4096);
  }

  /** An identity map of the pages from `f` to `t`. */
  lemma IdentityTranslation(s: State, f: nat, t: nat, pa: u64, perm: u64, s1: State, va: u64)
    requires WF(s) && WF(s1) && s.root == s1.root != 0 && f < t <= MAX_VPN && pa == f * 4096 && LegalPerm(perm)
    requires Installed(s, s1, f, t, Targets(f, pa, perm))
    ensures Translate(s1.mem, s1.root, va) ==
            if f * 4096 <= va < t * 4096 then Mapped(va, PermsOf(perm)) else Translate(s.mem, s.root, va)
  {
    DivModUnique(pa, 4096, f, 0);
    MapTranslation(s, f, pa, perm, s1, t, va);
    PageBounds(va, f, t);
  }

  lemma PageBounds(va: nat, a: nat, b: nat)
    ensures a <= va / 4096 < b <==> a * 4096 <= va < b * 4096
  {
  }

  /** The first free page, cleared, becomes the root table. */
  function RootState(s: State): State
    requires s.free != []
  {
    var (s1, p) := PNew(s);
    s1.(mem := FillPage(s1.mem, p, 0), owner := s1.owner[p := Table(Key(2, 0))], tables := s1.tables[Key(2, 0) := p],
        root := p)
  }

  lemma RootMade(s0: State, s: State)
    requires WF(s0) && s0.root == 0 && s0.tables == map[] && s0.free != [] && s == RootState(s0)
    ensures OnlyRoot(s) && s.free == s0.free[1..]
  {
    PNewKeeps(s0);
    var (s1, p) := PNew(s0);
    FillHeld(s1, p, 0);
    var s2 := s1.(mem := FillPage(s1.mem, p, 0));
    RootChain(s2, p, s);
    RootTree(s2, p, s);
  }

  lemma RootChain(s2: State, p: nat, s: State)
    requires ChainOk(s2) && p in s2.owner && s2.owner[p] == Held
    requires s == s2.(owner := s2.owner[p := Table(Key(2, 0))], tables := s2.tables[Key(2, 0) := p], root := p)
    ensures ChainOk(s)
  {
    forall i | 0 <= i < |s.free|
      ensures LinkOk(s, i)
    {
      assert LinkOk(s2, i);
    }
  }

  lemma RootTree(s2: State, p: nat, s: State)
    requires TablesOk(s2) && s2.tables == map[] && p in s2.owner && s2.owner[p] == Held && p != 0
    requires s == s2.(owner := s2.owner[p := Table(Key(2, 0))], tables := s2.tables[Key(2, 0) := p], root := p)
    requires forall i :: 0 <= i < 512 ==> Entry(s2.mem, p, i) == 0
    ensures TablesOk(s) && EntriesOk(s)
  {
    assert TableOk(s, Key(2, 0));
    forall j | 0 <= j < 512
      ensures EntryOk(s, Key(2, 0), j)
    {
      assert Entry(s.mem, p, j) == 0;
    }
  }

  /** The hardware sees the kernel's map, at every address. */
  ghost predicate Translates(s: State, f: nat, t: nat) {
    s.root != 0 && forall va: u64 :: Translate(s.mem, s.root, va) == KernelMap(f * 4096, t * 4096, va)
  }

  /** How the kernel is to stand once `pz_mm_init` has returned. */
  ghost predicate Booted(s0: State, f: nat, t: nat, s2: State) {
    && WF(s2) && Translates(s2, f, t) && s0.free != [] && s2.root == s0.free[0]
    && |s2.tables| == 1 + Spread(f, f + PAGES) <= 20
    && |s2.free| + |s2.tables| == |s0.free|
  }

  /** The first of the two maps can be made exactly if there are pages enough for its tables. */
  lemma TextCanMap(s: State, f: nat, t: nat)
    requires OnlyRoot(s) && f < t <= MAX_VPN
    ensures CanMap(s, f, t - 1) <==> |Needed(f, t)| <= |s.free|
  {
    TextShortage(s, f, t);
    forall y | f <= y <= t - 1
      ensures !Present(s, y)
    {
      NothingPresent(s, y);
    }
  }

  lemma RestAffordable(s: State, f: nat, t: nat, s1: State)
    requires s.tables.Keys == {Key(2, 0)} && f < t < f + PAGES && Ended(s, f, t - 1, s1, t, Done)
    ensures Shortage(s1, t, f + PAGES) <= |s1.free| <==> Spread(f, f + PAGES) <= |s.free|
  {
    TextTables(s, f, t, s1);
    RestShortage(s1, f, t);
  }

  lemma RestAbsent(s: State, f: nat, t: nat, word: nat -> u64, s1: State, y: nat)
    requires OnlyRoot(s) && Installed(s, s1, f, t, word) && t <= y
    ensures !Present(s1, y)
  {
    NothingPresent(s, y);
    assert Leaf(s1, y) == Leaf(s, y);
  }

  /** And then the second exactly if there are enough for all. */
  lemma RestCanMap(s: State, f: nat, t: nat, word: nat -> u64, s1: State)
    requires OnlyRoot(s) && f < t < f + PAGES <= MAX_VPN
    requires MapRan(s, f, t - 1, word, s1, t, Done)
    ensures CanMap(s1, t, f + PAGES - 1) <==> Spread(f, f + PAGES) <= |s.free|
  {
    RestAffordable(s, f, t, s1);
    forall y | t <= y <= f + PAGES - 1
      ensures !Present(s1, y)
    {
      RestAbsent(s, f, t, word, s1, y);
    }
  }

  lemma BootEnds(s: State, f: nat, t: nat, s1: State, s2: State)
    requires OnlyRoot(s) && WF(s1) && WF(s2) && s.root == s1.root == s2.root && f < t < f + PAGES <= MAX_VPN
    requires Installed(s, s1, f, t, Targets(f, f * 4096, RX))
    requires Installed(s1, s2, t, f + PAGES, Targets(t, t * 4096, RW))
    ensures Translates(s2, f, t)
  {
    forall va: u64
      ensures Translate(s2.mem, s2.root, va) == KernelMap(f * 4096, t * 4096, va)
    {
      BootTranslation(s, f, t, s1, s2, va);
    }
  }

  lemma BootTables(s: State, f: nat, t: nat, s1: State, s2: State)
    requires s.tables.Keys == {Key(2, 0)} && f < t < f + PAGES
    requires Ended(s, f, t - 1, s1, t, Done) && Ended(s1, t, f + PAGES - 1, s2, f + PAGES, Done)
    ensures |s2.tables| == 1 + Spread(f, f + PAGES) <= 20
  {
    TextTables(s, f, t, s1);
    TablesUsed(s1, f, t, s2);
  }

  lemma BootCost(s: State, f: nat, t: nat, s1: State, s2: State)
    requires s.tables.Keys == {Key(2, 0)} && f < t < f + PAGES
    requires Ended(s, f, t - 1, s1, t, Done) && Ended(s1, t, f + PAGES - 1, s2, f + PAGES, Done)
    ensures |s2.free| + Spread(f, f + PAGES) == |s.free|
  {
    assert |s1.free| + |Needed(f, t)| == |s.free| by { TextTables(s, f, t, s1); }
    assert |Needed(f, t)| + Shortage(s1, t, f + PAGES) == Spread(f, f + PAGES) by {
      TextTables(s, f, t, s1);
      RestShortage(s1, f, t);
    }
    assert |s2.free| + Shortage(s1, t, f + PAGES) == |s1.free| by { MapCost(s1, t, f + PAGES - 1, s2, f + PAGES); }
  }

  /** Once the kernel has started, the tables in memory make no address both writable and executable, and
      none open to user mode; what they map is mapped to itself. */
  lemma WritableXorExecutable(s: State, f: nat, t: nat, va: u64)
    requires Translates(s, f, t)
    ensures var k := Translate(s.mem, s.root, va);
            k.Mapped? ==> k.pa == va && k.perms.r && !k.perms.u && k.perms.w == !k.perms.x
  {
  }

  /** For the configured start of memory the number of tables is 18. */
  lemma ConfiguredTables()
    ensures 1 + Spread(0x8400_0000 / 4096, 0x8400_0000 / 4096 + PAGES) == 18
  {
  }
}
