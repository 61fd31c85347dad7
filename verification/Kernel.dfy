/** The kernel's memory routines as they run: in place, on one array of words. Each is proved against
    the effect on the state that KernelState, Walking and Mapping describe. */
module Kernel {
  import opened Bits
  import opened Sysdef
  import opened ArchMm
  import opened KernelState
  import opened Memset
  import opened Separation
  import opened Walking
  import opened Mapping

  const MEM_SIZE: u64 := 0x200_0000

  /** A call either returns or ends in `pz_panic`, which does not return. */
  datatype Outcome<T> = Returned(value: T) | Halted

  function MapEndOf(r: Outcome<int>): MapEnd {
    if r.Halted? then Panic else if r.value == 0 then Done else NoMemory
  }

  /** The head of the chain is the first free page, and that page is in memory. */
  ghost predicate HeadOk(s: State) {
    && s.head == Link(s.free, 0)
    && (s.free != [] ==> 0 < s.free[0] < PPN_LIMIT && s.free[0] * 512 + 512 <= |s.mem|)
  }

  lemma FreeFacts(s: State)
    requires WF(s)
    ensures HeadOk(s)
  {
    if s.free != [] {
      assert LinkOk(s, 0);
    }
  }

  /** A valid entry on the path decodes to the address of the next table. */
  lemma AtEntry(s: State, x: nat, lvl: nat, t: nat, w: u64)
    requires WF(s) && 0 < lvl <= 2 && x < MAX_VPN && OnPath(s, x, lvl, t) && w == Entry(s.mem, t, Index(lvl, x))
    ensures w % 2 == 1 ==> Pte2Pa(w) == w / 1024 * 4096
  {
    AtLevel(s, x, lvl, t);
    if w % 2 == 1 {
      Pte2PaIs(w, w / 1024, 1);
    }
  }

  lemma GetLvlIsIndex(lvl: nat, va: u64)
    requires lvl <= 2
    ensures GetLvl(lvl, va) == Index(lvl, va / 4096) < 512
  {
    GetLvlOfPage(va);
  }

  lemma WordAddress(a: nat, k: nat)
    requires a == 8 * k
    ensures a / 8 == k && a % 8 == 0
  {
  }

  /** The first page boundary not below an address. */
  function CeilPage(a: nat): nat {
    (a + 4095) / 4096
  }

  /** The end of the whole pages of [paStart, paEnd), which start at CeilPage(paStart). */
  function PagesEnd(paStart: nat, paEnd: nat): nat {
    if paEnd / 4096 < CeilPage(paStart) then CeilPage(paStart) else paEnd / 4096
  }

  lemma RoundUpIs(a: u64, q: nat)
    requires a + 2 * PAGESZ <= TWO64 && q == CeilPage(a)
    ensures RoundUp(a, PAGESZ) == q * 4096 && q * 4096 <= a + 4095
  {
    RoundUpMeaning(a);
    MultipleIs(a, RoundUp(a, PAGESZ), q);
  }

  lemma MultipleIs(a: nat, r: nat, q: nat)
    requires r % 4096 == 0 && a <= r < a + 4096 && q == (a + 4095) / 4096
    ensures r == q * 4096
  {
  }

  ghost predicate AllHeld(owner: map<nat, Owner>, lo: nat, hi: nat) {
    forall p :: lo <= p < hi ==> p in owner && owner[p] == Held
  }

  /** The pages of a range lie in memory, if there are any. */
  predicate InMemory(lo: nat, hi: nat, words: nat) {
    lo < hi ==> hi <= PPN_LIMIT && hi * 512 <= words
  }

  lemma HeldInMemory(s: State, lo: nat, hi: nat)
    requires WF(s) && AllHeld(s.owner, lo, hi)
    ensures InMemory(lo, hi, |s.mem|)
  {
    if lo < hi {
      HeldAt(s.owner, lo, hi, hi - 1);
    }
  }

  lemma HeldAt(owner: map<nat, Owner>, lo: nat, hi: nat, x: nat)
    requires AllHeld(owner, lo, hi) && lo <= x < hi
    ensures x in owner && owner[x] == Held
  {
  }

  lemma LoopEnd(paStart: nat, paEnd: nat, x: nat)
    requires x * 4096 + 4096 > paEnd && x >= CeilPage(paStart)
    requires x > CeilPage(paStart) ==> x * 4096 <= paEnd
    ensures x == PagesEnd(paStart, paEnd)
  {
    var hi := paEnd / 4096;
    assert hi * 4096 <= paEnd < hi * 4096 + 4096;
  }

  /** Where `free_range` stands when it has freed the pages from `lo` to `x`. */
  ghost predicate Freed(s: State, s': State, lo: nat, x: nat) {
    && WF(s') && s'.root == s.root && s'.tables == s.tables && |s'.mem| == |s.mem|
    && s'.free == Stacked(lo, x, s.free)
    && s'.owner.Keys == s.owner.Keys
    && (forall q <- s.owner :: s'.owner[q] == if lo <= q < x then Free else s.owner[q])
    && (forall q: nat :: !(lo <= q < x) ==> SamePage(s.mem, s'.mem, q))
    && (forall q: nat :: lo <= q < x ==> Cleared(s'.mem, q))
  }

  /** All words of a page but its link are as freeing leaves them. */
  ghost predicate Cleared(m: seq<u64>, p: nat) {
    forall i :: 1 <= i < 512 ==> Entry(m, p, i) == 0xbbbb_bbbb_bbbb_bbbb
  }

  /** The stack `free` with the pages from `lo` to `x` on top, highest first. */
  function Stacked(lo: nat, x: nat, free: seq<nat>): seq<nat>
    decreases x
  {
    if x <= lo then free else [x - 1] + Stacked(lo, x - 1, free)
  }

  lemma {:induction false} StackedPages(lo: nat, x: nat, free: seq<nat>)
    requires lo <= x
    ensures |Stacked(lo, x, free)| == (x - lo) + |free|
    ensures forall i :: 0 <= i < |Stacked(lo, x, free)| ==>
              Stacked(lo, x, free)[i] == if i < x - lo then x - 1 - i else free[i - (x - lo)]
    decreases x
  {
    if x > lo {
      StackedPages(lo, x - 1, free);
    }
  }

  lemma FreedNothing(s: State, lo: nat)
    requires WF(s)
    ensures Freed(s, s, lo, lo)
  {
  }

  lemma FreedNext(s: State, s': State, lo: nat, x: nat)
    requires WF(s) && Freed(s, s', lo, x) && lo <= x && x in s.owner && s.owner[x] == Held
    ensures x < PPN_LIMIT && x * 512 + 512 <= |s'.mem| && Freed(s, PFree(s', x), lo, x + 1)
  {
    PFreeKeeps(s', x);
    forall q: nat | !(lo <= q < x + 1)
      ensures SamePage(s.mem, PFree(s', x).mem, q)
    {
      assert SamePage(s.mem, s'.mem, q) && SamePage(s'.mem, PFree(s', x).mem, q);
    }
    forall q: nat | lo <= q < x + 1
      ensures Cleared(PFree(s', x).mem, q)
    {
      assert q < x ==> Cleared(s'.mem, q) && SamePage(s'.mem, PFree(s', x).mem, q);
    }
  }

  /** `free_range` on held pages: the chain then lists them highest first, above what was free before, and
      no other page is changed. */
  lemma {:induction false} FreeAllKeeps(s: State, lo: nat, hi: nat)
    requires WF(s) && lo <= hi && AllHeld(s.owner, lo, hi)
    ensures (hi <= lo || hi <= PPN_LIMIT) && Freed(s, FreeAll(s, lo, hi), lo, hi)
    decreases hi
  {
    if lo < hi {
      HeldAt(s.owner, lo, hi, hi - 1);
      FreeAllKeeps(s, lo, hi - 1);
      FreedNext(s, FreeAll(s, lo, hi - 1), lo, hi - 1);
    } else {
      FreedNothing(s, lo);
    }
  }

  lemma EndsOfRange(va: u64, sz: u64)
    ensures RoundUp(va, PAGESZ) == FirstOf(va) * 4096
    ensures RoundDown(Wrap(va + sz - 1), PAGESZ) == LastOf(va, sz) * 4096
  {
    RoundUpMeaning(va);
    RoundDownMeaning(Wrap(va + sz - 1));
  }

  class Memory {
    const mem: array<u64>
    var freelist: u64
    var ptbl: u64
    ghost var free: seq<nat>
    ghost var owner: map<nat, Owner>
    ghost var tables: map<Key, nat>
    ghost var root: nat

    ghost function View(): State
      reads this, mem
    {
      State(mem[..], freelist, root, free, owner, tables)
    }

    ghost predicate Valid()
      reads this, mem
    {
      WF(View()) && ptbl == root * 4096
    }

    /** Before start-up: both globals are null and the kernel holds `pages`; the words are arbitrary. */
    constructor (words: nat, ghost pages: set<nat>)
      requires forall p <- pages :: 0 < p < PPN_LIMIT && p * 512 + 512 <= words
      ensures Valid() && mem.Length == words && freelist == 0 && root == 0 && free == [] && tables == map[]
      ensures owner == map p | p in pages :: Held
    {
      mem := new u64[words];
      freelist, ptbl := 0, 0;
      free, tables, root := [], map[], 0;
      owner := map p | p in pages :: Held;
    }

    /** `memset`: writes one byte at a time. */
    method Fill(dst: u64, ch: int, count: nat)
      requires dst + count <= 8 * mem.Length
      modifies mem
      ensures mem[..] == Filled(old(mem[..]), dst, ch % 256, count)
    {
      var i := 0;
      while i < count
        invariant 0 <= i <= count
        invariant mem[..] == Filled(old(mem[..]), dst, ch % 256, i)
      {
        var k := (dst + i) / 8;
        EightBytes();
        SetByteBound(mem[k], (dst + i) % 8, ch % 256, 8);
        mem[k] := SetByte(mem[k], (dst + i) % 8, ch % 256);
        i := i + 1;
      }
    }

    /** `memset` of the whole page `p`. */
    method FillAll(dst: u64, ch: int, ghost p: nat)
      requires dst == p * 4096 && p * 512 + 512 <= mem.Length
      modifies mem
      ensures Splat(ch % 256, 8) < TWO64
      ensures mem[..] == FillPage(old(mem[..]), p, Splat(ch % 256, 8))
    {
      FilledPage(mem[..], p, ch % 256);
      Fill(dst, ch, PAGESZ);
    }

    /** A 64-bit load and a 64-bit store at word `k`. */
    method Load(addr: u64, ghost k: nat) returns (w: u64)
      requires addr == 8 * k && k < mem.Length
      ensures w == At(mem[..], k)
    {
      WordAddress(addr, k);
      w := mem[addr / 8];
    }

    method Store(addr: u64, w: u64, ghost k: nat)
      requires addr == 8 * k && k < mem.Length
      modifies mem
      ensures mem[..] == Put(old(mem[..]), k, w)
    {
      WordAddress(addr, k);
      mem[addr / 8] := w;
    }

    /** `pz_alloc_pnew`. What it keeps, in a well-formed state, is PNewKeeps. */
    method AllocPnew() returns (cb: u64)
      requires HeadOk(View())
      modifies this, mem
      ensures View() == PNew(old(View())).0 && cb == old(freelist) == PNew(old(View())).1 * 4096
      ensures ptbl == old(ptbl)
    {
      FillWords();
      cb := freelist;
      if cb != 0 {
        ghost var p := free[0];
        freelist := Load(cb, p * 512);
        FillAll(cb, 0xee, p);
        free, owner := free[1..], owner[p := Held];
      }
    }

    /** `pz_alloc_pfree`. What it keeps, for a page that is held, is PFreeKeeps. */
    method AllocPfree(pa: u64, ghost p: nat)
      requires pa == p * 4096 && p < PPN_LIMIT && p * 512 + 512 <= mem.Length
      modifies this, mem
      ensures View() == PFree(old(View()), p) && ptbl == old(ptbl)
      ensures mem[p * 512] == old(freelist) && freelist == pa
      ensures forall k :: p * 512 < k < p * 512 + 512 ==> mem[k] == 0xbbbb_bbbb_bbbb_bbbb
      ensures forall k :: 0 <= k < mem.Length && !(p * 512 <= k < p * 512 + 512) ==> mem[k] == old(mem[k])
    {
      FillWords();
      FillAll(pa, 0xbb, p);
      Store(pa, freelist, p * 512);
      freelist := pa;
      free, owner := [p] + free, owner[p := Free];
    }

    /** `free_range`: frees every whole page of [paStart, paEnd), lowest first. What that keeps, for pages
        that are held, is FreeAllKeeps; what it loses with page 0 is in module PageZero. */
    method FreeRange(paStart: u64, paEnd: u64)
      requires paStart + 2 * PAGESZ <= TWO64 && paEnd + 2 * PAGESZ <= TWO64
      requires InMemory(CeilPage(paStart), paEnd / 4096, mem.Length)
      modifies this, mem
      ensures View() == FreeAll(old(View()), CeilPage(paStart), PagesEnd(paStart, paEnd)) && ptbl == old(ptbl)
    {
      RoundUpIs(paStart, CeilPage(paStart));
      ghost var x := FreeFrom(RoundUp(paStart, PAGESZ), paEnd, CeilPage(paStart), paEnd / 4096);
      LoopEnd(paStart, paEnd, x);
    }

    /** The loop of `free_range`, from page `lo` on; `hi` is the page in which the range ends. */
    method FreeFrom(start: u64, paEnd: u64, ghost lo: nat, ghost hi: nat) returns (ghost x: nat)
      requires InMemory(lo, hi, mem.Length) && start == lo * 4096 && hi * 4096 <= paEnd < hi * 4096 + 4096
      modifies this, mem
      ensures lo <= x && x * 4096 + 4096 > paEnd && (x > lo ==> x * 4096 <= paEnd)
      ensures View() == FreeAll(old(View()), lo, x) && ptbl == old(ptbl)
    {
      var p := start;
      x := lo;
      while p + PAGESZ <= paEnd
        invariant ptbl == old(ptbl) && p == x * 4096 && lo <= x && (x > lo ==> p <= paEnd)
        invariant View() == FreeAll(old(View()), lo, x)
        decreases paEnd - p
      {
        AllocPfree(p, x);
        p, x := p + PAGESZ, x + 1;
      }
    }

    /** `pz_alloc_init`, for the linker symbol `_mem_end`. */
    method AllocInit(memEnd: u64)
      requires Valid() && memEnd + MEM_SIZE + 2 * PAGESZ <= TWO64
      requires AllHeld(owner, CeilPage(memEnd), (memEnd + MEM_SIZE) / 4096)
      modifies this, mem
      ensures ptbl == old(ptbl)
      ensures Freed(old(View()), View(), CeilPage(memEnd), PagesEnd(memEnd, memEnd + MEM_SIZE))
    {
      HeldInMemory(View(), CeilPage(memEnd), (memEnd + MEM_SIZE) / 4096);
      FreeAllKeeps(View(), CeilPage(memEnd), PagesEnd(memEnd, memEnd + MEM_SIZE));
      FreeRange(memEnd, memEnd + MEM_SIZE);
    }

    /** The part of `walk` that finds no table: takes a page, clears it and links it as `key`. */
    method AddTable(pte: u64, ghost slot: nat, ghost key: Key) returns (tbl: u64)
      requires HeadOk(View()) && pte == 8 * slot && slot < mem.Length
      modifies this, mem
      ensures tbl == old(freelist) && ptbl == old(ptbl)
      ensures tbl == 0 ==> View() == old(View())
      ensures tbl != 0 ==> free == old(free)[1..] && View() == NewTable(old(View()), slot, key)
    {
      ghost var first := free;
      tbl := AllocPnew();
      if tbl != 0 {
        ghost var p := first[0];
        FillWords();
        FillAll(tbl, 0, p);
        LinkPteIs(tbl);
        Store(pte, LinkPte(tbl), slot);
        owner, tables := owner[p := Table(key)], tables[key := p];
      }
    }

    /** One turn of `walk`, at entry `j` of the table in page `p`: the next table, made as `key` if it is
        missing, or 0 if there is none and none could or should be made. */
    method Descend(t: u64, lvl: nat, va: u64, alloc: bool, ghost p: nat, ghost j: nat, ghost key: Key)
      returns (next: u64)
      requires HeadOk(View()) && GetLvl(lvl, va) == j < 512
      requires t == p * 4096 && p * 512 + 512 <= mem.Length
      modifies this, mem
      ensures ptbl == old(ptbl)
      ensures var w := Entry(old(mem[..]), p, j);
              if w % 2 == 1 then (View() == old(View()) && next == Pte2Pa(w))
              else if !alloc || old(freelist) == 0 then (View() == old(View()) && next == 0)
              else (next == old(freelist) && View() == NewTable(old(View()), p * 512 + j, key))
    {
      var pte := t + 8 * GetLvl(lvl, va);
      var w := Load(pte, p * 512 + j);
      IsValidIs(w);
      if IsValid(w) {
        return Pte2Pa(w);
      }
      if !alloc {
        return 0;
      }
      next := AddTable(pte, p * 512 + j, key);
    }

    /** That turn, on the way to page number `x`, from state `s`. */
    method Turn(t: u64, lvl: nat, va: u64, alloc: bool, ghost s: State, ghost x: nat, ghost p: nat)
      returns (next: u64, ghost q: nat, ghost s': State)
      requires 0 < lvl <= 2 && va < MAX_VA && x == va / 4096 && t == p * 4096
      requires View() == s && WF(s) && OnPath(s, x, lvl, p)
      modifies this, mem
      ensures ptbl == old(ptbl) && View() == s' && next == q * 4096
      ensures Visit(s, x, lvl, p, alloc) == (s', q)
      ensures WF(s') && s'.root == s.root && (q != 0 ==> OnPath(s', x, lvl - 1, q))
    {
      ghost var j, w := Index(lvl, x), Entry(s.mem, p, Index(lvl, x));
      FreeFacts(s);
      AtLevel(s, x, lvl, p);
      AtEntry(s, x, lvl, p, w);
      GetLvlIsIndex(lvl, va);
      next := Descend(t, lvl, va, alloc, p, j, PathKey(lvl - 1, x));
      var (e, n) := Visit(s, x, lvl, p, alloc);
      s', q := e, n;
      VisitKeeps(s, x, alloc, lvl, p, s', q);
    }

    /** `walk`: the address of the entry for `va`, or 0; panics beyond the limit. */
    method Walk(tbl: u64, va: u64, alloc: bool) returns (r: Outcome<u64>, ghost found: Found)
      requires Valid() && tbl == ptbl && ptbl != 0
      modifies this, mem
      ensures ptbl == old(ptbl)
      ensures Valid() && (r.Halted? <==> va >= MAX_VA)
      ensures r.Halted? ==> View() == old(View())
      ensures r.Returned? ==> WalkState(old(View()), va / 4096, alloc) == (View(), found)
      ensures r.Returned? ==> Walked(old(View()), va / 4096, alloc, View(), found)
      ensures r.Returned? ==> (r.value == 0 <==> found.Missing?)
      ensures r.Returned? && found.Page? ==> r.value == found.page * 4096 + 8 * Index(0, va / 4096)
    {
      if va >= MAX_VA {
        return Halted, Missing;
      }
      ghost var s := View();
      ghost var s';
      r, found, s' := WalkBelow(tbl, va, alloc, s, va / 4096);
      WalkMeans(s, va / 4096, alloc);
    }

    /** `walk` below the limit, for page number `x`, from state `s`. */
    method WalkBelow(tbl: u64, va: u64, alloc: bool, ghost s: State, ghost x: nat)
      returns (r: Outcome<u64>, ghost found: Found, ghost s': State)
      requires s == View() && WF(s) && tbl == s.root * 4096 && tbl != 0 && va < MAX_VA && x == va / 4096
      modifies this, mem
      ensures ptbl == old(ptbl) && View() == s' && WF(s') && s'.root == s.root
      ensures r.Returned? && WalkState(s, x, alloc) == (s', found)
      ensures r.value == 0 <==> found.Missing?
      ensures found.Page? ==> r.value == found.page * 4096 + 8 * Index(0, x)
    {
      ghost var p := s.root;
      var t: u64 := tbl;
      var lvl := 2;
      s' := s;
      while lvl > 0
        invariant 0 <= lvl <= 2 && ptbl == old(ptbl) && t == p * 4096
        invariant View() == s' && WF(s') && s'.root == s.root && OnPath(s', x, lvl, p)
        invariant WalkFrom(s', x, lvl, p, alloc) == WalkState(s, x, alloc)
      {
        t, p, s' := Turn(t, lvl, va, alloc, s', x, p);
        if t == 0 {
          return Returned(0), Missing, s';
        }
        lvl := lvl - 1;
      }
      assert TableOk(s', PathKey(0, x));
      GetLvlIsIndex(0, va);
      r, found := Returned(t + 8 * GetLvl(0, va)), Page(p);
    }

    /** `map`: ends with 0, with -2, or in a panic, in the state and at the page number that MapState gives;
        what that means, from a well-formed state, is MapMeans. */
    method Map(tbl: u64, va: u64, pa: u64, sz: u64, perm: u64) returns (r: Outcome<int>, ghost next: nat)
      requires Valid() && tbl == ptbl && ptbl != 0
      modifies this, mem
      ensures Valid() && ptbl == old(ptbl)
      ensures sz == 0 ==> r == Halted && View() == old(View())
      ensures r.Returned? ==> r.value == 0 || r.value == -2
      ensures sz != 0 ==>
                MapState(old(View()), FirstOf(va), LastOf(va, sz), pa, perm) == (View(), next, MapEndOf(r))
    {
      if sz == 0 {
        return Halted, 0;
      }
      ghost var s, first, last := View(), FirstOf(va), LastOf(va, sz);
      EndsOfRange(va, sz);
      ghost var s';
      r, next, s' := MapRange(tbl, RoundUp(va, PAGESZ), RoundDown(Wrap(va + sz - 1), PAGESZ), pa, perm, s, first, last,
                              MapTurn(first, pa, perm));
    }

    /** The loop of `map`, over the page numbers from `first` to `last`, from state `s`. */
    method MapRange(tbl: u64, start: u64, end: u64, pa: u64, perm: u64, ghost s: State, ghost first: nat,
                    ghost last: nat, ghost turn: (State, nat) -> (State, MapEnd))
      returns (r: Outcome<int>, ghost next: nat, ghost s': State)
      requires s == View() && WF(s) && tbl == ptbl == s.root * 4096 && ptbl != 0
      requires start == first * 4096 && end == last * 4096 && turn == MapTurn(first, pa, perm)
      modifies this, mem
      ensures ptbl == old(ptbl) && View() == s' && WF(s') && s'.root == s.root
      ensures r.Returned? ==> r.value == 0 || r.value == -2
      ensures MapLoop(turn, s, first, last) == (s', next, MapEndOf(r))
    {
      var v: u64, a: u64, stop := start, pa, false;
      next, s' := first, s;
      AddressStarts(first, pa);
      while true
        invariant ptbl == old(ptbl) && v == next * 4096 && a == AddressAt(first, pa, next)
        invariant View() == s' && WF(s') && s'.root == s.root
        invariant MapLoop(turn, s', next, last) == MapLoop(turn, s, first, last)
        decreases TWO64 - v
      {
        r, stop, v, a, next, s' := MapStep(tbl, v, end, a, pa, perm, s', first, last, turn, next);
        if stop {
          return;
        }
      }
    }

    /** Once round that loop, from page number `x`: to its end, or on to the next page. */
    method MapStep(tbl: u64, v: u64, end: u64, a: u64, ghost pa: u64, perm: u64, ghost s: State, ghost first: nat,
                   ghost last: nat, ghost turn: (State, nat) -> (State, MapEnd), ghost x: nat)
      returns (r: Outcome<int>, stop: bool, v': u64, a': u64, ghost next: nat, ghost s': State)
      requires View() == s && WF(s) && tbl == ptbl == s.root * 4096 && ptbl != 0
      requires v == x * 4096 && end == last * 4096 && a == AddressAt(first, pa, x) && turn == MapTurn(first, pa, perm)
      modifies this, mem
      ensures ptbl == old(ptbl) && View() == s' && WF(s') && s'.root == s.root
      ensures stop ==> (r.Returned? ==> r.value == 0 || r.value == -2)
      ensures stop ==> MapLoop(turn, s, x, last) == (s', next, MapEndOf(r))
      ensures !stop ==> MapLoop(turn, s, x, last) == MapLoop(turn, s', next, last)
      ensures !stop ==> v < v' == next * 4096 && a' == AddressAt(first, pa, next)
    {
      v', a', next := v, a, x;
      r, s' := MapNext(tbl, v, a, pa, perm, s, first, last, turn, x);
      stop := r != Returned(0) || v == end;
      if r == Returned(0) {
        next := x + 1;
      }
      if !stop {
        v', a' := Advance(v, a, pa, first, x);
      }
    }

    /** Its turn, and what the loop still has to do after it. */
    method MapNext(tbl: u64, v: u64, a: u64, ghost pa: u64, perm: u64, ghost s: State, ghost first: nat,
                   ghost last: nat, ghost turn: (State, nat) -> (State, MapEnd), ghost x: nat)
      returns (r: Outcome<int>, ghost s': State)
      requires View() == s && WF(s) && tbl == ptbl == s.root * 4096 && ptbl != 0
      requires v == x * 4096 && a == AddressAt(first, pa, x) && turn == MapTurn(first, pa, perm)
      modifies this, mem
      ensures ptbl == old(ptbl) && View() == s' && WF(s') && s'.root == s.root
      ensures r.Returned? ==> r.value == 0 || r.value == -2
      ensures r == Returned(0) ==> x < MAX_VPN
      ensures MapLoop(turn, s, x, last) ==
              if r != Returned(0) then (s', x, MapEndOf(r)) else if x == last then (s', x + 1, Done)
              else MapLoop(turn, s', x + 1, last)
    {
      ghost var m;
      r, s', m := MapOne(tbl, v, a, perm, s, x);
      LoopStep(turn, first, last, pa, perm, s, x, a, s', m);
    }

    /** The step to the next page, of both addresses. */
    method Advance(v: u64, a: u64, ghost pa: u64, ghost first: nat, ghost x: nat) returns (v': u64, a': u64)
      requires x < MAX_VPN && v == x * 4096 && a == AddressAt(first, pa, x)
      ensures View() == old(View()) && ptbl == old(ptbl)
      ensures v' == (x + 1) * 4096 && a' == AddressAt(first, pa, x + 1)
    {
      NextAddress(first, pa, x);
      v', a' := v + PAGESZ, Wrap(a + PAGESZ);
    }

    /** One turn, for page number `x` and address `a`. */
    method MapOne(tbl: u64, v: u64, a: u64, perm: u64, ghost s: State, ghost x: nat)
      returns (r: Outcome<int>, ghost s': State, ghost end: MapEnd)
      requires View() == s && WF(s) && tbl == ptbl == s.root * 4096 && ptbl != 0 && v == x * 4096
      modifies this, mem
      ensures ptbl == old(ptbl) && View() == s' && WF(s') && s'.root == s.root
      ensures end == MapEndOf(r) && (r.Returned? ==> r.value == 0 || r.value == -2)
      ensures if x < MAX_VPN then MapPage(s, x, LeafPte(a, perm)) == (s', end) else s' == s && end == Panic
    {
      assert v / 4096 == x;
      var w, found := Walk(tbl, v, true);
      s' := View();
      if w.Halted? {
        return Halted, s', Panic;
      }
      if w.value == 0 {
        return Returned(-2), s', NoMemory;
      }
      ghost var slot := found.page * 512 + Index(0, x);
      SlotShows(s, x, s', found.page);
      var e := Load(w.value, slot);
      IsValidIs(e);
      if IsValid(e) {
        return Halted, s', Panic;
      }
      Store(w.value, LeafPte(a, perm), slot);
      s', r, end := s'.(mem := Put(s'.mem, slot, LeafPte(a, perm))), Returned(0), Done;
      MapPageKeeps(s, x, LeafPte(a, perm), s', end);
    }
  }
}
