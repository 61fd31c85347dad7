/** The start of the kernel: `pz_alloc_init`, then `pz_mm_init`. */
module Startup {
  import opened Bits
  import opened Sysdef
  import opened ArchMm
  import opened Sv39
  import opened KernelState
  import opened Memset
  import opened Mapping
  import opened MapTheorems
  import opened Kernel
  import opened Boot

  lemma FirstOfPage(a: nat, va: u64)
    requires va == a * 4096 && a < MAX_VPN
    ensures FirstOf(va) == a
  {
    DivModUnique(va + 4095, 4096, a, 4095);
    RoundUpIs(va, a);
    DivModUnique(va, 4096, a, 0);
  }

  lemma LastOfPages(a: nat, b: nat, va: u64, sz: u64)
    requires va == a * 4096 && a < b <= MAX_VPN && sz == (b - a) * 4096
    ensures LastOf(va, sz) == b - 1
  {
    var e: u64 := va + sz - 1;
    DivModUnique(e, 4096, b - 1, 4095);
    DivModUnique(e, TWO64, 0, e);
    var r: u64 := (b - 1) * 4096;
    DivModUnique(r, TWO64, 0, r);
    DivModUnique(r, 4096, b - 1, 0);
  }

  lemma RangeOf(a: nat, b: nat, va: u64, sz: u64)
    requires va == a * 4096 && a < b <= MAX_VPN && sz == (b - a) * 4096
    ensures sz != 0 && FirstOf(va) == a && LastOf(va, sz) == b - 1
  {
    FirstOfPage(a, va);
    LastOfPages(a, b, va, sz);
  }

  lemma KernelPermissions()
    ensures Or64(PAGE_R, PAGE_X) == RX && Or64(PAGE_R, PAGE_W) == RW
  {
  }

  lemma KmapEnds(s: State, a: nat, last: nat, pa: u64, perm: u64, s': State, next: nat, result: Outcome<int>, b: nat)
    requires WF(s) && s.root != 0 && b == last + 1
    ensures MapState(s, a, last, pa, perm) == (s', next, MapEndOf(result)) ==>
              && (MapEndOf(result).Done? <==> CanMap(s, a, last))
              && (MapEndOf(result).Done? ==> MapRan(s, a, last, Targets(a, pa, perm), s', b, Done))
  {
    var end := MapEndOf(result);
    MapDoes(s, a, last, pa, perm, s', next, end);
    if MapState(s, a, last, pa, perm) == (s', next, end) && end.Done? {
      assert next == b && end == Done;
    }
  }

  /** `kmap`, for the page numbers from `a` up to `b`: a map that must succeed. */
  method Kmap(m: Memory, va: u64, pa: u64, sz: u64, perm: u64, ghost a: nat, ghost b: nat)
    returns (r: Outcome<()>)
    requires m.Valid() && m.ptbl != 0 && FirstOf(va) == a && b == LastOf(va, sz) + 1
    modifies m, m.mem
    ensures m.Valid() && m.ptbl == old(m.ptbl)
    ensures r.Returned? <==> sz != 0 && CanMap(old(m.View()), a, b - 1)
    ensures r.Returned? ==> MapRan(old(m.View()), a, b - 1, Targets(a, pa, perm), m.View(), b, Done)
  {
    var result, next := m.Map(m.ptbl, va, pa, sz, perm);
    if sz == 0 {
      return Halted;
    }
    KmapEnds(old(m.View()), a, LastOf(va, sz), pa, perm, m.View(), next, result, b);
    r := if result == Returned(0) then Returned(()) else Halted;
  }

  /** The first part of `pz_mm_init`: a cleared page becomes the root table. */
  method MmRoot(m: Memory)
    requires m.Valid() && m.root == 0 && m.tables == map[] && m.free != []
    modifies m, m.mem
    ensures m.Valid() && m.ptbl != 0 && OnlyRoot(m.View())
    ensures m.View() == RootState(old(m.View())) && m.free == old(m.free)[1..]
  {
    ghost var s0, p := m.View(), m.free[0];
    FreeFacts(s0);
    m.ptbl := m.AllocPnew();
    FillWords();
    m.FillAll(m.ptbl, 0, p);
    m.root, m.owner, m.tables := p, m.owner[p := Table(Key(2, 0))], m.tables[Key(2, 0) := p];
    RootMade(s0, m.View());
  }

  /** Its first map, from state `s`. */
  method MmText(m: Memory, memStart: u64, textEnd: u64, ghost s: State, ghost f: nat, ghost t: nat)
    returns (r: Outcome<()>, ghost s1: State)
    requires memStart == f * 4096 && textEnd == t * 4096 && f < t < f + PAGES <= MAX_VPN
    requires m.Valid() && m.ptbl != 0 && OnlyRoot(s) && s == m.View()
    modifies m, m.mem
    ensures r.Returned? <==> |Needed(f, t)| <= |s.free|
    ensures r.Returned? ==> MapRan(s, f, t - 1, Targets(f, f * 4096, RX), s1, t, Done)
    ensures s1 == m.View() && m.ptbl == old(m.ptbl) && (r.Returned? ==> m.Valid())
  {
    assert CanMap(s, f, t - 1) <==> |Needed(f, t)| <= |s.free| by { TextCanMap(s, f, t); }
    assert Or64(PAGE_R, PAGE_X) == RX by { KernelPermissions(); }
    assert FirstOf(memStart) == f && LastOf(memStart, textEnd - memStart) == t - 1 by {
      RangeOf(f, t, memStart, textEnd - memStart);
    }
    r := Kmap(m, memStart, memStart, textEnd - memStart, Or64(PAGE_R, PAGE_X), f, t);
    s1 := m.View();
  }

  /** Its second map, from state `s1`. */
  method MmRest(m: Memory, memStart: u64, textEnd: u64, ghost s1: State, ghost f: nat, ghost t: nat)
    returns (r: Outcome<()>, ghost s2: State)
    requires memStart == f * 4096 && textEnd == t * 4096 && f < t < f + PAGES <= MAX_VPN
    requires m.Valid() && m.ptbl != 0 && s1 == m.View()
    modifies m, m.mem
    ensures r.Returned? <==> CanMap(s1, t, f + PAGES - 1)
    ensures r.Returned? ==> MapRan(s1, t, f + PAGES - 1, Targets(t, t * 4096, RW), s2, f + PAGES, Done)
    ensures s2 == m.View() && m.ptbl == old(m.ptbl)
  {
    assert Or64(PAGE_R, PAGE_W) == RW by { KernelPermissions(); }
    var sz: u64 := memStart + MEM_SIZE - textEnd;
    assert FirstOf(textEnd) == t && LastOf(textEnd, sz) == f + PAGES - 1 by { RangeOf(t, f + PAGES, textEnd, sz); }
    r := Kmap(m, textEnd, textEnd, sz, Or64(PAGE_R, PAGE_W), t, f + PAGES);
    s2 := m.View();
  }

  /** Both maps, from the state `s` that MmRoot made of `s0`. */
  method MmMaps(m: Memory, memStart: u64, textEnd: u64, ghost s0: State, ghost s: State, ghost f: nat, ghost t: nat)
    returns (r: Outcome<()>)
    requires memStart == f * 4096 && textEnd == t * 4096 && f < t < f + PAGES <= MAX_VPN
    requires m.Valid() && m.ptbl != 0 && OnlyRoot(s) && s == m.View()
    requires |s0.free| == 1 + |s.free| && s.root == s0.free[0]
    modifies m, m.mem
    ensures r.Returned? <==> |s.free| >= Spread(f, f + PAGES)
    ensures r.Returned? ==> Booted(s0, f, t, m.View()) && m.ptbl == m.root * 4096
  {
    ghost var s1, s2;
    assert |Needed(f, t)| <= Spread(f, f + PAGES) by { WholeBounds(f, t); }
    r, s1 := MmText(m, memStart, textEnd, s, f, t);
    if r.Returned? {
      RestCanMap(s, f, t, Targets(f, f * 4096, RX), s1);
      r, s2 := MmRest(m, memStart, textEnd, s1, f, t);
      if r.Returned? {
        assert Translates(s2, f, t) by { BootEnds(s, f, t, s1, s2); }
        assert |s2.tables| == 1 + Spread(f, f + PAGES) <= 20 by { BootTables(s, f, t, s1, s2); }
        assert |s2.free| + Spread(f, f + PAGES) == |s.free| by { BootCost(s, f, t, s1, s2); }
      }
    }
  }

  /** `pz_mm_init`, for a start of memory at page `f` and an end of the text at page `t`: it ends in a
      panic exactly if there are too few pages for the tables. */
  method MmInit(m: Memory, memStart: u64, textEnd: u64, ghost f: nat, ghost t: nat) returns (r: Outcome<()>)
    requires memStart == f * 4096 && textEnd == t * 4096 && f < t < f + PAGES <= MAX_VPN
    requires m.Valid() && m.root == 0 && m.tables == map[] && m.free != []
    modifies m, m.mem
    ensures r.Returned? <==> |old(m.free)| >= 1 + Spread(f, f + PAGES)
    ensures r.Returned? ==> Booted(old(m.View()), f, t, m.View()) && m.ptbl == m.root * 4096
  {
    ghost var s0 := m.View();
    MmRoot(m);
    r := MmMaps(m, memStart, textEnd, s0, m.View(), f, t);
  }

  lemma RegionPages(memEnd: u64)
    requires memEnd + MEM_SIZE + 2 * PAGESZ <= TWO64
    ensures CeilPage(memEnd) + 8191 <= PagesEnd(memEnd, memEnd + MEM_SIZE)
  {
  }

  /** Start-up as a whole never panics: from null globals and a held region of 32 MiB after the kernel
      image, wherever it starts, the kernel ends up as it is to stand. */
  method Start(m: Memory, memStart: u64, textEnd: u64, memEnd: u64, ghost f: nat, ghost t: nat)
    returns (r: Outcome<()>)
    requires memStart == f * 4096 && textEnd == t * 4096 && f < t < f + PAGES <= MAX_VPN
    requires memEnd + MEM_SIZE + 2 * PAGESZ <= TWO64
    requires m.Valid() && m.root == 0 && m.free == [] && m.tables == map[]
    requires AllHeld(m.owner, CeilPage(memEnd), (memEnd + MEM_SIZE) / 4096)
    modifies m, m.mem
    ensures r.Returned? && m.Valid()
    ensures Translates(m.View(), f, t) && m.root == PagesEnd(memEnd, memEnd + MEM_SIZE) - 1
    ensures |m.tables| == 1 + Spread(f, f + PAGES) <= 20
    ensures |m.free| + |m.tables| == PagesEnd(memEnd, memEnd + MEM_SIZE) - CeilPage(memEnd)
  {
    m.AllocInit(memEnd);
    StackedPages(CeilPage(memEnd), PagesEnd(memEnd, memEnd + MEM_SIZE), []);
    RegionPages(memEnd);
    SpreadBound(f);
    r := MmInit(m, memStart, textEnd, f, t);
  }

  /** The kernel's map does not cover its own root table: the allocator manages the 32 MiB after the
      image, not those the map covers, and hands out the highest page first. */
  lemma RootUnmapped(s: State, f: nat, t: nat, memEnd: u64)
    requires Translates(s, f, t) && f < t && t * 4096 <= memEnd && memEnd + MEM_SIZE + 2 * PAGESZ <= TWO64
    requires s.root == PagesEnd(memEnd, memEnd + MEM_SIZE) - 1
    ensures s.root * 4096 < TWO64 && Translate(s.mem, s.root, s.root * 4096) == Fault
  {
    RegionPages(memEnd);
    assert (memEnd + MEM_SIZE) / 4096 == memEnd / 4096 + PAGES;
    assert memEnd / 4096 >= t;
  }
}
