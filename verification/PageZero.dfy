/** A free page 0 is no free page: its address is the NULL that ends the list. */
module PageZero {
  import opened Bits
  import opened Kernel
  import opened KernelState
  import opened Runs
  import opened Sysdef

  /** A range holds the whole of page 0 exactly if it starts at address 0 and reaches the next page. */
  lemma HoldsPageZero(paStart: u64, paEnd: u64)
    ensures CeilPage(paStart) <= 0 < PagesEnd(paStart, paEnd) <==> paStart == 0 && paEnd >= PAGESZ
  {
  }

  /** Freeing a page leaves its link in its first word, and the other pages alone. */
  lemma FreedLinks(s: State, p: nat)
    requires p < PPN_LIMIT && p * 512 < |s.mem|
    ensures At(PFree(s, p).mem, p * 512) == s.head && |PFree(s, p).mem| == |s.mem|
    ensures forall q: nat :: q != p ==> At(PFree(s, p).mem, q * 512) == At(s.mem, q * 512)
  {
  }

  /** A chain that does not pass through a page does not depend on it. */
  lemma {:induction false} ChainSkips(m: seq<u64>, m': seq<u64>, head: u64, n: nat, p: nat)
    requires p !in ReadChain(m, head, n)
    requires forall q: nat :: q != p ==> At(m', q * 512) == At(m, q * 512)
    ensures ReadChain(m', head, n) == ReadChain(m, head, n)
    decreases n
  {
    if n > 0 && head != 0 {
      ChainSkips(m, m', At(m, head / 4096 * 512), n - 1, p);
    }
  }

  /** Page 0 ends the list, so what was free before it is lost, and so is page 0. */
  lemma {:induction false} ChainFromZero(s: State, hi: nat, n: nat)
    requires 0 < hi <= PPN_LIMIT && hi * 512 <= |s.mem| && n >= hi
    ensures ReadChain(FreeAll(s, 0, hi).mem, FreeAll(s, 0, hi).head, n) == Stacked(1, hi, [])
    ensures |FreeAll(s, 0, hi).mem| == |s.mem|
    decreases hi
  {
    if hi > 1 {
      var s', p := FreeAll(s, 0, hi - 1), hi - 1;
      ChainFromZero(s, hi - 1, n - 1);
      FreedLinks(s', p);
      StackedPages(1, hi - 1, []);
      ChainSkips(s'.mem, PFree(s', p).mem, s'.head, n - 1, p);
      assert PFree(s', p).head / 4096 == p;
    } else {
      assert FreeAll(s, 0, 0) == s;
    }
  }

  /** When `free_range` is done, following the links in memory finds the pages of the range above those that
      were free before, if and only if page 0 is not among them. */
  lemma RangeListed(s: State, lo: nat, hi: nat, n: nat)
    requires WF(s) && lo <= hi && AllHeld(s.owner, if lo == 0 then 1 else lo, hi) && InMemory(lo, hi, |s.mem|)
    requires n >= |s.free| + hi
    ensures ReadChain(FreeAll(s, lo, hi).mem, FreeAll(s, lo, hi).head, n) == Stacked(lo, hi, s.free)
            <==> lo > 0 || hi == 0
  {
    if lo == 0 && hi > 0 {
      ChainFromZero(s, hi, n);
      StackedPages(1, hi, []);
      StackedPages(0, hi, s.free);
    } else {
      StackedPages(lo, hi, s.free);
      FreeAllKeeps(s, lo, hi);
      ChainFromHead(FreeAll(s, lo, hi), n);
    }
  }
}
