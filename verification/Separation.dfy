/** Every routine keeps free pages, tables and held pages apart, though all live in one memory. */
module Separation {
  import opened Bits
  import opened KernelState

  ghost predicate SamePage(m: seq<u64>, m': seq<u64>, p: nat) {
    forall i :: 0 <= i < 512 ==> Entry(m', p, i) == Entry(m, p, i)
  }

  /** No page number has changed the word that translates it. */
  ghost predicate SameLeaves(s: State, s': State) {
    forall x: nat :: Leaf(s', x) == Leaf(s, x)
  }

  /** A page that is not the kernel's to change: one that a client holds, or one that is not managed. */
  ghost predicate Foreign(s: State, p: nat) {
    p !in s.owner || s.owner[p] == Held
  }

  /** What no routine of the page-table layer may do: lose a page, move a table, or change a word of any
      page but the free ones and the tables. */
  ghost predicate Extends(s: State, s': State) {
    && |s'.mem| == |s.mem| && s'.root == s.root
    && s'.owner.Keys == s.owner.Keys
    && (forall key <- s.tables :: key in s'.tables && s'.tables[key] == s.tables[key])
    && (forall p <- s.owner :: s.owner[p] == Held <==> s'.owner[p] == Held)
    && (forall p: nat :: Foreign(s, p) ==> SamePage(s.mem, s'.mem, p))
  }

  lemma ExtendsTrans(a: State, b: State, c: State)
    requires Extends(a, b) && Extends(b, c)
    ensures Extends(a, c)
  {
    forall p: nat | Foreign(a, p)
      ensures SamePage(a.mem, c.mem, p)
    {
      assert Foreign(b, p);
      assert SamePage(a.mem, b.mem, p) && SamePage(b.mem, c.mem, p);
    }
  }

  lemma ChainFrame(s: State, m: seq<u64>)
    requires ChainOk(s) && |m| == |s.mem|
    requires forall p <- s.owner :: s.owner[p] == Free ==> SamePage(s.mem, m, p)
    ensures ChainOk(s.(mem := m))
  {
    var s' := s.(mem := m);
    forall i | 0 <= i < |s'.free|
      ensures LinkOk(s', i)
    {
      assert LinkOk(s, i);
      assert SamePage(s.mem, m, s.free[i]);
    }
  }

  lemma TreeFrame(s: State, m: seq<u64>)
    requires TablesOk(s) && EntriesOk(s) && |m| == |s.mem|
    requires forall p <- s.owner :: s.owner[p].Table? ==> SamePage(s.mem, m, p)
    ensures TablesOk(s.(mem := m)) && EntriesOk(s.(mem := m)) && SameLeaves(s, s.(mem := m))
  {
    var s' := s.(mem := m);
    forall key | key in s'.tables
      ensures TableOk(s', key) && SamePage(s.mem, m, s.tables[key])
    {
      assert TableOk(s, key);
    }
    forall key, j | key in s'.tables && key.lvl > 0 && 0 <= j < 512
      ensures EntryOk(s', key, j)
    {
      assert EntryOk(s, key, j);
    }
    forall x: nat
      ensures Leaf(s', x) == Leaf(s, x)
    {
      if HasSlot(s, x) {
        assert TableOk(s, PathKey(0, x));
        assert Entry(m, s.tables[PathKey(0, x)], Index(0, x)) == Entry(s.mem, s.tables[PathKey(0, x)], Index(0, x));
      }
    }
  }

  /** Writing only inside held pages keeps the invariant and every translation. */
  lemma WriteHeld(s: State, m: seq<u64>)
    requires WF(s) && |m| == |s.mem|
    requires forall p <- s.owner :: s.owner[p] != Held ==> SamePage(s.mem, m, p)
    ensures WF(s.(mem := m)) && SameLeaves(s, s.(mem := m))
  {
    ChainFrame(s, m);
    TreeFrame(s, m);
  }

  /** Filling a held page leaves every other page alone. */
  lemma FillHeld(s: State, p: nat, w: u64)
    requires WF(s) && p in s.owner && s.owner[p] == Held
    ensures WF(s.(mem := FillPage(s.mem, p, w))) && SameLeaves(s, s.(mem := FillPage(s.mem, p, w)))
    ensures forall q :: q != p ==> SamePage(s.mem, FillPage(s.mem, p, w), q)
    ensures forall i :: 0 <= i < 512 ==> Entry(FillPage(s.mem, p, w), p, i) == w
  {
    WriteHeld(s, FillPage(s.mem, p, w));
  }

  /** Allocation: the page handed out was free, is now held and filled with 0xee bytes, the rest of
      the stack is intact, and NULL is returned exactly when the stack is empty. */
  lemma PNewKeeps(s: State)
    requires WF(s)
    ensures PNew(s).1 == 0 <==> s.free == []
    ensures s.free == [] ==> PNew(s).0 == s
    ensures s.free != [] ==>
              && PNew(s).1 == s.free[0] && PNew(s).0.free == s.free[1..]
              && s.free[0] in s.owner && s.owner[s.free[0]] == Free && PNew(s).0.owner == s.owner[s.free[0] := Held]
              && (forall i :: 0 <= i < 512 ==> Entry(PNew(s).0.mem, s.free[0], i) == 0xeeee_eeee_eeee_eeee)
              && (forall q :: q != s.free[0] ==> SamePage(s.mem, PNew(s).0.mem, q))
    ensures WF(PNew(s).0) && SameLeaves(s, PNew(s).0)
  {
    if s.free != [] {
      var p := s.free[0];
      assert LinkOk(s, 0);
      var popped := s.(head := At(s.mem, p * 512), free := s.free[1..], owner := s.owner[p := Held]);
      PopKeeps(s, popped);
      FillHeld(popped, p, ALLOC_FILL);
      assert PNew(s).0 == popped.(mem := FillPage(s.mem, p, ALLOC_FILL));
    } else {
      assert s.head == 0;
    }
  }

  lemma PopKeeps(s: State, s': State)
    requires WF(s) && s.free != []
    requires s' == s.(head := At(s.mem, s.free[0] * 512), free := s.free[1..], owner := s.owner[s.free[0] := Held])
    ensures WF(s') && SameLeaves(s, s')
  {
    assert LinkOk(s, 0);
    forall i | 0 <= i < |s'.free|
      ensures LinkOk(s', i)
    {
      assert LinkOk(s, i + 1);
      assert s'.free[i] == s.free[i + 1];
      assert Link(s'.free, i + 1) == Link(s.free, i + 2);
    }
    forall q <- s'.owner | s'.owner[q] == Free
      ensures q in s'.free
    {
      assert q in s.free;
    }
    TreeDepends(s, s');
  }

  /** The tree depends only on the memory, the tables, the root and which pages are tables. */
  lemma TreeDepends(s: State, s': State)
    requires TablesOk(s) && EntriesOk(s) && s'.mem == s.mem && s'.tables == s.tables && s'.root == s.root
    requires s'.owner.Keys == s.owner.Keys
    requires forall p <- s.owner :: s.owner[p] == s'.owner[p] || (!s.owner[p].Table? && !s'.owner[p].Table?)
    ensures TablesOk(s') && EntriesOk(s') && SameLeaves(s, s')
  {
    forall key | key in s'.tables
      ensures TableOk(s', key)
    {
      assert TableOk(s, key);
    }
    forall key, j | key in s'.tables && key.lvl > 0 && 0 <= j < 512
      ensures EntryOk(s', key, j)
    {
      assert EntryOk(s, key, j);
    }
  }

  /** Freeing a held page pushes it, and touches nothing but that page. */
  lemma PFreeKeeps(s: State, p: nat)
    requires WF(s) && p in s.owner && s.owner[p] == Held
    ensures WF(PFree(s, p)) && SameLeaves(s, PFree(s, p))
    ensures PFree(s, p).free == [p] + s.free
    ensures Entry(PFree(s, p).mem, p, 0) == s.head
    ensures forall i :: 1 <= i < 512 ==> Entry(PFree(s, p).mem, p, i) == 0xbbbb_bbbb_bbbb_bbbb
    ensures forall q :: q != p ==> SamePage(s.mem, PFree(s, p).mem, q)
  {
    FillHeld(s, p, FREE_FILL);
    var filled := s.(mem := FillPage(s.mem, p, FREE_FILL));
    var linked := filled.(mem := Put(filled.mem, p * 512, s.head));
    WriteHeld(filled, linked.mem);
    PushKeeps(linked, p, PFree(s, p));
  }

  lemma PushKeeps(s: State, p: nat, s': State)
    requires WF(s) && p in s.owner && s.owner[p] == Held && Entry(s.mem, p, 0) == s.head
    requires s' == s.(head := p * 4096, free := [p] + s.free, owner := s.owner[p := Free])
    ensures WF(s') && SameLeaves(s, s')
  {
    PushChain(s, p, s');
    TreeDepends(s, s');
  }

  lemma PushChain(s: State, p: nat, s': State)
    requires ChainOk(s) && p in s.owner && s.owner[p] == Held && Entry(s.mem, p, 0) == s.head && p < PPN_LIMIT
    requires s' == s.(head := p * 4096, free := [p] + s.free, owner := s.owner[p := Free])
    ensures ChainOk(s')
  {
    assert s'.free[0] == p;
    assert forall i :: 0 < i < |s'.free| ==> s'.free[i] == s.free[i - 1];
    forall i | 0 <= i < |s'.free|
      ensures LinkOk(s', i) && (i > 0 ==> s'.free[i] != p)
    {
      assert Link(s'.free, i + 1) == Link(s.free, i);
      if i > 0 {
        assert LinkOk(s, i - 1);
      }
    }
    forall q <- s'.owner | s'.owner[q] == Free
      ensures q in s'.free
    {
      assert q == p || q in s.free;
    }
  }
}
