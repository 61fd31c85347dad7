/** The tables in memory mean, to the hardware's translation, exactly what the leaves say. */
module Meaning {
  import opened Bits
  import opened ArchMm
  import opened Sv39
  import opened KernelState
  import opened Walking

  /** What a level-0 entry makes of a page offset. */
  function LeafMeaning(w: u64, offset: nat): Translation {
    if !V(w) || (!R(w) && W(w)) || ReservedSet(w) || !(R(w) || X(w)) then Fault
    else Mapped(Ppn(w) * 4096 + offset, Perms(R(w), W(w), X(w), U(w)))
  }

  /** The fields of an entry that holds page number `q` above ten low bits. */
  lemma EntryFields(w: u64, q: nat, low: u64)
    requires w == q * 1024 + low && low < 1024 && q < PPN_LIMIT
    ensures (V(w) <==> V(low)) && (R(w) <==> R(low)) && (W(w) <==> W(low)) && (X(w) <==> X(low))
    ensures (U(w) <==> U(low)) && (A(w) <==> A(low)) && (D(w) <==> D(low)) && !ReservedSet(w) && Ppn(w) == q
  {
    AccessBits(w, q, low);
    OtherBits(w, q, low);
    PageField(w, q, low);
  }

  lemma PageField(w: u64, q: nat, low: u64)
    requires w == q * 1024 + low && low < 1024 && q < PPN_LIMIT
    ensures V(w) <==> V(low)
    ensures !ReservedSet(w) && Ppn(w) == q
  {
    assert w / 1024 == q;
  }

  lemma AccessBits(w: u64, q: nat, low: u64)
    requires w == q * 1024 + low && low < 1024
    ensures (R(w) <==> R(low)) && (W(w) <==> W(low)) && (X(w) <==> X(low))
  {
    LowBit(w, q * 256, low, 2);
    LowBit(w, q * 128, low, 4);
    LowBit(w, q * 64, low, 8);
  }

  lemma OtherBits(w: u64, q: nat, low: u64)
    requires w == q * 1024 + low && low < 1024
    ensures (U(w) <==> U(low)) && (A(w) <==> A(low)) && (D(w) <==> D(low))
  {
    LowBit(w, q * 32, low, 16);
    LowBit(w, q * 8, low, 64);
    LowBit(w, q * 4, low, 128);
  }

  lemma LowBit(w: nat, m: nat, low: nat, d: nat)
    requires d > 0 && w == 2 * m * d + low
    ensures w / d % 2 == low / d % 2
  {
    assert w == (2 * m + low / d) * d + low % d;
    DivModUnique(w, d, 2 * m + low / d, low % d);
  }

  lemma VpnIsIndex(va: u64, lvl: nat)
    requires lvl <= 2
    ensures Vpn(va, lvl) == Index(lvl, va / 4096) < 512
  {
    assert va / 0x20_0000 == va / 4096 / 512;
    assert va / 0x4000_0000 == va / 4096 / 512 / 512;
  }

  lemma CanonicalIs(va: u64)
    ensures Canonical(va) <==> va < MAX_VA || va >= TWO64 - MAX_VA
  {
  }

  lemma TranslatePointer(m: seq<u64>, a: nat, i: nat, va: u64, p: nat)
    requires i > 0 && a * 512 + Vpn(va, i) < |m| && p < PPN_LIMIT
    requires m[a * 512 + Vpn(va, i)] == p * 1024 + 1
    ensures TranslateAt(m, a, i, va) == TranslateAt(m, p, i - 1, va)
  {
    PointerFields(m[a * 512 + Vpn(va, i)], p);
  }

  lemma PointerFields(w: u64, p: nat)
    requires w == p * 1024 + 1 && p < PPN_LIMIT
    ensures V(w) && !R(w) && !W(w) && !X(w) && !U(w) && !A(w) && !D(w) && !ReservedSet(w) && Ppn(w) == p
  {
    EntryFields(w, p, 1);
  }

  /** An upper-level entry sends the hardware to the table it selects, or nowhere. */
  lemma TranslateStep(s: State, key: Key, lvl: nat, va: u64)
    requires WF(s) && key in s.tables && key.lvl == lvl && 0 < lvl <= 2
    ensures var child := Child(key, Index(lvl, va / 4096));
            TranslateAt(s.mem, s.tables[key], lvl, va) ==
            if child in s.tables then TranslateAt(s.mem, s.tables[child], lvl - 1, va) else Fault
  {
    var j := Index(lvl, va / 4096);
    VpnIsIndex(va, lvl);
    assert TableOk(s, key) && EntryOk(s, key, j);
    if Child(key, j) in s.tables {
      assert TableOk(s, Child(key, j));
      TranslatePointer(s.mem, s.tables[key], lvl, va, s.tables[Child(key, j)]);
    } else {
      assert !V(Entry(s.mem, s.tables[key], j));
    }
  }

  lemma TranslateLeaf(s: State, key: Key, va: u64)
    requires WF(s) && key in s.tables && key.lvl == 0
    ensures TranslateAt(s.mem, s.tables[key], 0, va) ==
            LeafMeaning(Entry(s.mem, s.tables[key], va / 4096 % 512), va % 4096)
  {
    VpnIsIndex(va, 0);
    assert TableOk(s, key);
  }

  lemma TranslateLower(s: State, va: u64, x: nat)
    requires WF(s) && s.root != 0 && va < MAX_VA && x == va / 4096
    ensures TranslateAt(s.mem, s.root, 2, va) == LeafMeaning(Leaf(s, x), va % 4096)
  {
    ChildOnPath(2, x);
    ChildOnPath(1, x);
    MissingBelow(s, x);
    TranslateStep(s, PathKey(2, x), 2, va);
    if PathKey(1, x) in s.tables {
      TranslateStep(s, PathKey(1, x), 1, va);
      if PathKey(0, x) in s.tables {
        TranslateLeaf(s, PathKey(0, x), va);
      }
    }
  }

  lemma TranslateUpper(s: State, va: u64, x: nat)
    requires WF(s) && s.root != 0 && va >= TWO64 - MAX_VA && x == va / 4096
    ensures TranslateAt(s.mem, s.root, 2, va) == Fault
  {
    TranslateStep(s, Key(2, 0), 2, va);
    var j := Index(2, x);
    assert 256 <= j < 512;
    assert EntryOk(s, Key(2, 0), j);
    assert Entry(s.mem, s.root, j) == 0;
  }

  /** For every 64-bit address: the hardware's walk of the tables in memory finds the leaf of the page
      number, in the lower half of the address space, and faults everywhere else. */
  lemma TranslateIsLeaf(s: State, va: u64)
    requires WF(s) && s.root != 0
    ensures Translate(s.mem, s.root, va) ==
            if va < MAX_VA then LeafMeaning(Leaf(s, va / 4096), va % 4096) else Fault
  {
    CanonicalIs(va);
    if va < MAX_VA {
      TranslateLower(s, va, va / 4096);
    } else if va >= TWO64 - MAX_VA {
      TranslateUpper(s, va, va / 4096);
    }
  }

  function PermsOf(perm: u64): Perms {
    Perms(perm / 2 % 2 == 1, perm / 4 % 2 == 1, perm / 8 % 2 == 1, false)
  }

  /** A leaf made by `map` with a legal permission, for a 56-bit address, translates to that address
      with that permission, and is no user page. */
  lemma LeafPteMeaning(pa: u64, perm: u64, offset: nat)
    requires LegalPerm(perm) && pa / 4096 < PPN_LIMIT
    ensures LeafMeaning(LeafPte(pa, perm), offset) == Mapped(pa / 4096 * 4096 + offset, PermsOf(perm))
  {
    LeafPteIs(pa, perm);
    LeafFieldValues(LeafPte(pa, perm), pa / 4096, perm, offset);
  }

  lemma LeafFieldValues(w: u64, q: nat, perm: u64, offset: nat)
    requires LegalPerm(perm) && q < PPN_LIMIT && w == q * 1024 + perm + 1
    ensures LeafMeaning(w, offset) == Mapped(q * 4096 + offset, PermsOf(perm))
  {
    EntryFields(w, q, perm + 1);
    EvenPlusOne(perm);
  }

  lemma EvenPlusOne(n: nat)
    requires n < 16 && n % 2 == 0
    ensures (n + 1) / 2 == n / 2 && (n + 1) / 4 == n / 4 && (n + 1) / 8 == n / 8 && (n + 1) / 16 == 0
  {
  }
}
