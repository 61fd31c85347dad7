/** The page-table macros of the RISC-V port and what each computes on a 64-bit word. A shift of an
    unsigned word by a constant is written as the division or multiplication that section 6.5.7 of
    C11 defines it to be; `&` and `|` are the bitwise operations of Bits. */
module ArchMm {
  import opened Bits

  const PAGE_V: u64 := 1
  const PAGE_R: u64 := 2
  const PAGE_W: u64 := 4
  const PAGE_X: u64 := 8
  const MAX_VA: u64 := 0x40_0000_0000
  const LVL_MASK: u64 := 0x1ff

  function Pa2Pte(pa: u64): u64 {
    Wrap(pa / 0x1000 * 0x400)
  }

  function Pte2Pa(pte: u64): u64 {
    Wrap(pte / 0x400 * 0x1000)
  }

  /** The shift by 12 + 9 * lvl, then the mask. */
  function GetLvl(lvl: nat, va: u64): nat {
    And(va / (if lvl == 0 then 0x1000 else if lvl == 1 then 0x20_0000 else 0x4000_0000), LVL_MASK)
  }

  function IsValid(pte: u64): bool {
    And(pte, PAGE_V) != 0
  }

  /** The word `map` stores for a page. */
  function LeafPte(pa: u64, perm: u64): u64 {
    Or64(Or64(Pa2Pte(pa), perm), PAGE_V)
  }

  /** The word `walk` stores to link a table. */
  function LinkPte(pa: u64): u64 {
    Or64(Pa2Pte(pa), PAGE_V)
  }

  /** A permission argument that makes a legal Sv39 leaf: R, RW, X, RX or RWX. */
  predicate LegalPerm(perm: u64) {
    0 < perm < 16 && perm % 2 == 0 && (perm / 4 % 2 == 1 ==> perm / 2 % 2 == 1)
  }

  lemma Pa2PteIs(pa: u64)
    ensures Pa2Pte(pa) == pa / 4096 * 1024
  {
  }

  /** Decoding an entry whose page number has at most 52 bits. */
  lemma Pte2PaIs(pte: u64, q: nat, low: nat)
    requires pte == q * 1024 + low && low < 1024 && q < 0x10_0000_0000_0000
    ensures Pte2Pa(pte) == q * 4096 && pte / 1024 == q
  {
    assert pte / 1024 == q;
  }

  /** Encoding a page address and decoding it gives it back, for every aligned 64-bit address. */
  lemma PteRoundTrip(pa: u64)
    requires pa % 4096 == 0
    ensures Pte2Pa(Pa2Pte(pa)) == pa
  {
    var q := pa / 4096;
    Pa2PteIs(pa);
    Pte2PaIs(Pa2Pte(pa), q, 0);
  }

  lemma IsValidIs(pte: u64)
    ensures IsValid(pte) <==> pte % 2 == 1
  {
    Pow2Values();
    AndMask(pte, 1);
  }

  /** The index of an address at a level, in terms of its page number. */
  lemma GetLvlOfPage(va: u64)
    ensures GetLvl(0, va) == va / 4096 % 512
    ensures GetLvl(1, va) == va / 4096 / 512 % 512
    ensures GetLvl(2, va) == va / 4096 / 512 / 512 % 512
  {
    MaskIs(va / 0x1000);
    MaskIs(va / 0x20_0000);
    MaskIs(va / 0x4000_0000);
    assert va / 0x20_0000 == va / 4096 / 512;
    assert va / 0x4000_0000 == va / 4096 / 512 / 512;
  }

  lemma MaskIs(x: nat)
    ensures And(x, LVL_MASK) == x % 512
  {
    Pow2Values();
    AndMask(x, 9);
  }

  lemma LinkPteIs(pa: u64)
    ensures LinkPte(pa) == pa / 4096 * 1024 + 1
  {
    var w, q := Pa2Pte(pa), pa / 4096;
    Pa2PteIs(pa);
    DivModUnique(w, 2, q * 512, 0);
    Or64One(w);
  }

  /** With a legal permission the three or-ed fields do not overlap. */
  lemma LeafPteIs(pa: u64, perm: u64)
    requires LegalPerm(perm)
    ensures LeafPte(pa, perm) == pa / 4096 * 1024 + perm + 1
  {
    Pa2PteIs(pa);
    LeafFields(Pa2Pte(pa), pa / 4096, perm);
  }

  lemma LeafFields(w: u64, q: nat, perm: u64)
    requires perm < 1024 && perm % 2 == 0 && w == q * 1024
    ensures Or64(Or64(w, perm), PAGE_V) == q * 1024 + perm + 1
  {
    Or64Low(w, q, perm);
    var e: u64 := w + perm;
    Or64One(e);
  }
}
