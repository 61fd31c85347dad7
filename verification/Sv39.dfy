/** What a page table means to the hardware: the address translation of sections 4.3.2 and 4.4 of
    the RISC-V Privileged Architecture, version 20211203, over a word-addressed physical memory.
    Written from that text and independently of the kernel's code. */
module Sv39 {
  import opened Bits

  datatype Perms = Perms(r: bool, w: bool, x: bool, u: bool)

  datatype Translation = Fault | Mapped(pa: nat, perms: Perms)

  // The fields of an entry: V R W X U G A D in bits 0 to 7, the page number in bits 53..10, and
  // bits 63..54 reserved.

  predicate V(pte: u64) { pte % 2 == 1 }
  predicate R(pte: u64) { pte / 2 % 2 == 1 }
  predicate W(pte: u64) { pte / 4 % 2 == 1 }
  predicate X(pte: u64) { pte / 8 % 2 == 1 }
  predicate U(pte: u64) { pte / 16 % 2 == 1 }
  predicate A(pte: u64) { pte / 64 % 2 == 1 }
  predicate D(pte: u64) { pte / 128 % 2 == 1 }

  function Ppn(pte: u64): nat { pte / 1024 % 0x1000_0000_0000 }

  predicate ReservedSet(pte: u64) { pte >= 0x40_0000_0000_0000 }

  /** How many pages an entry of level `i` spans. */
  function Span(i: nat): nat {
    if i == 0 then 1 else if i == 1 then 512 else 0x4_0000
  }

  /** The nine bits of a virtual address that index the table of level `i`. */
  function Vpn(va: u64, i: nat): nat {
    if i == 0 then va / 0x1000 % 512 else if i == 1 then va / 0x20_0000 % 512 else va / 0x4000_0000 % 512
  }

  /** Bits 63..39 must all equal bit 38. */
  predicate Canonical(va: u64) {
    va / 0x40_0000_0000 == 0 || va / 0x40_0000_0000 == 0x3ff_ffff
  }

  /** Steps 2 to 8 of section 4.3.2 at level `i`, for the table at physical page `a`. */
  function TranslateAt(m: seq<u64>, a: nat, i: nat, va: u64): Translation
    decreases i
  {
    var k := a * 512 + Vpn(va, i);
    if k >= |m| then Fault else
    var pte := m[k];
    if !V(pte) || (!R(pte) && W(pte)) || ReservedSet(pte) then
      Fault
    else if R(pte) || X(pte) then
      if Ppn(pte) % Span(i) != 0 then
        Fault
      else
        Mapped((Ppn(pte) + va / 0x1000 % Span(i)) * 0x1000 + va % 0x1000, Perms(R(pte), W(pte), X(pte), U(pte)))
    else if i == 0 || U(pte) || A(pte) || D(pte) then
      Fault
    else
      TranslateAt(m, Ppn(pte), i - 1, va)
  }

  function Translate(m: seq<u64>, root: nat, va: u64): Translation {
    if Canonical(va) then TranslateAt(m, root, 2, va) else Fault
  }
}
