/** 64-bit unsigned words, and the bitwise operations the kernel's macros use, defined bit by bit on
    the integers, with the arithmetic meaning of each. */
module Bits {
  const TWO64: int := 0x1_0000_0000_0000_0000

  type u64 = x: int | 0 <= x < 0x1_0000_0000_0000_0000

  /** Unsigned 64-bit wrap-around. */
  function Wrap(x: int): u64 {
    x % 0x1_0000_0000_0000_0000
  }

  function Pow2(k: nat): (r: nat)
    ensures r > 0
  {
    if k == 0 then 1 else 2 * Pow2(k - 1)
  }

  function And(x: nat, y: nat): nat {
    if x == 0 || y == 0 then 0
    else 2 * And(x / 2, y / 2) + (if x % 2 == 1 && y % 2 == 1 then 1 else 0)
  }

  function Or(x: nat, y: nat): nat
    decreases x + y
  {
    if x == 0 then y
    else if y == 0 then x
    else 2 * Or(x / 2, y / 2) + (if x % 2 == 1 || y % 2 == 1 then 1 else 0)
  }

  lemma DivModUnique(x: int, d: int, q: int, r: int)
    requires 0 < d && x == q * d + r && 0 <= r < d
    ensures x / d == q && x % d == r
  {
    var q', r' := x / d, x % d;
    assert x == q' * d + r';
    assert (q - q') * d == r' - r;
    assert (q' - q) * d == r - r';
    if q > q' {
      MulMono(1, q - q', d);
    } else if q < q' {
      MulMono(1, q' - q, d);
    }
  }

  lemma MulMono(a: int, b: int, d: int)
    requires a <= b && 0 <= d
    ensures a * d <= b * d
  {
  }

  /** One step of dividing by a power of two. */
  lemma HalfStep(x: nat, p: nat)
    requires p > 0
    ensures x / (2 * p) == (x / 2) / p
    ensures x % (2 * p) == 2 * ((x / 2) % p) + x % 2
  {
    var q, r := (x / 2) / p, (x / 2) % p;
    assert x / 2 == q * p + r;
    assert x == q * (2 * p) + (2 * r + x % 2);
    DivModUnique(x, 2 * p, q, 2 * r + x % 2);
  }

  /** Masking with k ones keeps the remainder. */
  lemma {:induction false} AndMask(x: nat, k: nat)
    ensures And(x, Pow2(k) - 1) == x % Pow2(k)
  {
    if x == 0 {
      DivModUnique(0, Pow2(k), 0, 0);
    } else if k > 0 {
      var p := Pow2(k - 1);
      AndMask(x / 2, k - 1);
      HalfStep(x, p);
      assert Pow2(k) - 1 == 2 * (p - 1) + 1;
      assert (2 * (p - 1) + 1) / 2 == p - 1;
    }
  }

  /** Or of fields that do not overlap adds them. */
  lemma {:induction false} OrDisjoint(x: nat, y: nat, k: nat)
    requires y < Pow2(k)
    ensures Or(x * Pow2(k), y) == x * Pow2(k) + y
  {
    if k > 0 && x > 0 && y > 0 {
      var p := Pow2(k - 1);
      assert x * Pow2(k) == 2 * (x * p);
      OrDisjoint(x, y / 2, k - 1);
    }
  }

  /** Or-ing in bit 0 sets it and keeps the other bits. */
  lemma OrOne(x: nat)
    ensures Or(x, 1) == x / 2 * 2 + 1
  {
    if x > 0 {
      assert Or(x / 2, 0) == x / 2;
    }
  }

  /** Or of two 64-bit words is a 64-bit word. */
  lemma {:induction false} OrBound(x: nat, y: nat, k: nat)
    requires x < Pow2(k) && y < Pow2(k)
    ensures Or(x, y) < Pow2(k)
  {
    if x > 0 && y > 0 && k > 0 {
      OrBound(x / 2, y / 2, k - 1);
    }
  }

  lemma Pow2Values()
    ensures Pow2(1) == 2 && Pow2(9) == 512 && Pow2(10) == 1024 && Pow2(12) == 4096
    ensures Pow2(21) == 0x20_0000 && Pow2(30) == 0x4000_0000
    ensures Pow2(38) == 0x40_0000_0000 && Pow2(46) == 0x4000_0000_0000 && Pow2(54) == 0x40_0000_0000_0000
    ensures Pow2(64) == TWO64
  {
  }

  /** Or on 64-bit words. */
  function Or64(x: u64, y: u64): u64 {
    Pow2Values();
    OrBound(x, y, 64);
    Or(x, y)
  }

  lemma Or64One(x: u64)
    ensures Or64(x, 1) == x / 2 * 2 + 1
  {
    OrOne(x);
  }

  lemma Or64Low(x: u64, n: nat, y: u64)
    requires x == n * 1024 && y < 1024
    ensures Or64(x, y) == x + y
  {
    Pow2Values();
    OrDisjoint(n, y, 10);
  }
}
