/** Which number an integer conversion finds in its argument, by its range and its last bits. */
module Arguments {
  import opened Bits
  import opened Directives
  import opened Formats

  /** How many different numbers fit a size in bits. */
  function Modulus(size: nat): int {
    if size == 8 then 0x100 else if size == 16 then 0x1_0000
    else if size == 32 then 0x1_0000_0000 else 0x1_0000_0000_0000_0000
  }

  predicate Fits(x: int, signed: bool, size: nat) {
    if signed then -Modulus(size) <= 2 * x < Modulus(size) else 0 <= x < Modulus(size)
  }

  /** An argument carries the number of that size whose last bits it has: 64 bits take a 64-bit argument, and
      fewer a 32-bit one. */
  predicate Carries(arg: Arg, signed: bool, size: nat, x: int) {
    && Fits(x, signed, size)
    && match arg
       case Word64(w) => size == 64 && (w - x) % Modulus(64) == 0
       case Word32(w) => size != 64 && (w - x) % Modulus(size) == 0
       case Text(_) => false
  }

  /** The size in bits that the length flags stand for. */
  function SizeOf(f: Flags): nat {
    if f.long || f.longLong then 64 else if f.chr then 8 else if f.short then 16 else 32
  }

  /** A signed conversion of `char`, whose result depends on the sign of plain `char`. */
  predicate IsPlainChar(c: char, f: Flags) {
    (c == 'd' || c == 'i') && SizeOf(f) == 8
  }

  lemma SameResidue(w: int, x: int, y: int, m: int)
    requires m > 0 && (w - x) % m == 0 && -m < x - y < m
    ensures (w - y) % m == 0 <==> x == y
  {
    if (w - y) % m == 0 {
      var k, l := (w - x) / m, (w - y) / m;
      assert w - x == k * m && w - y == l * m;
      MultipleBelow(l - k, m, x - y);
    }
  }

  lemma MultipleBelow(k: int, m: int, d: int)
    requires d == k * m && -m < d < m
    ensures d == 0
  {
    assert k >= 1 ==> k * m >= m;
    assert k <= -1 ==> k * m <= -m;
  }

  /** Two numbers of one size with the same last bits are equal. */
  lemma CarriesOne(arg: Arg, signed: bool, size: nat, x: int, y: int)
    requires Carries(arg, signed, size, x) && Fits(y, signed, size)
    ensures Carries(arg, signed, size, y) <==> x == y
  {
    match arg
    case Word64(w) => SameResidue(w, x, y, Modulus(64));
    case Word32(w) => SameResidue(w, x, y, Modulus(size));
  }

  lemma Multiple(k: int, m: int)
    requires m > 0
    ensures k * m % m == 0
  {
    DivModUnique(k * m, m, k, 0);
  }

  lemma Carries16(w: u32)
    ensures Carries(Word32(w), true, 16, Signed16(w))
  {
    var m, q, x := 0x1_0000, w / 0x1_0000, Signed16(w);
    assert w - x == (if x < 0 then q + 1 else q) * m;
    Multiple(if x < 0 then q + 1 else q, m);
  }

  lemma SignedCarries(w: u32, d: u64)
    ensures Carries(Word32(w), true, 32, Signed32(w)) && Carries(Word32(w), true, 16, Signed16(w))
    ensures Carries(Word64(d), true, 64, Signed64(d))
  {
    Carries16(w);
    assert w - Signed32(w) == 0 || w - Signed32(w) == Modulus(32);
    assert d - Signed64(d) == 0 || d - Signed64(d) == Modulus(64);
  }

  lemma LowBits(w: int, m: int)
    requires m > 0
    ensures (w - w % m) % m == 0
  {
    assert w - w % m == w / m * m;
    Multiple(w / m, m);
  }

  lemma UnsignedCarries(w: u32, d: u64)
    ensures Carries(Word32(w), false, 32, w) && Carries(Word64(d), false, 64, d)
    ensures Carries(Word32(w), false, 16, w % 0x1_0000) && Carries(Word32(w), false, 8, w % 0x100)
  {
    LowBits(w, 0x1_0000);
    LowBits(w, 0x100);
  }

  /** The number is the one that the argument carries, for every integer conversion and every length. */
  lemma ArgumentMeans(c: char, f: Flags, args: seq<Arg>, a: nat, x: int)
    requires c in {'d', 'i', 'u', 'x', 'X', 'o', 'b'} && !IsPlainChar(c, f)
    ensures IntArg(c, f, args, a) == Some(x)
            <==> a < |args| && Carries(args[a], c == 'd' || c == 'i', SizeOf(f), x)
  {
    if a < |args| && IntArg(c, f, args, a).Some? {
      var y := IntArg(c, f, args, a).value;
      match args[a] {
        case Word32(w) => SignedCarries(w, 0); UnsignedCarries(w, 0);
        case Word64(d) => SignedCarries(0, d); UnsignedCarries(0, d);
        case Text(_) =>
      }
      if Fits(x, c == 'd' || c == 'i', SizeOf(f)) {
        CarriesOne(args[a], c == 'd' || c == 'i', SizeOf(f), y, x);
      }
    }
  }
}
