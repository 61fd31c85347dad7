/** Numerals: the digits an integer conversion makes, and an independent reader of them. */
module Digits {
  import opened Bits

  function Pow(b: nat, n: nat): nat {
    if n == 0 then 1 else b * Pow(b, n - 1)
  }

  function DigitChar(d: nat, upper: bool): char
    requires d < 16
  {
    if d < 10 then '0' + d as char else (if upper then 'A' else 'a') + (d - 10) as char
  }

  /** The number without its last digit. */
  function Quotient(v: nat, base: nat): nat
    requires base > 0
  {
    v / base
  }

  /** What a character counts for as a digit: 16 or more if it is none. */
  function DigitValue(c: char): nat {
    if '0' <= c <= '9' then c as int - '0' as int
    else if 'a' <= c <= 'f' then c as int - 'a' as int + 10
    else if 'A' <= c <= 'F' then c as int - 'A' as int + 10
    else 16
  }

  predicate AllDigits(t: string, base: nat) {
    forall i :: 0 <= i < |t| ==> DigitValue(t[i]) < base
  }

  /** The number that a numeral stands for, most significant digit first. */
  function Value(t: string, base: nat): nat {
    if t == "" then 0 else Value(t[..|t| - 1], base) * base + DigitValue(t[|t| - 1])
  }

  /** The last `n` digits of `v` at most, without leading zeros, but at least one. */
  function Numeral(v: nat, base: nat, n: nat, upper: bool): string
    requires 2 <= base <= 16
    decreases n
  {
    if n == 0 then ""
    else (if v < base then "" else Numeral(Quotient(v, base), base, n - 1, upper)) + [DigitChar(v % base, upper)]
  }

  lemma DigitCharValue(d: nat, upper: bool)
    requires d < 16
    ensures DigitValue(DigitChar(d, upper)) == d
  {
  }

  lemma PowPositive(b: nat, n: nat)
    requires b > 0
    ensures Pow(b, n) > 0
  {
    if n > 0 {
      PowPositive(b, n - 1);
      Product(b, Pow(b, n - 1));
    }
  }

  lemma Product(a: nat, b: nat)
    requires a > 0 && b > 0
    ensures a * b >= b && a * b >= a
  {
  }

  /** Splitting off the last digit of a remainder. */
  lemma RemainderSplits(v: nat, b: nat, p: nat)
    requires b > 0 && p > 0
    ensures b * p > 0 && v % (b * p) == (v / b) % p * b + v % b
  {
    var q, r, d := v / b / p, v / b % p, v % b;
    Product(b, p);
    DivMod(v / b, p);
    DivMod(v, b);
    Regroup(q, p, r, b, d, v / b, v);
    BelowProduct(r, p, b, d);
    DivModUnique(v, b * p, q, r * b + d);
  }

  lemma DivMod(x: nat, d: nat)
    requires d > 0
    ensures x == x / d * d + x % d && 0 <= x % d < d
  {
  }

  lemma Regroup(q: nat, p: nat, r: nat, b: nat, d: nat, w: nat, v: nat)
    requires w == q * p + r && v == w * b + d
    ensures v == q * (b * p) + (r * b + d)
  {
    assert (q * p + r) * b == q * (b * p) + r * b;
  }

  lemma BelowProduct(r: nat, p: nat, b: nat, d: nat)
    requires r < p && d < b
    ensures r * b + d < b * p
  {
    MulMono(r + 1, p, b);
  }

  /** A numeral is read digit by digit from the left. */
  lemma ValueStep(t: string, c: char, base: nat)
    ensures Value(t + [c], base) == Value(t, base) * base + DigitValue(c)
  {
    assert (t + [c])[..|t + [c]| - 1] == t;
  }

  lemma SmallRemainder(v: nat, m: nat)
    requires v < m
    ensures v % m == v && v / m == 0
  {
  }

  lemma QuotientZero(v: nat, base: nat)
    requires base > 0
    ensures Quotient(v, base) == 0 <==> v < base
  {
    if v < base {
      SmallRemainder(v, base);
    } else {
      DivMod(v, base);
    }
  }

  /** The numeral without its last digit. */
  function Front(v: nat, base: nat, n: nat, upper: bool): string
    requires 2 <= base <= 16 && n > 0
  {
    if v < base then "" else Numeral(Quotient(v, base), base, n - 1, upper)
  }

  lemma FrontIs(v: nat, base: nat, n: nat, upper: bool) returns (front: string)
    requires 2 <= base <= 16 && n > 0
    ensures Numeral(v, base, n, upper) == front + [DigitChar(v % base, upper)]
    ensures front == if Quotient(v, base) == 0 || n == 1 then "" else Numeral(Quotient(v, base), base, n - 1, upper)
  {
    front := Front(v, base, n, upper);
    QuotientZero(v, base);
  }

  lemma NumeralStep(v: nat, base: nat, n: nat, upper: bool)
    requires 2 <= base <= 16 && n > 0
    ensures Value(Numeral(v, base, n, upper), base) == Value(Front(v, base, n, upper), base) * base + v % base
  {
    DigitCharValue(v % base, upper);
    ValueStep(Front(v, base, n, upper), DigitChar(v % base, upper), base);
  }

  /** What the front stands for, given what shorter numerals stand for. */
  lemma FrontValue(v: nat, base: nat, n: nat, upper: bool, p: nat)
    requires 2 <= base <= 16 && n > 0 && p > 0
    requires Value(Numeral(Quotient(v, base), base, n - 1, upper), base) == Quotient(v, base) % p
    ensures Value(Front(v, base, n, upper), base) == Quotient(v, base) % p
  {
    QuotientZero(v, base);
    if v < base {
      SmallRemainder(0, p);
    }
  }

  lemma PowSplits(v: nat, base: nat, n: nat)
    requires base > 0 && n > 0
    ensures Pow(base, n) > 0 && Pow(base, n - 1) > 0
    ensures v % Pow(base, n) == Quotient(v, base) % Pow(base, n - 1) * base + v % base
  {
    PowPositive(base, n);
    PowPositive(base, n - 1);
    RemainderSplits(v, base, Pow(base, n - 1));
  }

  /** The numeral stands for the value, modulo what `n` digits can hold. */
  lemma {:induction false} NumeralValue(v: nat, base: nat, n: nat, upper: bool)
    requires 2 <= base <= 16
    ensures Pow(base, n) > 0 && Value(Numeral(v, base, n, upper), base) == v % Pow(base, n)
    decreases n
  {
    if n > 0 {
      PowSplits(v, base, n);
      NumeralValue(Quotient(v, base), base, n - 1, upper);
      FrontValue(v, base, n, upper, Pow(base, n - 1));
      NumeralStep(v, base, n, upper);
    }
  }

  /** It has at most `n` characters, at least one, all of them digits. */
  lemma {:induction false} NumeralDigits(v: nat, base: nat, n: nat, upper: bool)
    requires 2 <= base <= 16
    ensures |Numeral(v, base, n, upper)| <= n && (n > 0 ==> |Numeral(v, base, n, upper)| > 0)
    ensures AllDigits(Numeral(v, base, n, upper), base)
    decreases n
  {
    if n > 0 {
      DigitCharValue(v % base, upper);
      if v >= base {
        NumeralDigits(v / base, base, n - 1, upper);
      }
    }
  }

  lemma {:induction false} DivBelow(v: nat, base: nat, p: nat)
    requires base > 0 && v < base * p
    ensures v / base < p
  {
    DivMod(v, base);
    if p <= v / base {
      MulMono(p, v / base, base);
    }
  }

  /** A nonzero number that fits has no leading zero. */
  lemma {:induction false} NoLeadingZero(v: nat, base: nat, n: nat, upper: bool)
    requires 2 <= base <= 16 && 0 < v < Pow(base, n)
    ensures Numeral(v, base, n, upper) != "" && Numeral(v, base, n, upper)[0] != '0'
    decreases n
  {
    if v >= base {
      DivBelow(v, base, Pow(base, n - 1));
      NoLeadingZero(v / base, base, n - 1, upper);
    }
  }

  /** So the conversion of a number is exact if and only if it is below base to the n. */
  lemma ExactExactlyBelow(v: nat, base: nat, n: nat, upper: bool)
    requires 2 <= base <= 16
    ensures Value(Numeral(v, base, n, upper), base) == v <==> v < Pow(base, n)
  {
    NumeralValue(v, base, n, upper);
    var m := Pow(base, n);
    if v < m {
      SmallRemainder(v, m);
    } else {
      DivMod(v, m);
    }
  }

  lemma {:induction false} PowAdds(b: nat, m: nat, n: nat)
    ensures Pow(b, m + n) == Pow(b, m) * Pow(b, n)
    decreases m
  {
    if m > 0 {
      PowAdds(b, m - 1, n);
      Associate(b, Pow(b, m - 1), Pow(b, n));
    }
  }

  lemma Associate(a: nat, b: nat, c: nat)
    ensures a * b * c == a * (b * c)
  {
  }

  lemma Squares(b: nat, p4: nat)
    requires p4 == b * b * b * b
    ensures Pow(b, 32) == (p4 * p4 * (p4 * p4)) * (p4 * p4 * (p4 * p4))
  {
    Pow4(b);
    PowAdds(b, 4, 4);
    PowAdds(b, 8, 8);
    PowAdds(b, 16, 16);
  }

  lemma Pow4(b: nat)
    ensures Pow(b, 4) == b * b * b * b
  {
    assert Pow(b, 1) == b * Pow(b, 0);
    assert Pow(b, 2) == b * Pow(b, 1);
    assert Pow(b, 3) == b * Pow(b, 2);
    Associate(b, b, b);
    Associate(b, b, b * b);
    Associate(b, b * b, b);
  }

  /** With 32 digits every 64-bit number is exact in the bases 8, 10 and 16, and in base 2 exactly those
      below 2 to the 32. */
  lemma Pow32()
    ensures Pow(2, 32) == 0x1_0000_0000
    ensures Pow(8, 32) == 0x1_0000_0000_0000_0000_0000_0000
    ensures Pow(10, 32) == 100000000000000000000000000000000
    ensures Pow(16, 32) == 0x1_0000_0000_0000_0000_0000_0000_0000_0000
  {
    Pow32Binary();
    Pow32Rest();
  }

  lemma Pow32Binary()
    ensures Pow(2, 32) == 0x1_0000_0000
    ensures Pow(16, 32) == 0x1_0000_0000_0000_0000_0000_0000_0000_0000
  {
    Squares(2, 16);
    Squares(16, 65536);
  }

  lemma Pow32Rest()
    ensures Pow(8, 32) == 0x1_0000_0000_0000_0000_0000_0000
    ensures Pow(10, 32) == 100000000000000000000000000000000
  {
    Squares(8, 4096);
    Squares(10, 10000);
  }

  lemma {:induction false} ValueOfZeros(k: nat, t: string, base: nat)
    ensures Value(seq(k, _ => '0') + t, base) == Value(t, base)
    decreases k + |t|
  {
    var z := seq(k, _ => '0');
    if t != "" {
      ValueOfZeros(k, t[..|t| - 1], base);
      assert (z + t)[..|z + t| - 1] == z + t[..|t| - 1];
    } else if k > 0 {
      ValueOfZeros(k - 1, "", base);
      assert (z + "")[..k - 1] == seq(k - 1, _ => '0') + "";
    }
  }

  /** The number of digits: the least that can hold the value. */
  lemma {:induction false} NumeralLength(v: nat, base: nat, n: nat, upper: bool, d: nat)
    requires 2 <= base <= 16 && 0 < d <= n && v < Pow(base, d)
    ensures |Numeral(v, base, n, upper)| <= d
    decreases n
  {
    if v >= base {
      DivBelow(v, base, Pow(base, d - 1));
      assert d > 1 by {
        assert Pow(base, 1) == base * Pow(base, 0);
      }
      NumeralLength(v / base, base, n - 1, upper, d - 1);
    }
  }
}
