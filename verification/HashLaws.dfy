/** The `#` flag: exactly when the prefixed form still stands for the number. */
module HashLaws {
  import opened Bits
  import opened Digits
  import opened Directives
  import opened Fields
  import opened FieldLaws

  /** Reads spaces, `0`, the mark of the base and digits. */
  function ReadMarked(t: string, mark: char, base: nat): Option<nat> {
    var u := SkipSpaces(t);
    if |u| >= 2 && u[0] == '0' && u[1] == mark then Some(Value(DigitRun(u[2..], base), base)) else None
  }

  /** The mark of bases 16 and 2. */
  function MarkOf(base: nat, f: Flags): char {
    if base == 16 then (if f.upper then 'X' else 'x') else 'b'
  }

  /** Reads spaces and octal digits of which the first is 0. */
  function ReadOctal(t: string): Option<nat> {
    var u := SkipSpaces(t);
    if u != "" && u[0] == '0' then Some(Value(DigitRun(u, 8), 8)) else None
  }

  // ---------- numerals that lose digits ----------

  lemma {:induction false} ValueBound(t: string, base: nat)
    requires AllDigits(t, base) && base > 0
    ensures Value(t, base) < Pow(base, |t|)
    decreases |t|
  {
    if t != "" {
      ValueBound(t[..|t| - 1], base);
      BelowProduct(Value(t[..|t| - 1], base), Pow(base, |t| - 1), base, DigitValue(t[|t| - 1]));
    }
  }

  /** The number of digits is the least that can hold the value. */
  lemma {:induction false} NumeralFills(v: nat, base: nat, n: nat, upper: bool)
    requires 2 <= base <= 16 && 0 < v < Pow(base, n)
    ensures n > 0 && Pow(base, |Numeral(v, base, n, upper)| - 1) <= v
    decreases n
  {
    if v >= base {
      DivBelow(v, base, Pow(base, n - 1));
      NumeralFills(v / base, base, n - 1, upper);
      var d := |Numeral(v / base, base, n - 1, upper)|;
      DivMod(v, base);
      MulMono(Pow(base, d - 1), v / base, base);
      assert Pow(base, d) == base * Pow(base, d - 1);
    } else {
      assert Pow(base, 0) == 1;
    }
  }

  lemma {:induction false} PowGrows(b: nat, m: nat, n: nat)
    requires b > 0 && m <= n
    ensures Pow(b, m) <= Pow(b, n)
    decreases n
  {
    if m < n {
      PowGrows(b, m, n - 1);
      PowPositive(b, n - 1);
      Product(b, Pow(b, n - 1));
    }
  }

  /** A number without its first digit is a smaller number. */
  lemma LosesDigits(v: nat, base: nat, upper: bool, j: nat)
    requires 2 <= base <= 16 && 0 < v < Pow(base, BUF) && 0 < j <= |Numeral(v, base, BUF, upper)|
    ensures Value(Numeral(v, base, BUF, upper)[j..], base) < v
  {
    var t := Numeral(v, base, BUF, upper);
    NumeralDigits(v, base, BUF, upper);
    NumeralFills(v, base, BUF, upper);
    ValueBound(t[j..], base);
    PowGrows(base, |t| - j, |t| - 1);
  }

  lemma OnlyZerosDropped(z: nat, t: string, base: nat, k: nat)
    requires k <= z && AllDigits(t, base) && base > 0
    ensures Value((Zeros(z) + t)[k..], base) == Value(t, base) && AllDigits((Zeros(z) + t)[k..], base)
  {
    assert (Zeros(z) + t)[k..] == Zeros(z - k) + t;
    ValueOfZeros(z - k, t, base);
  }

  lemma DigitsDropped(z: nat, t: string, base: nat, k: nat)
    requires z < k <= z + |t| && AllDigits(t, base)
    ensures (Zeros(z) + t)[k..] == t[k - z..] && AllDigits((Zeros(z) + t)[k..], base)
  {
  }

  /** Taking `k` characters from zeros and a numeral keeps the value exactly if they were zeros. */
  lemma DropsZeros(z: nat, v: nat, base: nat, upper: bool, k: nat, t: string)
    requires 2 <= base <= 16 && 0 < v < Pow(base, BUF) && t == Numeral(v, base, BUF, upper) && k <= z + |t|
    ensures Value((Zeros(z) + t)[k..], base) == v <==> k <= z
    ensures AllDigits((Zeros(z) + t)[k..], base)
  {
    NumeralDigits(v, base, BUF, upper);
    if k <= z {
      OnlyZerosDropped(z, t, base, k);
      ExactExactlyBelow(v, base, BUF, upper);
    } else {
      DigitsDropped(z, t, base, k);
      LosesDigits(v, base, upper, k - z);
    }
  }

  // ---------- the shape of a field with `#` ----------

  /** The conversions that take `#`: unsigned, with the flags as the directive leaves them. */
  predicate HashFlags(prec: nat, f: Flags) {
    f.hash && !f.plus && !f.space && (f.precision ==> !f.zeropad) && (!f.precision ==> prec == 0)
  }

  /** How many zeros the padding puts before the digits. */
  function ZeroCount(d: nat, prec: nat, width: nat, f: Flags): nat {
    var want := if f.left then 0 else if f.zeropad then Min(width, BUF) else Min(prec, BUF);
    if want > d then want - d else 0
  }

  lemma FilledZeros(t: string, prec: nat, width: nat, f: Flags)
    requires HashFlags(prec, f) && |t| <= BUF
    ensures Filled(t, prec, width, f) == Zeros(ZeroCount(|t|, prec, width, f)) + t
    ensures |t| + ZeroCount(|t|, prec, width, f) <= BUF
  {
    assert Zeros(0) + t == t;
  }

  /** How many characters `#` takes away from `len` of them. */
  function DropCount(len: nat, base: nat, width: nat, f: Flags): nat {
    if !f.precision && len > 0 && len == width then (if len > 1 && base == 16 then 2 else 1) else 0
  }

  lemma DroppedCount(t: string, base: nat, prec: nat, width: nat, f: Flags)
    requires HashFlags(prec, f)
    ensures DropCount(|t|, base, width, f) <= |t|
    ensures Dropped(t, base, prec, width, f) == t[DropCount(|t|, base, width, f)..]
  {
  }

  /** Of `z` zeros and the numeral `t`, the field shows all but the first `k` characters, prefixed. */
  lemma HashField(v: nat, base: nat, prec: nat, width: nat, f: Flags, t: string, z: nat, k: nat)
    requires 2 <= base <= 16 && v > 0 && HashFlags(prec, f) && t == Numeral(v, base, BUF, f.upper)
    requires z == ZeroCount(|t|, prec, width, f) && k == DropCount(z + |t|, base, width, f)
    ensures k <= z + |t| <= BUF
    ensures IntField(v, false, base, prec, width, f)
            == Justified(Prefixed("0", Prefixed(BaseMark(base, f), (Zeros(z) + t)[k..])), width, f)
  {
    NumeralDigits(v, base, BUF, f.upper);
    FilledZeros(t, prec, width, f);
    var u := Filled(t, prec, width, f);
    DroppedCount(u, base, prec, width, f);
    var h := Hashed(u, base, prec, width, f);
    assert Signed(h, false, f) == h by { assert "" + h == h; }
  }

  lemma HashShape(v: nat, base: nat, prec: nat, width: nat, f: Flags, t: string, z: nat, k: nat)
    returns (a: nat, b: nat)
    requires 2 <= base <= 16 && v > 0 && HashFlags(prec, f) && t == Numeral(v, base, BUF, f.upper)
    requires z == ZeroCount(|t|, prec, width, f) && k == DropCount(z + |t|, base, width, f)
    ensures k <= z + |t| <= BUF
    ensures IntField(v, false, base, prec, width, f)
            == Spaces(a) + Prefixed("0", Prefixed(BaseMark(base, f), (Zeros(z) + t)[k..])) + Spaces(b)
  {
    HashField(v, base, prec, width, f, t, z, k);
    a, b := JustifiedShape(Prefixed("0", Prefixed(BaseMark(base, f), (Zeros(z) + t)[k..])), width, f);
  }

  // ---------- bases 16 and 2 ----------

  /** A text that starts with no space is read from its start, whatever spaces surround it. */
  lemma ReadsMarkedAt(a: nat, h: string, b: nat, mark: char, base: nat)
    requires |h| >= 2 && h[0] != ' '
    ensures ReadMarked(Spaces(a) + h + Spaces(b), mark, base)
            == if h[0] == '0' && h[1] == mark then Some(Value(DigitRun(h[2..] + Spaces(b), base), base)) else None
  {
    var u := h + Spaces(b);
    assert Spaces(a) + h + Spaces(b) == Spaces(a) + u;
    SkipsSpaces(a, u);
    assert u[0] == h[0] && u[1] == h[1] && u[2..] == h[2..] + Spaces(b);
  }

  /** The prefixed digits `t`: with the whole prefix, with its second character only, or without. */
  lemma MarkFits(t: string, base: nat, f: Flags)
    requires AllDigits(t, base) && |t| <= BUF && (base == 16 || base == 2)
    ensures var h := Prefixed("0", Prefixed(BaseMark(base, f), t));
            && |h| >= 2 && h[0] != ' '
            && (|t| <= 30 <==> h[0] == '0' && h[1] == MarkOf(base, f))
            && (|t| <= 30 ==> h[2..] == t)
  {
    var mark := BaseMark(base, f);
    var h := Prefixed("0", Prefixed(mark, t));
    if |t| <= 30 {
      assert h == "0" + (mark + t);
    } else if |t| == 31 {
      assert h == mark + t;
    } else {
      assert h == t && DigitValue(t[0]) < base && DigitValue(t[1]) < base;
    }
  }

  lemma ReadsMarked(a: nat, t: string, b: nat, base: nat, f: Flags)
    requires AllDigits(t, base) && |t| <= BUF && (base == 16 || base == 2)
    ensures ReadMarked(Spaces(a) + Prefixed("0", Prefixed(BaseMark(base, f), t)) + Spaces(b), MarkOf(base, f), base)
            == if |t| <= 30 then Some(Value(t, base)) else None
  {
    MarkFits(t, base, f);
    ReadsMarkedAt(a, Prefixed("0", Prefixed(BaseMark(base, f), t)), b, MarkOf(base, f), base);
    RunOfDigits(t, b, base);
  }

  /** The prefixed form of a number stands for it exactly if only zeros are taken and the prefix fits. */
  lemma MarkedPrefix(v: nat, base: nat, prec: nat, width: nat, f: Flags, t: string, z: nat, k: nat)
    requires (base == 16 && 0 < v < 0x1_0000_0000_0000_0000) || (base == 2 && 0 < v < 0x1_0000_0000)
    requires HashFlags(prec, f)
    requires t == Numeral(v, base, BUF, f.upper)
    requires z == ZeroCount(|t|, prec, width, f) && k == DropCount(z + |t|, base, width, f)
    ensures ReadMarked(IntField(v, false, base, prec, width, f), MarkOf(base, f), base) == Some(v)
            <==> k <= z && z + |t| - k <= 30
  {
    Pow32();
    var a, b := HashShape(v, base, prec, width, f, t, z, k);
    DropsZeros(z, v, base, f.upper, k, t);
    ReadsMarked(a, (Zeros(z) + t)[k..], b, base, f);
  }

  /** `%#x`: the text is `0x` and the number if and only if nothing but zeros is taken from the digits
      and the prefix fits the buffer. */
  lemma HexPrefix(v: nat, prec: nat, width: nat, f: Flags)
    requires 0 < v < 0x1_0000_0000_0000_0000 && HashFlags(prec, f)
    ensures var d := |Numeral(v, 16, BUF, f.upper)|;
            ReadMarked(IntField(v, false, 16, prec, width, f), MarkOf(16, f), 16) == Some(v)
            <==>
            if f.precision then f.left || prec <= 30
            else width != d && (f.zeropad && !f.left ==> width != d + 1 && width <= 32)
  {
    HexDigits(v, f.upper);
    var t := Numeral(v, 16, BUF, f.upper);
    var z := ZeroCount(|t|, prec, width, f);
    MarkedPrefix(v, 16, prec, width, f, t, z, DropCount(z + |t|, 16, width, f));
    HexCounts(|t|, prec, width, f);
  }

  lemma HexCounts(d: nat, prec: nat, width: nat, f: Flags)
    requires 0 < d <= 16 && HashFlags(prec, f)
    ensures var z := ZeroCount(d, prec, width, f);
            var k := DropCount(z + d, 16, width, f);
            (k <= z && z + d - k <= 30)
            <==>
            if f.precision then f.left || prec <= 30
            else width != d && (f.zeropad && !f.left ==> width != d + 1 && width <= 32)
  {
  }

  /** `%#b`: the same for `0b`, where one zero less is taken but a number may have up to 32 digits. */
  lemma BinaryPrefix(v: nat, prec: nat, width: nat, f: Flags)
    requires 0 < v < 0x1_0000_0000 && HashFlags(prec, f)
    ensures var d := |Numeral(v, 2, BUF, f.upper)|;
            ReadMarked(IntField(v, false, 2, prec, width, f), 'b', 2) == Some(v)
            <==>
            if f.precision then d <= 30 && (f.left || prec <= 30)
            else if f.zeropad && !f.left && width > d then width <= 31
            else width != d && d <= 30
  {
    NumeralDigits(v, 2, BUF, f.upper);
    var t := Numeral(v, 2, BUF, f.upper);
    var z := ZeroCount(|t|, prec, width, f);
    MarkedPrefix(v, 2, prec, width, f, t, z, DropCount(z + |t|, 2, width, f));
    BinaryCounts(|t|, prec, width, f);
  }

  lemma BinaryCounts(d: nat, prec: nat, width: nat, f: Flags)
    requires 0 < d <= 32 && HashFlags(prec, f)
    ensures var z := ZeroCount(d, prec, width, f);
            var k := DropCount(z + d, 2, width, f);
            (k <= z && z + d - k <= 30)
            <==>
            if f.precision then d <= 30 && (f.left || prec <= 30)
            else if f.zeropad && !f.left && width > d then width <= 31
            else width != d && d <= 30
  {
  }

  lemma HexDigits(v: nat, upper: bool)
    requires 0 < v < 0x1_0000_0000_0000_0000
    ensures 0 < |Numeral(v, 16, BUF, upper)| <= 16
  {
    Pow4(16);
    PowAdds(16, 4, 4);
    PowAdds(16, 8, 8);
    NumeralLength(v, 16, BUF, upper, 16);
    NumeralDigits(v, 16, BUF, upper);
  }

  // ---------- octal ----------

  lemma OctalDigits(v: nat, upper: bool)
    requires 0 < v < 0x1_0000_0000_0000_0000
    ensures 0 < |Numeral(v, 8, BUF, upper)| <= 24
  {
    Pow4(8);
    PowAdds(8, 4, 4);
    PowAdds(8, 8, 8);
    PowAdds(8, 16, 8);
    NumeralLength(v, 8, BUF, upper, 24);
    NumeralDigits(v, 8, BUF, upper);
  }

  lemma ReadsOctal(a: nat, t: string, b: nat)
    requires AllDigits(t, 8) && t != "" && t[0] == '0'
    ensures ReadOctal(Spaces(a) + t + Spaces(b)) == Some(Value(t, 8))
  {
    assert Spaces(a) + t + Spaces(b) == Spaces(a) + (t + Spaces(b));
    SkipsSpaces(a, t + Spaces(b));
    assert (t + Spaces(b))[0] == '0';
    RunOfDigits(t, b, 8);
  }

  lemma OctalMark(t: string, f: Flags) returns (h: string)
    requires AllDigits(t, 8) && |t| <= BUF && (|t| == BUF ==> t[0] == '0')
    ensures h == Prefixed("0", Prefixed(BaseMark(8, f), t))
    ensures AllDigits(h, 8) && h != "" && h[0] == '0' && Value(h, 8) == Value(t, 8)
  {
    assert BaseMark(8, f) + t == t;
    if |t| < BUF {
      h := Zeros(1) + t;
      assert "0" + t == h;
      ValueOfZeros(1, t, 8);
    } else {
      h := t;
    }
  }

  /** `%#o`: the text starts with 0 and stands for the number if and only if there is a precision or the
      width differs from the number of digits. */
  lemma OctalPrefix(v: nat, prec: nat, width: nat, f: Flags)
    requires 0 < v < 0x1_0000_0000_0000_0000 && HashFlags(prec, f)
    ensures var d := |Numeral(v, 8, BUF, f.upper)|;
            ReadOctal(IntField(v, false, 8, prec, width, f)) == Some(v) <==> f.precision || width != d
  {
    Pow32();
    OctalDigits(v, f.upper);
    var t := Numeral(v, 8, BUF, f.upper);
    var z := ZeroCount(|t|, prec, width, f);
    var k := DropCount(z + |t|, 8, width, f);
    var a, b := HashShape(v, 8, prec, width, f, t, z, k);
    DropsZeros(z, v, 8, f.upper, k, t);
    OctalCounts(|t|, prec, width, f);
    OctalFull(z, t, k);
    var h := OctalMark((Zeros(z) + t)[k..], f);
    ReadsOctal(a, h, b);
  }

  /** Digits that fill the buffer start with a zero of the padding. */
  lemma OctalFull(z: nat, t: string, k: nat)
    requires k <= z + |t| <= BUF && (z + |t| - k == BUF ==> k == 0 && z > 0)
    ensures |(Zeros(z) + t)[k..]| == BUF ==> (Zeros(z) + t)[k..][0] == '0'
  {
  }

  lemma OctalCounts(d: nat, prec: nat, width: nat, f: Flags)
    requires 0 < d <= 24 && HashFlags(prec, f)
    ensures var z := ZeroCount(d, prec, width, f);
            var k := DropCount(z + d, 8, width, f);
            (k <= z <==> f.precision || width != d) && (z + d - k == BUF ==> k == 0 && z > 0)
  {
  }
}
