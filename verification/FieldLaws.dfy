/** The laws of the conversions: how long a field is, and that its number can be read back. */
module FieldLaws {
  import opened Digits
  import opened Directives
  import opened Fields

  // ---------- an independent reader of numbers ----------

  function SkipSpaces(t: string): string {
    if t != "" && t[0] == ' ' then SkipSpaces(t[1..]) else t
  }

  /** The digits at the front of a text. */
  function DigitRun(t: string, base: nat): string {
    if t != "" && DigitValue(t[0]) < base then [t[0]] + DigitRun(t[1..], base) else ""
  }

  function AfterSign(t: string): string {
    if t != "" && (t[0] == '-' || t[0] == '+') then t[1..] else t
  }

  /** Reads a number as `strtol` does: spaces, an optional sign, then digits. The first part of the
      result tells whether there was a minus sign. */
  function ReadInt(t: string, base: nat): (bool, nat) {
    var u := SkipSpaces(t);
    (u != "" && u[0] == '-', Value(DigitRun(AfterSign(u), base), base))
  }

  lemma {:induction false} SkipsSpaces(n: nat, t: string)
    ensures SkipSpaces(Spaces(n) + t) == SkipSpaces(t)
    decreases n
  {
    if n > 0 {
      assert (Spaces(n) + t)[1..] == Spaces(n - 1) + t;
      SkipsSpaces(n - 1, t);
    } else {
      assert Spaces(0) + t == t;
    }
  }

  lemma {:induction false} RunOfDigits(t: string, n: nat, base: nat)
    requires AllDigits(t, base) && base <= 16
    ensures DigitRun(t + Spaces(n), base) == t
    decreases |t|
  {
    if t != "" {
      assert (t + Spaces(n))[1..] == t[1..] + Spaces(n);
      RunOfDigits(t[1..], n, base);
      assert t == [t[0]] + t[1..];
    } else {
      assert n > 0 ==> DigitValue((t + Spaces(n))[0]) >= base;
    }
  }

  lemma DigitsAreNoSign(t: string, n: nat, base: nat)
    requires AllDigits(t, base) && base <= 16
    ensures AfterSign(t + Spaces(n)) == t + Spaces(n)
    ensures t != "" ==> SkipSpaces(t + Spaces(n)) == t + Spaces(n)
  {
    assert t != "" ==> (t + Spaces(n))[0] == t[0];
  }

  /** The shape that every field without `#` has can be read. */
  lemma ReadShape(a: nat, sign: string, t: string, b: nat, base: nat)
    requires AllDigits(t, base) && base <= 16 && (sign == "" || sign == "-" || sign == "+" || sign == " ")
    ensures ReadInt(Spaces(a) + sign + t + Spaces(b), base) == (sign == "-", Value(t, base))
  {
    var rest := sign + t + Spaces(b);
    assert Spaces(a) + sign + t + Spaces(b) == Spaces(a) + rest;
    SkipsSpaces(a, rest);
    ReadRest(sign, t, b, base);
  }

  lemma ReadRest(sign: string, t: string, b: nat, base: nat)
    requires AllDigits(t, base) && base <= 16 && (sign == "" || sign == "-" || sign == "+" || sign == " ")
    ensures ReadInt(sign + t + Spaces(b), base) == (sign == "-", Value(t, base))
  {
    var tail := t + Spaces(b);
    assert sign + t + Spaces(b) == sign + tail;
    DigitsAreNoSign(t, b, base);
    RunOfDigits(t, b, base);
    if sign == "" || sign == " " {
      assert sign == " " ==> (sign + tail)[1..] == tail;
      assert sign == "" ==> sign + tail == tail;
      assert SkipSpaces(sign + tail) == SkipSpaces(tail);
      if t == "" {
        assert tail == Spaces(b) + "";
        SkipsSpaces(b, "");
      }
    } else {
      assert (sign + tail)[1..] == tail;
    }
  }

  // ---------- the shape and length of a field ----------

  /** The digits after zero padding. */
  function Core(v: nat, negative: bool, base: nat, prec: nat, width: nat, f: Flags): string
    requires 2 <= base <= 16
  {
    Filled(Body(v, base, f), prec, InnerWidth(negative, width, f), f)
  }

  lemma FillDigits(t: string, n: nat, base: nat)
    requires AllDigits(t, base) && 2 <= base
    ensures AllDigits(ZeroFill(t, n), base) && Value(ZeroFill(t, n), base) == Value(t, base)
    ensures |ZeroFill(t, n)| == Max(|t|, n)
  {
    if |t| < n {
      ValueOfZeros(n - |t|, t, base);
    }
  }

  lemma BodyDigits(v: nat, base: nat, f: Flags)
    requires 2 <= base <= 16
    ensures AllDigits(Body(v, base, f), base) && |Body(v, base, f)| <= BUF
    ensures Pow(base, BUF) > 0 && Value(Body(v, base, f), base) == v % Pow(base, BUF)
  {
    NumeralDigits(v, base, BUF, f.upper);
    NumeralValue(v, base, BUF, f.upper);
    if v == 0 {
      SmallRemainder(0, Pow(base, BUF));
    }
  }

  /** At every stage the digits stay within the buffer and stand for the same value. */
  lemma CoreDigits(v: nat, negative: bool, base: nat, prec: nat, width: nat, f: Flags)
    requires 2 <= base <= 16
    ensures AllDigits(Core(v, negative, base, prec, width, f), base)
    ensures |Core(v, negative, base, prec, width, f)| <= BUF
    ensures Pow(base, BUF) > 0 && Value(Core(v, negative, base, prec, width, f), base) == v % Pow(base, BUF)
  {
    BodyDigits(v, base, f);
    var t := Body(v, base, f);
    FillDigits(t, Min(prec, BUF), base);
    FillDigits(ZeroFill(t, Min(prec, BUF)), Min(InnerWidth(negative, width, f), BUF), base);
  }

  lemma Unhashed(v: nat, negative: bool, base: nat, prec: nat, width: nat, f: Flags)
    requires 2 <= base <= 16 && !f.hash
    ensures IntField(v, negative, base, prec, width, f)
            == Justified(Signed(Core(v, negative, base, prec, width, f), negative, f),
                         InnerWidth(negative, width, f), f)
  {
    assert f.(hash := false) == f;
  }

  lemma JustifiedShape(u: string, w: nat, f: Flags) returns (a: nat, b: nat)
    ensures Justified(u, w, f) == Spaces(a) + u + Spaces(b)
    ensures a + b + |u| == if f.zeropad && !f.left then |u| else Max(|u|, w)
  {
    a := if f.left || f.zeropad || |u| >= w then 0 else w - |u|;
    b := if f.left && |u| < w then w - |u| else 0;
    assert Spaces(0) == "";
  }

  /** The sign is shown unless the digits fill the buffer. */
  lemma FieldShape(v: nat, negative: bool, base: nat, prec: nat, width: nat, f: Flags)
    returns (a: nat, b: nat)
    requires 2 <= base <= 16 && !f.hash
    ensures var t := Core(v, negative, base, prec, width, f);
            IntField(v, negative, base, prec, width, f)
            == Spaces(a) + (if |t| < BUF then Sign(negative, f) else "") + t + Spaces(b)
  {
    Unhashed(v, negative, base, prec, width, f);
    var t := Core(v, negative, base, prec, width, f);
    a, b := JustifiedShape(Signed(t, negative, f), InnerWidth(negative, width, f), f);
    SignedIs(t, negative, f);
    Ungroup(Spaces(a), if |t| < BUF then Sign(negative, f) else "", t, Spaces(b));
  }

  lemma SignedIs(t: string, negative: bool, f: Flags)
    ensures Signed(t, negative, f) == (if |t| < BUF then Sign(negative, f) else "") + t
    ensures |Signed(t, negative, f)| == if |t| < BUF then |t| + SignLength(negative, f) else |t|
  {
    assert "" + t == t;
  }

  lemma Ungroup(a: string, sign: string, t: string, b: string)
    ensures a + (sign + t) + b == a + sign + t + b
  {
  }

  /** Round trip, for every base, value, sign, precision, width and flag but `#`: reading the text
      back gives the value modulo what 32 digits hold, and the sign exactly if a place was left for it. */
  lemma FieldReads(v: nat, negative: bool, base: nat, prec: nat, width: nat, f: Flags)
    requires 2 <= base <= 16 && !f.hash
    ensures Pow(base, BUF) > 0
    ensures ReadInt(IntField(v, negative, base, prec, width, f), base)
            == (negative && |Core(v, negative, base, prec, width, f)| < BUF, v % Pow(base, BUF))
  {
    var t := Core(v, negative, base, prec, width, f);
    CoreDigits(v, negative, base, prec, width, f);
    var a, b := FieldShape(v, negative, base, prec, width, f);
    ReadShape(a, if |t| < BUF then Sign(negative, f) else "", t, b, base);
  }

  /** How many digits there are, before and after padding. */
  function Digs(v: nat, base: nat, f: Flags): nat
    requires 2 <= base <= 16
  {
    |Body(v, base, f)|
  }

  function SignLength(negative: bool, f: Flags): nat {
    if HasSign(negative, f) then 1 else 0
  }

  lemma CoreLength(v: nat, negative: bool, base: nat, prec: nat, width: nat, f: Flags)
    requires 2 <= base <= 16
    ensures var b := Min(BUF, Max(Digs(v, base, f), if f.left then 0 else prec));
            |Core(v, negative, base, prec, width, f)|
            == if f.zeropad && !f.left then Max(b, Min(InnerWidth(negative, width, f), BUF)) else b
  {
    BodyDigits(v, base, f);
  }

  /** The exact length of every field without `#`. With zero padding nothing goes beyond the buffer;
      without, only the digits and the sign are so limited. Left justification ignores the precision. */
  lemma FieldLength(v: nat, negative: bool, base: nat, prec: nat, width: nat, f: Flags)
    requires 2 <= base <= 16 && !f.hash
    ensures var s, m := SignLength(negative, f), Max(Digs(v, base, f), if f.left then 0 else prec);
            |IntField(v, negative, base, prec, width, f)|
            == if f.zeropad && !f.left then Min(BUF, Max(width, m + s)) else Max(width, Min(BUF, m + s))
  {
    var m := Max(Digs(v, base, f), if f.left then 0 else prec);
    var t := |Core(v, negative, base, prec, width, f)|;
    LengthOfParts(v, negative, base, prec, width, f);
    BodyDigits(v, base, f);
    CoreLength(v, negative, base, prec, width, f);
    LengthAdds(m, SignLength(negative, f), width, InnerWidth(negative, width, f), t, f);
  }

  lemma LengthOfParts(v: nat, negative: bool, base: nat, prec: nat, width: nat, f: Flags)
    requires 2 <= base <= 16 && !f.hash
    ensures var t := |Core(v, negative, base, prec, width, f)|;
            var u := if t < BUF then t + SignLength(negative, f) else t;
            |IntField(v, negative, base, prec, width, f)|
            == if f.zeropad && !f.left then u else Max(u, InnerWidth(negative, width, f))
  {
    Unhashed(v, negative, base, prec, width, f);
    var t, w := Core(v, negative, base, prec, width, f), InnerWidth(negative, width, f);
    SignedIs(t, negative, f);
    var a, b := JustifiedShape(Signed(t, negative, f), w, f);
  }

  /** The arithmetic of it: `m` digits wanted, `s` for the sign, `t` digits made. */
  lemma LengthAdds(m: nat, s: nat, width: nat, w: nat, t: nat, f: Flags)
    requires s <= 1 && w == if !f.left && width > 0 && f.zeropad && s == 1 then width - 1 else width
    requires t == if f.zeropad && !f.left then Max(Min(BUF, m), Min(w, BUF)) else Min(BUF, m)
    ensures var u := if t < BUF then t + s else t;
            (if f.zeropad && !f.left then u else Max(u, w))
            == if f.zeropad && !f.left then Min(BUF, Max(width, m + s)) else Max(width, Min(BUF, m + s))
  {
  }

  /** The length that section 7.21.6.1 of C11 asks for: at least `prec` digits, a sign, at least `width`
      characters. */
  function PromisedLength(v: nat, negative: bool, base: nat, prec: nat, width: nat, f: Flags): nat
    requires 2 <= base <= 16
  {
    Max(width, Max(Digs(v, base, f), prec) + SignLength(negative, f))
  }

  /** It is met exactly when the digits and the sign fit the buffer, unless spaces make up the width. */
  lemma PromiseKept(v: nat, negative: bool, base: nat, prec: nat, width: nat, f: Flags)
    requires 2 <= base <= 16 && !f.hash
    ensures var s, d := SignLength(negative, f), Digs(v, base, f);
            |IntField(v, negative, base, prec, width, f)| == PromisedLength(v, negative, base, prec, width, f)
            <==>
            if f.left then width >= Max(d, prec) + s || (prec <= d && d + s <= BUF)
            else if f.zeropad then Max(d, prec) + s <= BUF && width <= BUF
            else width >= Max(d, prec) + s || Max(d, prec) + s <= BUF
  {
    FieldLength(v, negative, base, prec, width, f);
    BodyDigits(v, base, f);
    PromiseCounts(Digs(v, base, f), prec, SignLength(negative, f), width, f);
  }

  lemma PromiseCounts(d: nat, prec: nat, s: nat, width: nat, f: Flags)
    requires d <= BUF
    ensures var m := Max(d, if f.left then 0 else prec);
            (if f.zeropad && !f.left then Min(BUF, Max(width, m + s)) else Max(width, Min(BUF, m + s)))
            == Max(width, Max(d, prec) + s)
            <==>
            if f.left then width >= Max(d, prec) + s || (prec <= d && d + s <= BUF)
            else if f.zeropad then Max(d, prec) + s <= BUF && width <= BUF
            else width >= Max(d, prec) + s || Max(d, prec) + s <= BUF
  {
  }

  // ---------- signed and unsigned 64-bit arguments ----------

  /** `%d`: what is printed for a signed number reads as that number if and only if it has no minus sign
      to lose, or precision and zero padding leave room for the sign. */
  lemma SignedReads(x: int, prec: nat, width: nat, f: Flags)
    requires -0x8000_0000_0000_0000 <= x < 0x8000_0000_0000_0000 && !f.hash
    ensures ReadInt(IntField(Magnitude(x), x < 0, 10, prec, width, f), 10) == (x < 0, Magnitude(x))
            <==> x >= 0 || f.left || (prec <= 31 && (f.zeropad ==> width <= 32))
  {
    var v := Magnitude(x);
    FieldReads(v, x < 0, 10, prec, width, f);
    DecimalLength(v, f);
    CoreLength(v, x < 0, 10, prec, width, f);
  }

  lemma DecimalLength(v: nat, f: Flags)
    requires v <= 0x8000_0000_0000_0000
    ensures Digs(v, 10, f) <= 20 && Pow(10, BUF) > 0 && v % Pow(10, BUF) == v
  {
    Pow32();
    SmallRemainder(v, Pow(10, BUF));
    Pow20();
    NumeralLength(v, 10, BUF, f.upper, 20);
  }

  lemma Pow20()
    ensures Pow(10, 20) == 100000000000000000000
  {
    Pow4(10);
    PowAdds(10, 4, 4);
    PowAdds(10, 8, 8);
    PowAdds(10, 16, 4);
  }

  /** `%u`, `%x` and `%o`: every 64-bit number is printed in full, whatever the width and precision. */
  lemma UnsignedReads(v: nat, base: nat, prec: nat, width: nat, f: Flags)
    requires v < 0x1_0000_0000_0000_0000 && base in {8, 10, 16} && !f.hash
    ensures ReadInt(IntField(v, false, base, prec, width, f), base) == (false, v)
  {
    Pow32();
    FieldReads(v, false, base, prec, width, f);
    SmallRemainder(v, Pow(base, BUF));
  }

  /** `%b` keeps the value exactly if it is below 2 to the 32. */
  lemma BinaryReads(v: nat, prec: nat, width: nat, f: Flags)
    requires !f.hash
    ensures ReadInt(IntField(v, false, 2, prec, width, f), 2) == (false, v) <==> v < 0x1_0000_0000
  {
    Pow32();
    FieldReads(v, false, 2, prec, width, f);
    if v < 0x1_0000_0000 {
      SmallRemainder(v, Pow(2, BUF));
    }
  }

  // ---------- strings ----------

  /** `%s`: the text is the first characters of the argument, at most `prec` of them, with spaces on
      one side. */
  lemma StringShape(s: string, prec: nat, width: nat, f: Flags) returns (m: nat, a: nat, b: nat)
    ensures m == (if f.precision then Min(|CStr(s)|, prec) else |CStr(s)|)
    ensures StringField(s, prec, width, f) == Spaces(a) + CStr(s)[..m] + Spaces(b)
    ensures if f.left then a == 0 else b == 0
  {
    m := if f.precision then Min(|CStr(s)|, prec) else |CStr(s)|;
    var pad := |Padding(StringCount(s, prec, f), width)|;
    a, b := if f.left then 0 else pad, if f.left then pad else 0;
    assert Shown(s, prec, f) == CStr(s)[..m];
    assert Padding(StringCount(s, prec, f), width) == Spaces(pad);
  }

  /** Its length is the greater of that and the width, unless a string of 4 GiB or more makes the
      unsigned int that counts it wrap to below the width. */
  lemma StringLength(s: string, prec: nat, width: nat, f: Flags)
    requires prec < 0x1_0000_0000 && width < 0x1_0000_0000 && |CStr(s)| < 0x1_0000_0000_0000_0000
    requires !f.precision ==> prec == 0
    ensures |StringField(s, prec, width, f)| == Max(|Shown(s, prec, f)|, width)
            <==> f.precision || |CStr(s)| < 0x1_0000_0000 || |CStr(s)| % 0x1_0000_0000 >= width
  {
    var n, m := |CStr(s)|, |Shown(s, prec, f)|;
    CountIs(s, prec, f);
    WrapsBelow(n, n % 0x1_0000_0000, width);
  }

  lemma CountIs(s: string, prec: nat, f: Flags)
    requires prec < 0x1_0000_0000 && (!f.precision ==> prec == 0) && |CStr(s)| < 0x1_0000_0000_0000_0000
    ensures StringCount(s, prec, f) == if f.precision then |Shown(s, prec, f)| else |CStr(s)| % 0x1_0000_0000
  {
    if prec != 0 {
      SmallRemainder(Min(|CStr(s)|, prec), 0x1_0000_0000);
    }
    assert |CStr(s)| <= 0xffff_ffff_ffff_ffff;
  }

  lemma WrapsBelow(n: nat, r: nat, width: nat)
    requires r == n % 0x1_0000_0000 && width < 0x1_0000_0000
    ensures n < 0x1_0000_0000 ==> r == n
    ensures n >= 0x1_0000_0000 ==> n > width && n > r
  {
  }
}
