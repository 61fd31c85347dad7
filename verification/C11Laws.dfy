/** Exactly when the code prints the text that C11 asks for. */
module C11Laws {
  import opened C11
  import opened Digits
  import opened Directives
  import opened FieldLaws
  import opened Fields
  import opened HashLaws

  // ---------- the code, from the same directive ----------

  /** The flags that the code goes by: a negative precision counts as given, and as 0. */
  function KeptFlags(prec: Option<int>, f: Flags): Flags {
    f.(precision := prec.Some?, zeropad := f.zeropad && prec.None?)
  }

  function CodeField(v: nat, negative: bool, base: nat, prec: Option<int>, width: nat, f: Flags): string
    requires 2 <= base <= 16
  {
    IntField(v, negative, base, Kept(prec), width, KeptFlags(prec, f))
  }

  /** The bases of the conversions; `#` goes with the unsigned ones, which show no sign. */
  predicate Usual(base: nat, negative: bool, f: Flags) {
    base in {2, 8, 10, 16} && (f.hash ==> base != 10 && Sign11(negative, f) == "")
  }

  // ---------- exactly when they agree ----------

  /** Without a prefix to show. `d` is the number of digits before padding. */
  predicate PlainConforms(d: nat, negative: bool, prec: Option<int>, width: nat, f: Flags) {
    var s, fill := |Sign11(negative, f)|, f.zeropad && !f.left;
    var n := if f.left then d else if prec.None? && fill then Max(d, Minus(width, s)) else Max(d, Kept(prec));
    && d <= BUF
    // the digits: all that the precision asks for, and no more zeros than the buffer takes
    && (if f.left then Kept(prec) <= d
        else if prec.None? then fill ==> width <= BUF + s
        else if prec.value < 0 then fill ==> width <= d + s
        else prec.value <= BUF)
    // the sign: a place in the buffer, or a space that the padding makes up for
    && (s == 0 || n < BUF
        || (Sign11(negative, f) == " " && !f.left && !(fill && prec.None?) && width > BUF))
  }

  /** With the prefix 0x, 0X or 0b. */
  predicate MarkedConforms(d: nat, base: nat, prec: Option<int>, width: nat, f: Flags) {
    var fill := f.zeropad && !f.left;
    && d <= 30
    && (if prec.None? then
          width != d &&
          (fill ==> if base == 16 then width != d + 1 && width <= BUF else width <= d + 1)
        else if prec.value < 0 then fill ==> width <= d + 2
        else if f.left then prec.value <= d
        else prec.value <= 30)
  }

  /** With the leading zero of octal. */
  predicate OctalConforms(d: nat, prec: Option<int>, width: nat, f: Flags) {
    var fill := f.zeropad && !f.left;
    && d <= 31
    && (if prec.None? then width != d && (fill ==> width <= BUF)
        else if prec.value < 0 then fill ==> width <= d + 1
        else if f.left then prec.value <= d + 1
        else prec.value <= d || prec.value == BUF)
  }

  /** The condition, on the number of digits, the sign, the precision, the width and the flags. */
  predicate Conforms(v: nat, negative: bool, base: nat, prec: Option<int>, width: nat, f: Flags)
    requires 2 <= base <= 16
  {
    var d := |Expand(v, base, f.upper)|;
    if v == 0 then
      if prec.Some? && prec.value < 0 then false
      else if prec == Some(0) && f.hash && base == 8 then false
      else PlainConforms(if prec.None? then 1 else 0, negative, prec, width, f)
    else if !f.hash then PlainConforms(d, negative, prec, width, f)
    else if base == 8 then OctalConforms(d, prec, width, f)
    else MarkedConforms(d, base, prec, width, f)
  }

  // ---------- texts ----------

  /** A text that neither starts nor ends with a space. */
  predicate Bare(x: string) {
    x == "" || (x[0] != ' ' && x[|x| - 1] != ' ')
  }

  function Laid(a: nat, x: string, b: nat): string {
    Spaces(a) + x + Spaces(b)
  }

  function LaidOut(x: string, left: bool, filled: bool, width: nat): string {
    Laid(if left || filled then 0 else Minus(width, |x|), x, if left then Minus(width, |x|) else 0)
  }

  lemma LaidAt(a: nat, x: string, b: nat, i: nat)
    requires i < a + |x| + b
    ensures |Laid(a, x, b)| == a + |x| + b
    ensures Laid(a, x, b)[i] == if a <= i < a + |x| then x[i - a] else ' '
  {
  }

  /** Spaces around a bare text show where it starts and ends. */
  lemma SameLaid(a: nat, x: string, b: nat, a': nat, x': string, b': nat)
    requires Bare(x) && Bare(x') && x' != ""
    ensures Laid(a, x, b) == Laid(a', x', b') <==> a == a' && x == x' && b == b'
  {
    if Laid(a, x, b) == Laid(a', x', b') {
      LaidAt(a', x', b', a');
      LaidAt(a, x, b, a');
      if x != "" {
        LaidAt(a, x, b, a);
        LaidAt(a', x', b', a);
        SameEnd(x, b, x', b', a);
      }
    }
  }

  lemma SameEnd(x: string, b: nat, x': string, b': nat, a: nat)
    requires Bare(x) && Bare(x') && x != "" && x' != "" && Laid(a, x, b) == Laid(a, x', b')
    ensures x == x' && b == b'
  {
    LaidAt(a, x, b, a + |x| - 1);
    LaidAt(a, x', b', a + |x| - 1);
    LaidAt(a, x', b', a + |x'| - 1);
    LaidAt(a, x, b, a + |x'| - 1);
    assert |x| == |x'|;
    forall i | 0 <= i < |x|
      ensures x[i] == x'[i]
    {
      LaidAt(a, x, b, a + i);
      LaidAt(a, x', b', a + i);
    }
  }

  /** Zeros before the digits `e`, and nothing else. */
  predicate Padded(t: string, e: string) {
    |t| >= |e| && t == Zeros(|t| - |e|) + e
  }

  lemma PaddedSame(t: string, u: string, e: string)
    requires Padded(t, e) && Padded(u, e)
    ensures t == u <==> |t| == |u|
  {
  }

  lemma FillPadded(t: string, n: nat, e: string)
    requires Padded(t, e)
    ensures Padded(ZeroFill(t, n), e) && |ZeroFill(t, n)| == Max(|t|, n)
  {
    if |t| < n {
      assert Zeros(n - |t|) + (Zeros(|t| - |e|) + e) == Zeros(n - |e|) + e;
    }
  }

  lemma SelfPadded(e: string)
    ensures Padded(e, e)
  {
    assert Zeros(0) + e == e;
  }

  // ---------- digits ----------

  lemma DigitIs(d: nat, upper: bool)
    requires d < 16
    ensures Digit11(d, upper) == DigitChar(d, upper)
  {
  }

  lemma ExpandStep(v: nat, base: nat, upper: bool, q: nat)
    requires 2 <= base <= 16 && v > 0 && q == Quotient(v, base)
    ensures q < v && Expand(v, base, upper) == Expand(q, base, upper) + [DigitChar(v % base, upper)]
  {
    DivShrinks(v, base);
    DigitIs(v % base, upper);
  }

  lemma {:induction false} ExpandDigits(v: nat, base: nat, upper: bool)
    requires 2 <= base <= 16
    ensures AllDigits(Expand(v, base, upper), base)
    ensures v > 0 ==> Expand(v, base, upper) != "" && Expand(v, base, upper)[0] != '0'
    decreases v
  {
    if v > 0 {
      var q := Quotient(v, base);
      ExpandStep(v, base, upper, q);
      QuotientZero(v, base);
      ExpandDigits(q, base, upper);
      DigitCharValue(v % base, upper);
      if v < base {
        SmallRemainder(v, base);
      }
    }
  }

  /** The code's numeral is all the digits, if they are not too many, and otherwise the last of them. */
  lemma {:induction false} NumeralIs(v: nat, base: nat, n: nat, upper: bool)
    requires 2 <= base <= 16 && v > 0 && n > 0
    ensures |Numeral(v, base, n, upper)| == Min(n, |Expand(v, base, upper)|)
    ensures |Expand(v, base, upper)| <= n ==> Numeral(v, base, n, upper) == Expand(v, base, upper)
    decreases n
  {
    var q := Quotient(v, base);
    ExpandStep(v, base, upper, q);
    QuotientZero(v, base);
    ExpandDigits(q, base, upper);
    if q > 0 && n > 1 {
      NumeralIs(q, base, n - 1, upper);
    }
  }

  lemma DigitsAreBare(t: string, base: nat)
    requires AllDigits(t, base) && base <= 16
    ensures Bare(t)
  {
  }

  // ---------- the two fields, laid out ----------

  lemma JustifiedIs(u: string, w: nat, f: Flags)
    ensures Justified(u, w, f) == LaidOut(u, f.left, f.zeropad, w)
  {
    assert Spaces(0) == "";
  }

  /** What C11 asks for between the spaces. */
  function Core11(v: nat, negative: bool, base: nat, prec: Option<int>, width: nat, f: Flags): string
    requires 2 <= base <= 16
  {
    Sign(negative, f) + Prefix11(v, base, f) + Body11(v, negative, base, prec, width, f)
  }

  function Body11(v: nat, negative: bool, base: nat, prec: Option<int>, width: nat, f: Flags): string
    requires 2 <= base <= 16
  {
    var t := Octal11(Digits11(v, base, Given(prec), f.upper), base, f);
    if !f.left && f.zeropad && Given(prec).None?
    then ZeroFill(t, Minus(width, |Sign(negative, f) + Prefix11(v, base, f)|)) else t
  }

  lemma SignIs(negative: bool, f: Flags)
    ensures Sign11(negative, f) == Sign(negative, f) && |Sign11(negative, f)| == SignLength(negative, f)
  {
  }

  lemma FillIs(t: string, n: nat)
    ensures AtLeast(t, n) == ZeroFill(t, n)
  {
    assert seq(Minus(n, |t|), _ => '0') == Zeros(Minus(n, |t|));
    assert Zeros(0) + t == t;
  }

  lemma SpacesAre(n: nat)
    ensures seq(n, _ => ' ') == Spaces(n)
  {
  }

  lemma PaddedIs(t: string, left: bool, width: nat)
    ensures Padded11(t, left, width) == LaidOut(t, left, false, width)
  {
    SpacesAre(Minus(width, |t|));
    assert Spaces(0) == "";
  }

  lemma LaidBare(u: string)
    ensures Laid(0, u, 0) == u
  {
    assert Spaces(0) == "";
  }

  lemma Field11Is(v: nat, negative: bool, base: nat, prec: Option<int>, width: nat, f: Flags, u: string)
    requires 2 <= base <= 16 && u == Core11(v, negative, base, prec, width, f)
    ensures Field11(v, negative, base, prec, width, f) == LaidOut(u, f.left, false, width)
    ensures !f.left && f.zeropad && Given(prec).None? ==> |u| >= width
  {
    SignIs(negative, f);
    var head := Sign(negative, f) + Prefix11(v, base, f);
    if !f.left && f.zeropad && Given(prec).None? {
      FillIs(Octal11(Digits11(v, base, Given(prec), f.upper), base, f), Minus(width, |head|));
      LaidBare(u);
    } else {
      PaddedIs(u, f.left, width);
    }
  }

  // ---------- without a prefix ----------

  /** Texts that start with a sign or a digit. */
  lemma SignedBare(sign: string, t: string, base: nat)
    requires AllDigits(t, base) && base <= 16 && (sign == "" || sign == "-" || sign == "+")
    ensures Bare(sign + t)
  {
    DigitsAreBare(t, base);
    if t != "" {
      assert (sign + t)[|sign + t| - 1] == t[|t| - 1];
      assert (sign + t)[0] == if sign == "" then t[0] else sign[0];
    }
  }

  /** A space as a sign is one space more in front. */
  lemma SpaceMoves(a: nat, t: string, b: nat)
    ensures Laid(a, " " + t, b) == Laid(a + 1, t, b)
  {
    assert Spaces(a) + (" " + t) == Spaces(a + 1) + t;
  }

  /** Digits `t` in the code and `u` in the standard, behind a sign that is not a space. */
  lemma SameBehindSign(a: nat, sign: string, t: string, b: nat, a': nat, u: string, b': nat, base: nat)
    requires AllDigits(t, base) && AllDigits(u, base) && base <= 16 && (sign == "" || sign == "-" || sign == "+")
    requires sign + u != ""
    ensures Laid(a, sign + t, b) == Laid(a', sign + u, b') <==> a == a' && t == u && b == b'
  {
    SignedBare(sign, t, base);
    SignedBare(sign, u, base);
    SameLaid(a, sign + t, b, a', sign + u, b');
    assert sign + t == sign + u ==> (sign + t)[|sign|..] == (sign + u)[|sign|..];
    assert (sign + t)[|sign|..] == t && (sign + u)[|sign|..] == u;
  }

  /** A sign that is lost is missed. */
  lemma SignIsMissed(a: nat, sign: string, t: string, b: nat, a': nat, u: string, b': nat, base: nat)
    requires AllDigits(t, base) && AllDigits(u, base) && base <= 16 && (sign == "-" || sign == "+") && t != ""
    ensures Laid(a, t, b) != Laid(a', sign + u, b')
  {
    var y := sign + u;
    assert t[0] != y[0] by {
      assert y[0] == sign[0];
    }
    DigitsAreBare(t, base);
    SignedBare(sign, u, base);
    SameLaid(a, t, b, a', y, b');
  }

  function SignIfRoom(sign: string, t: string): string {
    if |t| < BUF then sign + t else t
  }

  /** A space as a sign. */
  lemma SameBehindSpace(a: nat, t: string, b: nat, a': nat, u: string, b': nat, base: nat)
    requires AllDigits(t, base) && AllDigits(u, base) && base <= 16 && u != ""
    ensures Laid(a, if |t| < BUF then " " + t else t, b) == Laid(a', " " + u, b')
            <==> (if |t| < BUF then a + 1 else a) == a' + 1 && t == u && b == b'
  {
    SpaceMoves(a', u, b');
    SpaceMoves(a, t, b);
    assert "" + t == t && "" + u == u;
    SameBehindSign(if |t| < BUF then a + 1 else a, "", t, b, a' + 1, u, b', base);
  }

  /** When the same sign is due, the fields agree if and only if the digits do and the sign has room, or
      is a space that the padding makes up for. */
  lemma SameField(sign: string, t: string, u: string, left: bool, filled: bool, width: nat, base: nat)
    requires AllDigits(t, base) && AllDigits(u, base) && base <= 16 && |t| <= BUF && (u == "" ==> t == "")
    requires sign == "" || sign == "-" || sign == "+" || sign == " "
    requires filled ==> !left && |sign + u| >= width
    ensures LaidOut(SignIfRoom(sign, t), left, filled, width) == LaidOut(sign + u, left, false, width)
            <==> t == u && (sign == "" || |t| < BUF || (sign == " " && !left && !filled && width > BUF))
  {
    var x, y := SignIfRoom(sign, t), sign + u;
    var a, b := if left || filled then 0 else Minus(width, |x|), if left then Minus(width, |x|) else 0;
    var a', b' := if left then 0 else Minus(width, |y|), if left then Minus(width, |y|) else 0;
    assert "" + t == t && "" + u == u;
    if u == "" {
    } else if sign == " " {
      SameBehindSpace(a, t, b, a', u, b', base);
    } else if sign != "" && |t| == BUF {
      SignIsMissed(a, sign, t, b, a', u, b', base);
    } else {
      SameBehindSign(a, sign, t, b, a', u, b', base);
    }
  }

  lemma SignedRoom(t: string, negative: bool, f: Flags)
    ensures Signed(t, negative, f) == SignIfRoom(Sign(negative, f), t)
  {
    assert "" + t == t;
  }

  lemma HashIgnored(v: nat, negative: bool, base: nat, prec: nat, width: nat, f: Flags)
    requires 2 <= base <= 16 && (v == 0 || !f.hash)
    ensures IntField(v, negative, base, prec, width, f) == IntField(v, negative, base, prec, width, f.(hash := false))
  {
    assert !f.hash ==> f.(hash := false) == f;
  }

  /** The flags of the code without `#`. */
  function PlainFlags(prec: Option<int>, f: Flags): Flags {
    KeptFlags(prec, f).(hash := false)
  }

  lemma PlainLaid(u: string, negative: bool, width: nat, c: Flags)
    ensures Justified(u, InnerWidth(negative, width, c), c) == LaidOut(u, c.left, c.zeropad && !c.left, width)
  {
    JustifiedIs(u, InnerWidth(negative, width, c), c);
  }

  /** The code's field, laid out, when it shows no prefix. */
  lemma PlainCode(v: nat, negative: bool, base: nat, prec: Option<int>, width: nat, f: Flags, c: Flags, t: string)
    requires 2 <= base <= 16 && (v == 0 || !f.hash) && c == PlainFlags(prec, f)
    requires t == Core(v, negative, base, Kept(prec), width, c)
    ensures CodeField(v, negative, base, prec, width, f)
            == LaidOut(SignIfRoom(Sign(negative, f), t), f.left, c.zeropad && !f.left, width)
  {
    HashIgnored(v, negative, base, Kept(prec), width, KeptFlags(prec, f));
    Unhashed(v, negative, base, Kept(prec), width, c);
    SignedRoom(t, negative, c);
    PlainLaid(SignIfRoom(Sign(negative, c), t), negative, width, c);
  }

  // ---------- the digits without a prefix ----------

  /** How many digits the code shows, and how many the standard asks for, when there are `d` of them. */
  function CodeCount(d: nat, negative: bool, prec: Option<int>, width: nat, f: Flags): nat {
    var b := Min(BUF, Max(Min(BUF, d), if f.left then 0 else Kept(prec)));
    if f.zeropad && prec.None? && !f.left then Max(b, Min(Minus(width, SignLength(negative, f)), BUF)) else b
  }

  function Count11(d: nat, head: nat, prec: Option<int>, width: nat, f: Flags): nat {
    var n := Max(d, if Given(prec).Some? then prec.value else 1);
    if !f.left && f.zeropad && Given(prec).None? then Max(n, Minus(width, head)) else n
  }

  /** The digits before padding. */
  lemma BodyIs(v: nat, base: nat, c: Flags, e: string)
    requires 2 <= base <= 16 && e == Expand(v, base, c.upper)
    ensures |Body(v, base, c)| == if v > 0 then Min(BUF, |e|) else if c.precision then 0 else 1
    ensures |e| <= BUF ==> Padded(Body(v, base, c), e)
  {
    SelfPadded(e);
    if v > 0 {
      NumeralIs(v, base, BUF, c.upper);
    } else {
      assert Zeros(1) + "" == "0" && Zeros(0) + "" == "";
      assert Body(v, base, c) == if c.precision then "" else "0";
    }
  }

  lemma FilledPadded(body: string, prec: nat, w: nat, c: Flags, e: string)
    requires Padded(body, e)
    ensures Padded(Filled(body, prec, w, c), e)
  {
    FillPadded(body, Min(prec, BUF), e);
    FillPadded(ZeroFill(body, Min(prec, BUF)), Min(w, BUF), e);
  }

  lemma CoreCount(v: nat, negative: bool, base: nat, prec: Option<int>, width: nat, f: Flags, c: Flags, e: string)
    requires 2 <= base <= 16 && c == PlainFlags(prec, f) && e == Expand(v, base, f.upper)
    ensures |Core(v, negative, base, Kept(prec), width, c)|
            == CodeCount(if v == 0 && prec.None? then 1 else |e|, negative, prec, width, f)
  {
    BodyIs(v, base, c, e);
    CoreLength(v, negative, base, Kept(prec), width, c);
  }

  /** The code's digits: zeros and all the digits, unless these are too many for the buffer. */
  lemma CodeDigits(v: nat, negative: bool, base: nat, prec: Option<int>, width: nat, f: Flags, c: Flags, e: string)
    returns (t: string)
    requires 2 <= base <= 16 && c == PlainFlags(prec, f) && e == Expand(v, base, f.upper)
    ensures t == Core(v, negative, base, Kept(prec), width, c) && AllDigits(t, base) && |t| <= BUF
    ensures |t| == CodeCount(if v == 0 && prec.None? then 1 else |e|, negative, prec, width, f)
    ensures |e| <= BUF ==> Padded(t, e)
  {
    t := Core(v, negative, base, Kept(prec), width, c);
    CoreDigits(v, negative, base, Kept(prec), width, c);
    CoreCount(v, negative, base, prec, width, f, c, e);
    BodyIs(v, base, c, e);
    if |e| <= BUF {
      FilledPadded(Body(v, base, c), Kept(prec), InnerWidth(negative, width, c), c, e);
    }
  }

  /** The standard's digits before the extra zero of octal. */
  lemma Digits11Padded(v: nat, base: nat, prec: Option<nat>, upper: bool, e: string, t: string)
    requires 2 <= base <= 16 && e == Expand(v, base, upper) && t == Digits11(v, base, prec, upper)
    ensures AllDigits(t, base) && Padded(t, e) && |t| == Max(|e|, if prec.Some? then prec.value else 1)
  {
    var n := if prec.Some? then prec.value else 1;
    ExpandDigits(v, base, upper);
    FillIs(e, n);
    SelfPadded(e);
    FillPadded(e, n, e);
    FillDigits(e, n, base);
  }

  /** With no prefix that zero is not needed, unless 0 is printed with no digit at all. */
  lemma NoExtraZero(v: nat, base: nat, prec: Option<int>, f: Flags)
    requires 2 <= base <= 16 && (!f.hash || (v == 0 && !(base == 8 && prec == Some(0))))
    ensures var t := Digits11(v, base, Given(prec), f.upper); Octal11(t, base, f) == t
  {
    if v == 0 && f.hash && base == 8 {
      var n := if Given(prec).Some? then prec.value else 1;
      FillIs("", n);
      assert ZeroFill("", n) == Zeros(n) + "";
    }
  }

  /** The standard's digits, when there is no prefix and no extra zero of octal. */
  lemma Digits11Are(v: nat, negative: bool, base: nat, prec: Option<int>, width: nat, f: Flags, e: string, u: string)
    requires 2 <= base <= 16 && (!f.hash || (v == 0 && !(base == 8 && prec == Some(0))))
    requires e == Expand(v, base, f.upper) && u == Body11(v, negative, base, prec, width, f)
    ensures AllDigits(u, base) && Padded(u, e) && |u| == Count11(|e|, SignLength(negative, f), prec, width, f)
  {
    var t := Digits11(v, base, Given(prec), f.upper);
    Digits11Padded(v, base, Given(prec), f.upper, e, t);
    NoExtraZero(v, base, prec, f);
    HeadLength(v, negative, base, f);
    FillPadded(t, Minus(width, SignLength(negative, f)), e);
    FillDigits(t, Minus(width, SignLength(negative, f)), base);
  }

  lemma HeadLength(v: nat, negative: bool, base: nat, f: Flags)
    ensures |Sign(negative, f) + Prefix11(v, base, f)| == SignLength(negative, f) + |Prefix11(v, base, f)|
  {
  }

  /** The standard's field, laid out, when it shows no prefix. */
  lemma Plain11(v: nat, negative: bool, base: nat, prec: Option<int>, width: nat, f: Flags, u: string)
    requires 2 <= base <= 16 && (v == 0 || !f.hash) && u == Body11(v, negative, base, prec, width, f)
    ensures Field11(v, negative, base, prec, width, f) == LaidOut(Sign(negative, f) + u, f.left, false, width)
    ensures !f.left && f.zeropad && Given(prec).None? ==> |Sign(negative, f) + u| >= width
  {
    Field11Is(v, negative, base, prec, width, f, Core11(v, negative, base, prec, width, f));
    assert Sign(negative, f) + "" == Sign(negative, f);
  }

  /** Digits of the same number agree when they are as many. */
  lemma SameDigits(t: string, u: string, e: string)
    requires Padded(u, e) && |t| <= BUF && (|e| <= BUF ==> Padded(t, e))
    ensures t == u <==> |t| == |u|
  {
    if |e| <= BUF {
      PaddedSame(t, u, e);
    }
  }

  /** The numbers of digits decide. */
  lemma PlainCounts(d: nat, negative: bool, prec: Option<int>, width: nat, f: Flags)
    requires prec.None? || prec.value >= 0 || d > 0
    ensures var c := if d == 0 && prec.None? then 1 else d;
            var n, s := CodeCount(c, negative, prec, width, f), SignLength(negative, f);
            (n == Count11(d, s, prec, width, f) &&
             (s == 0 || n < BUF || (Sign(negative, f) == " " && !f.left && !(f.zeropad && prec.None?) && width > BUF)))
            <==> PlainConforms(c, negative, prec, width, f)
  {
  }

  /** Fields without a prefix, in terms of their digits. */
  lemma PlainTexts(v: nat, negative: bool, base: nat, prec: Option<int>, width: nat, f: Flags, c: Flags, t: string,
                   u: string)
    requires 2 <= base <= 16 && (v == 0 || !f.hash) && c == PlainFlags(prec, f)
    requires t == Core(v, negative, base, Kept(prec), width, c) && u == Body11(v, negative, base, prec, width, f)
    requires AllDigits(t, base) && AllDigits(u, base) && |t| <= BUF && (u == "" ==> t == "")
    ensures CodeField(v, negative, base, prec, width, f) == Field11(v, negative, base, prec, width, f)
            <==> t == u && (SignLength(negative, f) == 0 || |t| < BUF ||
                            (Sign(negative, f) == " " && !f.left && !(f.zeropad && prec.None?) && width > BUF))
  {
    var sign, filled := Sign(negative, f), c.zeropad && !f.left;
    var x, y := LaidOut(SignIfRoom(sign, t), f.left, filled, width), LaidOut(sign + u, f.left, false, width);
    assert CodeField(v, negative, base, prec, width, f) == x by { PlainCode(v, negative, base, prec, width, f, c, t); }
    assert Field11(v, negative, base, prec, width, f) == y && (filled ==> |sign + u| >= width) by {
      Plain11(v, negative, base, prec, width, f, u);
    }
    SameField(sign, t, u, f.left, filled, width, base);
  }

  /** Fields without a prefix. */
  lemma PlainAgrees(v: nat, negative: bool, base: nat, prec: Option<int>, width: nat, f: Flags, e: string)
    requires 2 <= base <= 16 && (v == 0 || !f.hash) && e == Expand(v, base, f.upper)
    requires v > 0 || ((prec.Some? ==> prec.value >= 0) && !(f.hash && base == 8 && prec == Some(0)))
    ensures CodeField(v, negative, base, prec, width, f) == Field11(v, negative, base, prec, width, f)
            <==> PlainConforms(if v == 0 && prec.None? then 1 else |e|, negative, prec, width, f)
  {
    var c := PlainFlags(prec, f);
    var u := Body11(v, negative, base, prec, width, f);
    assert v > 0 ==> |e| > 0 by { ExpandDigits(v, base, f.upper); }
    var t := CodeDigits(v, negative, base, prec, width, f, c, e);
    Digits11Are(v, negative, base, prec, width, f, e, u);
    SameDigits(t, u, e);
    PlainTexts(v, negative, base, prec, width, f, c, t, u);
    PlainCounts(|e|, negative, prec, width, f);
  }

  /** 0 with a negative precision, or with `#`, octal and precision 0: the code shows no digit. */
  lemma ZeroDiffers(negative: bool, base: nat, prec: Option<int>, width: nat, f: Flags)
    requires 2 <= base <= 16 && prec.Some? && (prec.value < 0 || (f.hash && base == 8 && prec == Some(0)))
    ensures CodeField(0, negative, base, prec, width, f) != Field11(0, negative, base, prec, width, f)
  {
    var c, e := PlainFlags(prec, f), Expand(0, base, f.upper);
    var u := Body11(0, negative, base, prec, width, f);
    var t := CodeDigits(0, negative, base, prec, width, f, c, e);
    PlainCode(0, negative, base, prec, width, f, c, t);
    Plain11(0, negative, base, prec, width, f, u);
    ZeroBody(negative, base, prec, width, f, u);
    SameField(Sign(negative, f), t, u, f.left, c.zeropad && !f.left, width, base);
  }

  lemma ZeroBody(negative: bool, base: nat, prec: Option<int>, width: nat, f: Flags, u: string)
    requires 2 <= base <= 16 && prec.Some? && (prec.value < 0 || (f.hash && base == 8 && prec == Some(0)))
    requires u == Body11(0, negative, base, prec, width, f)
    ensures AllDigits(u, base) && u != ""
  {
    var t := Octal11(Digits11(0, base, Given(prec), f.upper), base, f);
    assert t == "0" by {
      FillIs("", 0);
      FillIs("", 1);
      assert Zeros(1) + "" == "0" && Zeros(0) + "" == "" && "0" + "" == "0";
    }
    FillDigits(t, Minus(width, |Sign(negative, f) + Prefix11(0, base, f)|), base);
  }

  // ---------- with a prefix ----------

  lemma SameCores(x: string, y: string, left: bool, filled: bool, width: nat)
    requires Bare(x) && Bare(y) && y != "" && (filled ==> !left && |y| >= width)
    ensures LaidOut(x, left, filled, width) == LaidOut(y, left, false, width) <==> x == y
  {
    SameLaid(if left || filled then 0 else Minus(width, |x|), x, if left then Minus(width, |x|) else 0,
             if left then 0 else Minus(width, |y|), y, if left then Minus(width, |y|) else 0);
  }

  /** The code's digits `l`, when `k` characters have been taken from zeros and a numeral, and the
      standard's digits `u`. */
  lemma LeftDigits(z: nat, n: string, k: nat, e: string, l: string, u: string)
    requires |n| == Min(BUF, |e|) && (|e| <= BUF ==> n == e) && k <= z + |n| <= BUF && l == (Zeros(z) + n)[k..]
    requires Padded(u, e)
    ensures l == u <==> |l| == |u|
    ensures |e| <= BUF && k <= z ==> Padded(l, e)
    ensures |l| == z + |n| - k
  {
    if k <= z {
      assert l == Zeros(z - k) + n;
    }
    if |e| <= BUF && k <= z {
      PaddedSame(l, u, e);
    }
  }

  /** Marked fields: the prefix is there, and the digits are as many. */
  lemma MarkedTexts(l: string, u: string, base: nat, c: Flags, mark: string)
    requires AllDigits(l, base) && AllDigits(u, base) && |l| <= BUF && (base == 16 || base == 2)
    requires mark == "0" + BaseMark(base, c)
    ensures Prefixed("0", Prefixed(BaseMark(base, c), l)) == mark + u <==> |l| <= 30 && l == u
    ensures Bare(Prefixed("0", Prefixed(BaseMark(base, c), l))) && Bare(mark + u) && mark + u != ""
  {
    var h := Prefixed("0", Prefixed(BaseMark(base, c), l));
    MarkFits(l, base, c);
    assert (mark + u)[0] == '0' && (mark + u)[1] == MarkOf(base, c) && (mark + u)[2..] == u;
    assert |l| <= 30 ==> h == mark + l;
    if |l| > 30 {
      assert h[|h| - 1] == l[|l| - 1];
    } else if l != "" {
      assert h[|h| - 1] == l[|l| - 1];
    }
    if u != "" {
      assert (mark + u)[|mark + u| - 1] == u[|u| - 1];
    }
  }

  /** The flags of `#` as HashLaws wants them. */
  lemma HashedFlags(negative: bool, prec: Option<int>, f: Flags)
    requires f.hash && !HasSign(negative, f)
    ensures HashFlags(Kept(prec), KeptFlags(prec, f))
  {
  }

  lemma HashLaid(u: string, width: nat, c: Flags, left: bool, filled: bool)
    requires left == c.left && filled == (c.zeropad && !c.left)
    ensures Justified(u, width, c) == LaidOut(u, left, filled, width)
  {
    JustifiedIs(u, width, c);
  }

  lemma NoSign(negative: bool, f: Flags)
    requires !HasSign(negative, f)
    ensures Sign(negative, f) == "" && SignLength(negative, f) == 0
  {
  }

  /** The standard's prefix. */
  lemma PrefixIs(v: nat, base: nat, f: Flags)
    requires v > 0 && f.hash && (base == 16 || base == 2) && !HasSign(false, f)
    ensures Sign(false, f) + Prefix11(v, base, f) == "0" + BaseMark(base, f)
    ensures |Sign(false, f) + Prefix11(v, base, f)| == 2
  {
    NoSign(false, f);
    assert "" + Prefix11(v, base, f) == Prefix11(v, base, f);
    assert "0" + "x" == "0x" && "0" + "X" == "0X" && "0" + "b" == "0b";
  }

  /** The standard's digits behind a prefix. */
  lemma Marked11(v: nat, base: nat, prec: Option<int>, width: nat, f: Flags, e: string, u: string)
    requires v > 0 && f.hash && (base == 16 || base == 2) && !HasSign(false, f)
    requires e == Expand(v, base, f.upper) && u == Body11(v, false, base, prec, width, f)
    ensures AllDigits(u, base) && Padded(u, e) && |u| == Count11(|e|, 2, prec, width, f)
  {
    var t := Digits11(v, base, Given(prec), f.upper);
    Digits11Padded(v, base, Given(prec), f.upper, e, t);
    PrefixIs(v, base, f);
    FillPadded(t, Minus(width, 2), e);
    FillDigits(t, Minus(width, 2), base);
  }

  /** The standard's field, laid out. */
  lemma MarkedLaid(v: nat, base: nat, prec: Option<int>, width: nat, f: Flags, u: string, y: string)
    requires v > 0 && f.hash && (base == 16 || base == 2) && !HasSign(false, f)
    requires u == Body11(v, false, base, prec, width, f) && y == "0" + BaseMark(base, f) + u
    ensures Field11(v, false, base, prec, width, f) == LaidOut(y, f.left, false, width)
    ensures !f.left && f.zeropad && Given(prec).None? ==> |y| >= width
  {
    PrefixIs(v, base, f);
    Field11Is(v, false, base, prec, width, f, y);
  }

  /** The code's field, laid out: `l` is what is left of zeros and the numeral `n`. */
  lemma HashedLaid(v: nat, base: nat, prec: Option<int>, width: nat, f: Flags, c: Flags, n: string, z: nat,
                   k: nat, x: string)
    requires v > 0 && 2 <= base <= 16 && f.hash && !HasSign(false, f) && c == KeptFlags(prec, f)
    requires n == Numeral(v, base, BUF, f.upper) && z == ZeroCount(|n|, Kept(prec), width, c)
    requires k == DropCount(z + |n|, base, width, c) && k <= z + |n|
    requires x == Prefixed("0", Prefixed(BaseMark(base, f), (Zeros(z) + n)[k..]))
    ensures CodeField(v, false, base, prec, width, f) == LaidOut(x, f.left, c.zeropad && !f.left, width)
  {
    HashedFlags(false, prec, f);
    HashField(v, base, Kept(prec), width, c, n, z, k);
    HashLaid(x, width, c, f.left, c.zeropad && !f.left);
  }

  /** The code's digits, and that they are digits. */
  lemma LeftAre(v: nat, base: nat, prec: Option<int>, width: nat, f: Flags, c: Flags, n: string, z: nat, k: nat,
                e: string)
    requires v > 0 && 2 <= base <= 16 && f.hash && !HasSign(false, f) && c == KeptFlags(prec, f)
    requires n == Numeral(v, base, BUF, f.upper) && z == ZeroCount(|n|, Kept(prec), width, c)
    requires k == DropCount(z + |n|, base, width, c) && e == Expand(v, base, f.upper)
    ensures k <= z + |n| <= BUF && |n| == Min(BUF, |e|) && (|e| <= BUF ==> n == e) && e != "" && e[0] != '0'
    ensures AllDigits((Zeros(z) + n)[k..], base)
  {
    assert e != "" && e[0] != '0' by { ExpandDigits(v, base, f.upper); }
    assert |n| == Min(BUF, |e|) && (|e| <= BUF ==> n == e) by { NumeralIs(v, base, BUF, f.upper); }
    assert k <= z + |n| <= BUF by {
      HashedFlags(false, prec, f);
      HashField(v, base, Kept(prec), width, c, n, z, k);
    }
    assert AllDigits(n, base) by { NumeralDigits(v, base, BUF, f.upper); }
    ZerosAndDigits(z, n, k, base);
  }

  lemma ZerosAndDigits(z: nat, n: string, k: nat, base: nat)
    requires AllDigits(n, base) && base > 0 && k <= z + |n|
    ensures AllDigits((Zeros(z) + n)[k..], base)
  {
  }

  lemma MarkedCounts(d: nat, base: nat, prec: Option<int>, width: nat, f: Flags, c: Flags, n: nat, z: nat, k: nat,
                     l: nat)
    requires d > 0 && c == KeptFlags(prec, f) && (base == 16 || base == 2) && n == Min(BUF, d)
    requires z == ZeroCount(n, Kept(prec), width, c) && k == DropCount(z + n, base, width, c) && l + k == z + n
    ensures l <= 30 && l == Count11(d, 2, prec, width, f) <==> MarkedConforms(d, base, prec, width, f)
  {
  }

  /** Fields with 0x, 0X or 0b. */
  lemma MarkedAgrees(v: nat, base: nat, prec: Option<int>, width: nat, f: Flags, e: string)
    requires v > 0 && f.hash && (base == 16 || base == 2) && !HasSign(false, f) && e == Expand(v, base, f.upper)
    ensures CodeField(v, false, base, prec, width, f) == Field11(v, false, base, prec, width, f)
            <==> MarkedConforms(|e|, base, prec, width, f)
  {
    var c, n := KeptFlags(prec, f), Numeral(v, base, BUF, f.upper);
    var z := ZeroCount(|n|, Kept(prec), width, c);
    var k := DropCount(z + |n|, base, width, c);
    var u := Body11(v, false, base, prec, width, f);
    LeftAre(v, base, prec, width, f, c, n, z, k, e);
    var l := (Zeros(z) + n)[k..];
    var x, y := Prefixed("0", Prefixed(BaseMark(base, f), l)), "0" + BaseMark(base, f) + u;
    assert CodeField(v, false, base, prec, width, f) == LaidOut(x, f.left, c.zeropad && !f.left, width) by {
      HashedLaid(v, base, prec, width, f, c, n, z, k, x);
    }
    assert Field11(v, false, base, prec, width, f) == LaidOut(y, f.left, false, width)
        && (c.zeropad && !f.left ==> |y| >= width) by {
      MarkedLaid(v, base, prec, width, f, u, y);
    }
    assert AllDigits(u, base) && Padded(u, e) && |u| == Count11(|e|, 2, prec, width, f) by {
      Marked11(v, base, prec, width, f, e, u);
    }
    MarkedDecides(base, prec, width, f, c, n, z, k, e, l, u, x, y);
  }

  lemma MarkedDecides(base: nat, prec: Option<int>, width: nat, f: Flags, c: Flags, n: string, z: nat, k: nat,
                      e: string, l: string, u: string, x: string, y: string)
    requires (base == 16 || base == 2) && c == KeptFlags(prec, f) && e != ""
    requires AllDigits(u, base) && Padded(u, e) && |u| == Count11(|e|, 2, prec, width, f)
    requires |n| == Min(BUF, |e|) && (|e| <= BUF ==> n == e) && z == ZeroCount(|n|, Kept(prec), width, c)
    requires k == DropCount(z + |n|, base, width, c) && k <= z + |n| <= BUF
    requires l == (Zeros(z) + n)[k..] && AllDigits(l, base)
    requires x == Prefixed("0", Prefixed(BaseMark(base, f), l)) && y == "0" + BaseMark(base, f) + u
    requires c.zeropad && !f.left ==> |y| >= width
    ensures LaidOut(x, f.left, c.zeropad && !f.left, width) == LaidOut(y, f.left, false, width)
            <==> MarkedConforms(|e|, base, prec, width, f)
  {
    assert (l == u <==> |l| == |u|) && |l| + k == z + |n| by { LeftDigits(z, n, k, e, l, u); }
    assert (x == y <==> |l| <= 30 && l == u) && Bare(x) && Bare(y) && y != "" by {
      MarkedTexts(l, u, base, f, "0" + BaseMark(base, f));
    }
    SameCores(x, y, f.left, c.zeropad && !f.left, width);
    MarkedCounts(|e|, base, prec, width, f, c, |n|, z, k, |l|);
  }

  // ---------- octal ----------

  /** The standard's octal digits, with the zero that `#` adds when it is necessary. */
  lemma Octal11Is(v: nat, prec: Option<int>, width: nat, f: Flags, e: string, u: string)
    requires v > 0 && f.hash && !HasSign(false, f)
    requires e == Expand(v, 8, f.upper) && u == Body11(v, false, 8, prec, width, f)
    ensures AllDigits(u, 8) && Padded(u, e)
    ensures |u| == Count11(|e| + 1, 0, prec, width, f)
  {
    var p := Given(prec);
    var t := Digits11(v, 8, p, f.upper);
    Digits11Padded(v, 8, p, f.upper, e, t);
    ExpandDigits(v, 8, f.upper);
    NoSign(false, f);
    OctalZero(t, e, f);
    var o := Octal11(t, 8, f);
    FillPadded(o, Minus(width, 0), e);
    FillDigits(o, Minus(width, 0), 8);
  }

  lemma OctalZero(t: string, e: string, f: Flags)
    requires f.hash && AllDigits(t, 8) && Padded(t, e) && e != "" && e[0] != '0'
    ensures AllDigits(Octal11(t, 8, f), 8) && Padded(Octal11(t, 8, f), e) && |Octal11(t, 8, f)| == Max(|t|, |e| + 1)
  {
    if |t| == |e| {
      assert t == e;
      assert "0" + e == Zeros(1) + e;
    } else {
      assert t[0] == '0';
    }
  }

  lemma ZeroBefore(l: string)
    ensures "0" + l == Zeros(1) + l
  {
  }

  lemma ZeroPadded(l: string, e: string)
    requires Padded(l, e)
    ensures Padded("0" + l, e)
  {
    var z := |l| - |e|;
    ZeroBefore(l);
    assert Zeros(1) + (Zeros(z) + e) == Zeros(z + 1) + e;
  }

  /** The zero that the code adds if it fits. */
  lemma OctalMarked(l: string, f: Flags, x: string)
    requires AllDigits(l, 8) && |l| <= BUF && x == Prefixed("0", Prefixed(BaseMark(8, f), l))
    ensures x == if |l| < BUF then "0" + l else l
    ensures AllDigits(x, 8)
  {
    assert BaseMark(8, f) + l == l;
  }

  lemma OctalBare(l: string, f: Flags, x: string, u: string)
    requires AllDigits(l, 8) && |l| <= BUF && x == Prefixed("0", Prefixed(BaseMark(8, f), l)) && AllDigits(u, 8)
    ensures Bare(x) && Bare(u)
  {
    OctalMarked(l, f, x);
    DigitsAreBare(x, 8);
    DigitsAreBare(u, 8);
  }

  /** The code's octal digits and the standard's. */
  lemma OctalTexts(l: string, z: nat, n: string, k: nat, e: string, u: string, x: string, f: Flags)
    requires AllDigits(l, 8) && |n| == Min(BUF, |e|) && (|e| <= BUF ==> n == e) && k <= z + |n| <= BUF
    requires l == (Zeros(z) + n)[k..] && x == Prefixed("0", Prefixed(BaseMark(8, f), l))
    requires Padded(u, e) && |u| > |e|
    ensures x == u <==> |x| == |u|
    ensures |x| == Min(BUF, z + |n| - k + 1)
  {
    assert |l| == z + |n| - k && (|e| <= BUF && k <= z ==> Padded(l, e)) by { LeftDigits(z, n, k, e, l, u); }
    OctalMarked(l, f, x);
    if |e| <= BUF && k <= z {
      if |l| < BUF {
        ZeroPadded(l, e);
      }
      PaddedSame(x, u, e);
    }
  }

  lemma OctalCounts11(d: nat, prec: Option<int>, width: nat, f: Flags, c: Flags, n: nat, z: nat, k: nat, x: nat)
    requires d > 0 && c == KeptFlags(prec, f) && n == Min(BUF, d) && z == ZeroCount(n, Kept(prec), width, c)
    requires k == DropCount(z + n, 8, width, c) && k <= z + n && x == Min(BUF, z + n - k + 1)
    ensures x == Count11(d + 1, 0, prec, width, f) <==> OctalConforms(d, prec, width, f)
  {
  }

  /** The standard's octal field, laid out. */
  lemma OctalLaid(v: nat, prec: Option<int>, width: nat, f: Flags, u: string)
    requires v > 0 && f.hash && !HasSign(false, f) && u == Body11(v, false, 8, prec, width, f)
    ensures Field11(v, false, 8, prec, width, f) == LaidOut(u, f.left, false, width)
    ensures !f.left && f.zeropad && Given(prec).None? ==> |u| >= width
  {
    NoSign(false, f);
    assert "" + "" + u == u;
    Field11Is(v, false, 8, prec, width, f, u);
  }

  lemma OctalDecides(prec: Option<int>, width: nat, f: Flags, c: Flags, n: string, z: nat, k: nat, e: string,
                     l: string, u: string, x: string)
    requires c == KeptFlags(prec, f) && e != "" && Padded(u, e) && |u| == Count11(|e| + 1, 0, prec, width, f)
    requires |n| == Min(BUF, |e|) && (|e| <= BUF ==> n == e) && z == ZeroCount(|n|, Kept(prec), width, c)
    requires k == DropCount(z + |n|, 8, width, c) && k <= z + |n| <= BUF
    requires l == (Zeros(z) + n)[k..] && AllDigits(l, 8) && x == Prefixed("0", Prefixed(BaseMark(8, f), l))
    ensures x == u <==> OctalConforms(|e|, prec, width, f)
  {
    OctalTexts(l, z, n, k, e, u, x, f);
    OctalCounts11(|e|, prec, width, f, c, |n|, z, k, |x|);
  }

  /** Fields with the leading zero of octal. */
  lemma OctalAgrees(v: nat, prec: Option<int>, width: nat, f: Flags, e: string)
    requires v > 0 && f.hash && !HasSign(false, f) && e == Expand(v, 8, f.upper)
    ensures CodeField(v, false, 8, prec, width, f) == Field11(v, false, 8, prec, width, f)
            <==> OctalConforms(|e|, prec, width, f)
  {
    var c, n := KeptFlags(prec, f), Numeral(v, 8, BUF, f.upper);
    var z := ZeroCount(|n|, Kept(prec), width, c);
    var k := DropCount(z + |n|, 8, width, c);
    var u := Body11(v, false, 8, prec, width, f);
    LeftAre(v, 8, prec, width, f, c, n, z, k, e);
    var l := (Zeros(z) + n)[k..];
    var x := Prefixed("0", Prefixed(BaseMark(8, f), l));
    assert CodeField(v, false, 8, prec, width, f) == LaidOut(x, f.left, c.zeropad && !f.left, width) by {
      HashedLaid(v, 8, prec, width, f, c, n, z, k, x);
    }
    assert Field11(v, false, 8, prec, width, f) == LaidOut(u, f.left, false, width)
        && (c.zeropad && !f.left ==> |u| >= width) by {
      OctalLaid(v, prec, width, f, u);
    }
    assert x == u <==> OctalConforms(|e|, prec, width, f) by {
      Octal11Is(v, prec, width, f, e, u);
      OctalDecides(prec, width, f, c, n, z, k, e, l, u, x);
    }
    assert Bare(x) && Bare(u) && u != "" by {
      Octal11Is(v, prec, width, f, e, u);
      OctalBare(l, f, x, u);
    }
    SameCores(x, u, f.left, c.zeropad && !f.left, width);
  }

  // ---------- integers ----------

  /** Which of the conditions applies. */
  lemma ConformsIs(v: nat, negative: bool, base: nat, prec: Option<int>, width: nat, f: Flags, e: string)
    requires 2 <= base <= 16 && e == Expand(v, base, f.upper)
    ensures v == 0 && prec.Some? && (prec.value < 0 || (f.hash && base == 8 && prec == Some(0))) ==>
              !Conforms(v, negative, base, prec, width, f)
    ensures (v == 0 || !f.hash)
            && (v > 0 || ((prec.Some? ==> prec.value >= 0) && !(f.hash && base == 8 && prec == Some(0))))
            ==> (Conforms(v, negative, base, prec, width, f)
                 <==> PlainConforms(if v == 0 && prec.None? then 1 else |e|, negative, prec, width, f))
    ensures v > 0 && f.hash && base == 8 ==>
              (Conforms(v, negative, base, prec, width, f) <==> OctalConforms(|e|, prec, width, f))
    ensures v > 0 && f.hash && base != 8 ==>
              (Conforms(v, negative, base, prec, width, f) <==> MarkedConforms(|e|, base, prec, width, f))
  {
  }

  /** For every number, sign, precision, given, negative or omitted, width and set of flags: the code prints
      what C11 asks for if and only if the condition holds. */
  lemma FieldIsC11(v: nat, negative: bool, base: nat, prec: Option<int>, width: nat, f: Flags)
    requires Usual(base, negative, f)
    ensures CodeField(v, negative, base, prec, width, f) == Field11(v, negative, base, prec, width, f)
            <==> Conforms(v, negative, base, prec, width, f)
  {
    var e := Expand(v, base, f.upper);
    var same := CodeField(v, negative, base, prec, width, f) == Field11(v, negative, base, prec, width, f);
    var conforms := Conforms(v, negative, base, prec, width, f);
    assert same <==> conforms by {
      ConformsIs(v, negative, base, prec, width, f, e);
      if v == 0 && prec.Some? && (prec.value < 0 || (f.hash && base == 8 && prec == Some(0))) {
        ZeroDiffers(negative, base, prec, width, f);
      } else if v == 0 || !f.hash {
        PlainAgrees(v, negative, base, prec, width, f, e);
      } else if base == 8 {
        OctalAgrees(v, prec, width, f, e);
      } else {
        MarkedAgrees(v, base, prec, width, f, e);
      }
    }
  }

  // ---------- what the code prints in any case ----------

  lemma LaidIs(x: string, left: bool, filled: bool, width: nat)
    requires filled ==> !left
    ensures LaidOut(x, left, filled, width) == if filled then x else Padded11(x, left, width)
  {
    if filled {
      LaidBare(x);
    } else {
      PaddedIs(x, left, width);
    }
  }

  /** The text without a prefix, whether or not it is the one C11 asks for: the digits, with zeros up to the number
      of digits that the code goes by; before them the sign, if the buffer has room for it; then the padding. */
  lemma PlainFieldIs(v: nat, negative: bool, base: nat, prec: Option<int>, width: nat, f: Flags, e: string)
    requires 2 <= base <= 16 && (v == 0 || !f.hash) && e == Expand(v, base, f.upper) && |e| <= BUF
    ensures var n := CodeCount(if v == 0 && prec.None? then 1 else |e|, negative, prec, width, f);
            var x := (if n < BUF then Sign11(negative, f) else "") + AtLeast(e, n);
            CodeField(v, negative, base, prec, width, f)
            == if f.zeropad && !f.left && prec.None? then x else Padded11(x, f.left, width)
  {
    var c := PlainFlags(prec, f);
    var t := CodeDigits(v, negative, base, prec, width, f, c, e);
    PlainCode(v, negative, base, prec, width, f, c, t);
    SignIs(negative, f);
    FillIs(e, |t|);
    assert ZeroFill(e, |t|) == t by { assert Zeros(0) + e == e; }
    assert "" + t == t;
    LaidIs(SignIfRoom(Sign(negative, f), t), f.left, c.zeropad && !f.left, width);
  }

  /** With `#`: zeros and digits without the characters that `#` takes away, and of the prefix what has room. */
  lemma HashedFieldIs(v: nat, base: nat, prec: Option<int>, width: nat, f: Flags, e: string, z: nat, k: nat, l: string)
    requires v > 0 && base in {2, 8, 16} && f.hash && Sign11(false, f) == ""
    requires e == Expand(v, base, f.upper) && |e| <= BUF
    requires z == ZeroCount(|e|, Kept(prec), width, KeptFlags(prec, f))
    requires k == DropCount(z + |e|, base, width, KeptFlags(prec, f)) && k <= z + |e| && l == (Zeros(z) + e)[k..]
    ensures var mark := if base == 16 then (if f.upper then "X" else "x") else if base == 2 then "b" else "";
            var x := if |l| + |mark| < BUF then "0" + mark + l else if |l| < BUF then mark + l else l;
            CodeField(v, false, base, prec, width, f)
            == if f.zeropad && !f.left && prec.None? then x else Padded11(x, f.left, width)
  {
    SignIs(false, f);
    ExpandDigits(v, base, f.upper);
    NumeralIs(v, base, BUF, f.upper);
    var mark := BaseMark(base, f);
    var x := Prefixed("0", Prefixed(mark, l));
    HashedLaid(v, base, prec, width, f, KeptFlags(prec, f), e, z, k, x);
    LaidIs(x, f.left, f.zeropad && !f.left && prec.None?, width);
    PrefixShown(l, mark, x);
  }

  lemma PrefixShown(l: string, mark: string, x: string)
    requires |mark| <= 1 && x == Prefixed("0", Prefixed(mark, l))
    ensures x == if |l| + |mark| < BUF then "0" + mark + l else if |l| < BUF then mark + l else l
  {
    assert "0" + (mark + l) == "0" + mark + l;
  }

  // ---------- strings ----------

  /** The characters of a C string: those before its first NUL. */
  predicate CharsOf(s: string, t: string) {
    t <= s && '\0' !in t && (|t| < |s| ==> s[|t|] == '\0')
  }

  lemma {:induction false} CharsAre(s: string, t: string)
    requires CharsOf(s, t)
    ensures CStr(s) == t
    decreases |t|
  {
    if t != "" {
      assert s[0] == t[0] && s[0] in t;
      assert forall c <- t[1..] :: c in t;
      CharsAre(s[1..], t[1..]);
      assert t == [t[0]] + t[1..];
    }
  }

  function CodeString(s: string, prec: Option<int>, width: nat, f: Flags): string {
    StringField(s, Kept(prec), width, f.(precision := prec.Some?))
  }

  /** A text padded as if it had `count` characters. */
  lemma Counted(t: string, count: nat, width: nat, f: Flags)
    ensures Around(t, count, width, f) == Around(t, |t|, width, f) <==> Minus(width, count) == Minus(width, |t|)
  {
    assert |Around(t, count, width, f)| == |t| + Minus(width, count);
    assert |Around(t, |t|, width, f)| == |t| + Minus(width, |t|);
  }

  /** No text at all in place of `t`. */
  lemma AllSpaces(t: string, width: nat, f: Flags)
    ensures Around("", 0, width, f) == Around(t, |t|, width, f) <==> t == Spaces(|t|) && |t| <= width
  {
    var x, y := Around("", 0, width, f), Around(t, |t|, width, f);
    assert x == Spaces(width);
    var a := if f.left then 0 else Minus(width, |t|);
    assert y[a..a + |t|] == t;
    if x == y {
      assert x[a..a + |t|] == Spaces(|t|);
    }
    if t == Spaces(|t|) && |t| <= width {
      assert x == y;
    }
  }

  lemma OnlySpaces(t: string)
    ensures t == Spaces(|t|) <==> forall c <- t :: c == ' '
  {
    if forall c <- t :: c == ' ' {
      assert forall i :: 0 <= i < |t| ==> t[i] in t;
    }
  }

  lemma CountMeets(n: nat, width: nat)
    requires width < 0x1_0000_0000
    ensures Minus(width, n % 0x1_0000_0000) == Minus(width, n)
            <==> n < 0x1_0000_0000 || n % 0x1_0000_0000 >= width
  {
    WrapsBelow(n, n % 0x1_0000_0000, width);
  }

  lemma Around11(t: string, width: nat, f: Flags)
    ensures Padded11(t, f.left, width) == Around(t, |t|, width, f)
  {
    SpacesAre(Minus(width, |t|));
    assert Spaces(0) == "";
  }

  /** For every string, precision, given, negative or omitted, width and flags: the code prints what C11 asks
      for if and only if the unsigned int that counts the string does not wrap to below the width, and, when
      the precision is negative, there is nothing but spaces to lose. */
  lemma StringIsC11(s: string, t: string, prec: Option<int>, width: nat, f: Flags)
    requires CharsOf(s, t) && |t| < 0x1_0000_0000_0000_0000
    requires Kept(prec) < 0x1_0000_0000 && width < 0x1_0000_0000
    ensures CodeString(s, prec, width, f) == String11(t, prec, width, f.left)
            <==>
            if prec.None? then |t| < 0x1_0000_0000 || |t| % 0x1_0000_0000 >= width
            else prec.value >= 0 || (|t| <= width && forall c <- t :: c == ' ')
  {
    var c := f.(precision := prec.Some?);
    CharsAre(s, t);
    CountIs(s, Kept(prec), c);
    if prec.None? {
      Around11(t, width, c);
      Counted(t, |t| % 0x1_0000_0000, width, c);
      CountMeets(|t|, width);
    } else if prec.value < 0 {
      assert Shown(s, 0, c) == "";
      Around11(t, width, c);
      AllSpaces(t, width, c);
      OnlySpaces(t);
    } else {
      Around11(Shown(s, prec.value, c), width, c);
    }
  }
}
