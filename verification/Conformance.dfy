/** Whole directives against C11: from the format and its arguments to the text. */
module Conformance {
  import opened Bits
  import opened C11
  import opened C11Laws
  import opened Digits
  import opened Directives
  import opened FieldLaws
  import opened Fields
  import opened Formats
  import opened Parsing
  import opened RoundTrip

  // ---------- integers ----------

  /** The flags that count for a conversion: sign flags for signed ones only, and `#`, which C11 leaves undefined
      for decimal ones, as if it were not there. */
  function Counting(m: Meant, c: char): Flags {
    MeantFlags(m).(zeropad := '0' in m.flags, left := IsLeft(m),
                   plus := '+' in m.flags && Signed11(c), space := ' ' in m.flags && Signed11(c),
                   hash := '#' in m.flags && Base11(c) != 10, upper := c == 'X', precision := false)
  }

  lemma CodeFlags(m: Meant, c: char)
    requires Integer11(c)
    ensures IntFlags(c, MeantFlags(m)) == KeptFlags(CountOf(m.prec), Counting(m, c))
  {
  }

  /** The code's text for it. */
  lemma NumberShows(m: Meant, c: char, arg: Arg, x: int, v: nat, f: Flags, t: string)
    requires Passes(m, c, arg, x) && v == (if x < 0 then -x else x) && f == Counting(m, c)
    requires t == CodeField(v, x < 0, Base11(c), CountOf(m.prec), WidthOf(m.width), f)
    ensures Render(Alone(m, c), 0, AllArgs(m, arg), 0) == Some(t)
  {
    PassedIs(m, c, arg, x);
    NumberPrints(m, c, arg, x);
    CodeFlags(m, c);
  }

  lemma UsualDirective(m: Meant, c: char, arg: Arg, x: int)
    requires Passes(m, c, arg, x)
    ensures Usual(Base11(c), x < 0, Counting(m, c))
  {
    PassedIs(m, c, arg, x);
  }

  /** Every integer directive, with any flags, width, precision and length modifier, numbers or `*`, and any
      argument: the text is the one C11 asks for, for the number that the argument carries, if and only if the
      condition of C11Laws.Conforms holds. */
  lemma NumberIsC11(m: Meant, c: char, arg: Arg, x: int)
    requires Passes(m, c, arg, x)
    ensures var (v, prec, width, f) := (if x < 0 then -x else x, CountOf(m.prec), WidthOf(m.width), Counting(m, c));
            Render(Alone(m, c), 0, AllArgs(m, arg), 0) == Some(Field11(v, x < 0, Base11(c), prec, width, f))
            <==> Conforms(v, x < 0, Base11(c), prec, width, f)
  {
    var f, v := Counting(m, c), if x < 0 then -x else x;
    NumberShows(m, c, arg, x, v, f, CodeField(v, x < 0, Base11(c), CountOf(m.prec), WidthOf(m.width), f));
    UsualDirective(m, c, arg, x);
    FieldIsC11(v, x < 0, Base11(c), CountOf(m.prec), WidthOf(m.width), f);
  }

  // ---------- strings and characters ----------

  lemma TextPrints(m: Meant, s: string)
    ensures Render(Alone(m, 's'), 0, AllArgs(m, Text(s)), 0)
            == Some(CodeString(s, CountOf(m.prec), WidthOf(m.width), MeantFlags(m)))
  {
    var f := MeantFlags(m);
    assert f.(precision := CountOf(m.prec).Some?) == f;
    DirectivePrints(m, 's', Text(s));
  }

  /** Every `%s`, likewise, for the characters `t` before the terminator. */
  lemma TextIsC11(m: Meant, s: string, t: string)
    requires CharsOf(s, t) && |t| < 0x1_0000_0000_0000_0000
    ensures var (prec, width) := (CountOf(m.prec), WidthOf(m.width));
            Render(Alone(m, 's'), 0, AllArgs(m, Text(s)), 0) == Some(String11(t, prec, width, IsLeft(m)))
            <==>
            if prec.None? then |t| < 0x1_0000_0000 || |t| % 0x1_0000_0000 >= width
            else prec.value >= 0 || (|t| <= width && forall c <- t :: c == ' ')
  {
    TextPrints(m, s);
    StringIsC11(s, t, CountOf(m.prec), WidthOf(m.width), MeantFlags(m));
  }

  lemma CharShows(c: char, width: nat, f: Flags, t: string, k: nat)
    requires t == CharField(c, width, f) && k == if f.left || width == 0 then 0 else width - 1
    ensures |t| == (if width > 1 then width else 1) && t[k] == c
    ensures forall i :: 0 <= i < |t| && i != k ==> t[i] == ' '
  {
  }

  /** Every `%c`: the character, the argument as an unsigned char, stands first with `-` and last without, and
      the rest of the width is spaces. */
  lemma CharPrints(m: Meant, w: u32, width: nat, k: nat)
    requires width == WidthOf(m.width) && k == if IsLeft(m) || width == 0 then 0 else width - 1
    ensures var text := Render(Alone(m, 'c'), 0, AllArgs(m, Word32(w)), 0);
            && text.Some? && |text.value| == (if width > 1 then width else 1)
            && text.value[k] == (w % 0x100) as char
            && forall i :: 0 <= i < |text.value| && i != k ==> text.value[i] == ' '
  {
    DirectivePrints(m, 'c', Word32(w));
    CharShows((w % 0x100) as char, width, MeantFlags(m), CharField((w % 0x100) as char, width, MeantFlags(m)), k);
  }

  // ---------- pointers ----------

  function PointerFlags(m: Meant): Flags {
    MeantFlags(m).(zeropad := true, upper := true)
  }

  lemma PointerPrints(m: Meant, v: u64)
    ensures Render(Alone(m, 'p'), 0, AllArgs(m, Word64(v)), 0)
            == Some(IntField(v, false, 16, PrecisionOf(m.prec), 16, PointerFlags(m)))
  {
    DirectivePrints(m, 'p', Word64(v));
  }

  /** `%p`, which C11 leaves to the implementation, without a precision: as `%016X` with the same flags, of which
      those for the sign count, would be, if and only if that would be as C11 asks. */
  lemma PointerIsHex(m: Meant, v: u64)
    requires m.prec.Omitted? && !('#' in m.flags && ('+' in m.flags || ' ' in m.flags))
    ensures var f := MeantFlags(m).(zeropad := true, upper := true, left := IsLeft(m), plus := '+' in m.flags,
                                    space := ' ' in m.flags, hash := '#' in m.flags);
            Render(Alone(m, 'p'), 0, AllArgs(m, Word64(v)), 0) == Some(Field11(v, false, 16, None, 16, f))
            <==> Conforms(v, false, 16, None, 16, f)
  {
    var f := PointerFlags(m);
    PointerPrints(m, v);
    assert KeptFlags(None, f) == f;
    FieldIsC11(v, false, 16, None, 16, f);
  }

  predicate IsUpperHex(c: char) {
    '0' <= c <= '9' || 'A' <= c <= 'F'
  }

  lemma {:induction false} UpperNumeral(v: nat, n: nat)
    ensures forall c <- Numeral(v, 16, n, true) :: IsUpperHex(c)
    decreases n
  {
    if n > 0 && v >= 16 {
      UpperNumeral(Quotient(v, 16), n - 1);
    }
  }

  /** Plain `%p`, with a precision of at most 16: sixteen upper-case digits that stand for the address. */
  lemma PointerDigits(m: Meant, v: u64)
    requires !IsLeft(m) && '+' !in m.flags && ' ' !in m.flags && '#' !in m.flags && PrecisionOf(m.prec) <= 16
    ensures var text := Render(Alone(m, 'p'), 0, AllArgs(m, Word64(v)), 0);
            && text.Some? && |text.value| == 16 && Value(text.value, 16) == v
            && forall c <- text.value :: IsUpperHex(c)
  {
    PointerPrints(m, v);
    PointerText(v, PrecisionOf(m.prec), PointerFlags(m));
  }

  lemma PointerLength(v: u64, prec: nat, f: Flags)
    requires prec <= 16 && f.zeropad && !f.left && !HasSign(false, f)
    ensures |Core(v, false, 16, prec, 16, f)| == 16
  {
    SixteenDigits(v, f);
    CoreLength(v, false, 16, prec, 16, f);
  }

  lemma PointerValue(v: u64, prec: nat, f: Flags)
    ensures Value(Core(v, false, 16, prec, 16, f), 16) == v
  {
    CoreDigits(v, false, 16, prec, 16, f);
    Pow32();
    SmallRemainder(v, Pow(16, BUF));
  }

  lemma PointerCase(v: u64, prec: nat, f: Flags)
    requires f.upper
    ensures forall c <- Core(v, false, 16, prec, 16, f) :: IsUpperHex(c)
  {
    UpperNumeral(v, BUF);
  }

  lemma PointerText(v: u64, prec: nat, f: Flags)
    requires prec <= 16 && f.zeropad && f.upper && !f.left && !f.hash && !HasSign(false, f)
    ensures var t := IntField(v, false, 16, prec, 16, f);
            |t| == 16 && Value(t, 16) == v && forall c <- t :: IsUpperHex(c)
  {
    var t := Core(v, false, 16, prec, 16, f);
    PointerLength(v, prec, f);
    PointerValue(v, prec, f);
    PointerCase(v, prec, f);
    assert IntField(v, false, 16, prec, 16, f) == t by {
      Unhashed(v, false, 16, prec, 16, f);
      assert "" + t == t;
    }
  }

  lemma SixteenDigits(v: u64, f: Flags)
    ensures Digs(v, 16, f) <= 16
  {
    Pow4(16);
    PowAdds(16, 4, 4);
    PowAdds(16, 8, 8);
    NumeralLength(v, 16, BUF, f.upper, 16);
  }

  // ---------- the case of letters ----------

  predicate Cased(t: string, upper: bool) {
    forall c <- t :: if upper then !('a' <= c <= 'z') else !('A' <= c <= 'Z')
  }

  lemma {:induction false} NumeralCase(v: nat, base: nat, n: nat, upper: bool)
    requires 2 <= base <= 16
    ensures Cased(Numeral(v, base, n, upper), upper)
    decreases n
  {
    if n > 0 && v >= base {
      NumeralCase(Quotient(v, base), base, n - 1, upper);
    }
  }

  lemma FilledCase(t: string, base: nat, prec: nat, w: nat, f: Flags)
    requires Cased(t, f.upper)
    ensures Cased(Filled(t, prec, w, f), f.upper)
  {
  }

  lemma HashedCase(t: string, base: nat, prec: nat, w: nat, f: Flags)
    requires Cased(t, f.upper) && base != 2
    ensures Cased(Hashed(t, base, prec, w, f), f.upper)
  {
    var u := Dropped(t, base, prec, w, f);
    assert forall c <- u :: c in t;
  }

  lemma FormattedCase(t: string, negative: bool, base: nat, prec: nat, width: nat, f: Flags)
    requires Cased(t, f.upper) && base != 2
    ensures Cased(Formatted(t, negative, base, prec, width, f), f.upper)
  {
    var w := InnerWidth(negative, width, f);
    FilledCase(t, base, prec, w, f);
    HashedCase(Filled(t, prec, w, f), base, prec, w, f);
  }

  /** `%X` prints no lower-case letter, not even in its prefix, and `%x` no upper-case one, whatever the flags,
      width and precision. */
  lemma CaseKept(m: Meant, c: char, arg: Arg, x: int)
    requires Passes(m, c, arg, x) && (c == 'x' || c == 'X')
    ensures var text := Render(Alone(m, c), 0, AllArgs(m, arg), 0);
            text.Some? && Cased(text.value, c == 'X')
  {
    var f := IntFlags(c, MeantFlags(m));
    PassedIs(m, c, arg, x);
    NumberPrints(m, c, arg, x);
    FieldCase(Magnitude(x), x < 0, PrecisionOf(m.prec), WidthOf(m.width), f);
  }

  lemma FieldCase(v: nat, negative: bool, prec: nat, width: nat, f: Flags)
    ensures Cased(IntField(v, negative, 16, prec, width, f), f.upper)
  {
    var g := if v == 0 then f.(hash := false) else f;
    NumeralCase(v, 16, BUF, f.upper);
    FormattedCase(Body(v, 16, g), negative, 16, prec, width, g);
  }
}
