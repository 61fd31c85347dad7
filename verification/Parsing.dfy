/** The directive parser undoes a printer of directives, and its numbers are the decimal ones. */
module Parsing {
  import opened Bits
  import opened Digits
  import opened Directives
  import opened Fields
  import opened Formats

  /** `t` stands in `s` from position `i` to position `j`. */
  predicate Stands(s: string, i: nat, t: string, j: nat) {
    j == i + |t| && j <= |s| && s[i..j] == t
  }

  lemma StandsBoth(s: string, i: nat, t: string, u: string, j: nat)
    requires Stands(s, i, t + u, j)
    ensures Stands(s, i, t, i + |t|) && Stands(s, i + |t|, u, j)
  {
    assert s[i..i + |t|] == (t + u)[..|t|];
    assert s[i + |t|..j] == (t + u)[|t|..];
  }

  /** Each character of a text that stands somewhere. */
  lemma StandsAt(s: string, i: nat, t: string, j: nat, k: nat)
    requires Stands(s, i, t, j) && k < |t|
    ensures CharAt(s, i + k) == s[i + k] == t[k]
  {
    assert s[i..j][k] == s[i + k];
  }

  // ---------- numbers ----------

  lemma Horner(v: nat, d: nat, m: nat)
    requires m == 0x1_0000_0000
    ensures (v % m * 10 + d) % m == (v * 10 + d) % m
  {
    DivMod(v, m);
    var x := v % m * 10 + d;
    DivMod(x, m);
    assert v * 10 + d == (v / m * 10 + x / m) * m + x % m;
    DivModUnique(v * 10 + d, m, v / m * 10 + x / m, x % m);
  }

  predicate AllDecimal(t: string) {
    forall k :: 0 <= k < |t| ==> IsDigit(t[k])
  }

  lemma {:induction false} NumberSoFar(s: string, i: nat, t: string, j: nat, k: nat)
    requires Stands(s, i, t, j) && AllDecimal(t) && k <= |t|
    ensures NumberAt(s, i, 0) == NumberAt(s, i + k, Value(t[..k], 10) % 0x1_0000_0000)
    ensures NumberEnd(s, i) == NumberEnd(s, i + k)
    decreases k
  {
    if k > 0 {
      NumberSoFar(s, i, t, j, k - 1);
      StandsAt(s, i, t, j, k - 1);
      assert t[..k] == t[..k - 1] + [t[k - 1]];
      ValueStep(t[..k - 1], t[k - 1], 10);
      Horner(Value(t[..k - 1], 10), DigitValue(t[k - 1]), 0x1_0000_0000);
    }
  }

  /** `_atoi` reads the decimal number that stands there, modulo 2 to the 32, and stops after it. */
  lemma NumberRead(s: string, i: nat, t: string, j: nat)
    requires Stands(s, i, t, j) && AllDecimal(t) && !IsDigit(CharAt(s, j))
    ensures NumberAt(s, i, 0) == Value(t, 10) % 0x1_0000_0000 && NumberEnd(s, i) == j
  {
    assert t[..|t|] == t;
    NumberSoFar(s, i, t, j, |t|);
    NumberStops(s, j, Value(t, 10) % 0x1_0000_0000);
  }

  lemma NumberStops(s: string, i: nat, n: u32)
    requires !IsDigit(CharAt(s, i))
    ensures NumberAt(s, i, n) == n && NumberEnd(s, i) == i
  {
  }

  /** The decimal numeral of a number. */
  function Decimal(n: u32): string {
    Numeral(n, 10, BUF, false)
  }

  lemma DecimalFits(n: u32)
    ensures n < Pow(10, BUF)
  {
    Pow32();
  }

  lemma DecimalValue(n: u32)
    ensures Value(Decimal(n), 10) == n
  {
    DecimalFits(n);
    ExactExactlyBelow(n, 10, BUF, false);
  }

  lemma DecimalDigits(n: u32)
    ensures Decimal(n) != "" && (n > 0 ==> Decimal(n)[0] != '0')
    ensures AllDecimal(Decimal(n))
  {
    NumeralDigits(n, 10, BUF, false);
    if n > 0 {
      DecimalFits(n);
      NoLeadingZero(n, 10, BUF, false);
    }
    forall j | 0 <= j < |Decimal(n)|
      ensures IsDigit(Decimal(n)[j])
    {
      assert DigitValue(Decimal(n)[j]) < 10;
    }
  }

  lemma DecimalRead(s: string, i: nat, n: u32, j: nat)
    requires Stands(s, i, Decimal(n), j) && !IsDigit(CharAt(s, j))
    ensures NumberAt(s, i, 0) == n && NumberEnd(s, i) == j && IsDigit(CharAt(s, i))
    ensures n > 0 ==> CharAt(s, i) != '0'
  {
    DecimalDigits(n);
    DecimalValue(n);
    NumberRead(s, i, Decimal(n), j);
    SmallRemainder(n, 0x1_0000_0000);
    StandsAt(s, i, Decimal(n), j, 0);
  }

  // ---------- flags ----------

  /** Flags as they stand in a directive: in any order, and any number of times. */
  type Marks = t: string | forall k :: 0 <= k < |t| ==> t[k] in {'0', '-', '+', ' ', '#'}

  function Adding(f: Flags, zeropad: bool, left: bool, plus: bool, space: bool, hash: bool): Flags {
    f.(zeropad := f.zeropad || zeropad, left := f.left || left, plus := f.plus || plus, space := f.space || space,
       hash := f.hash || hash)
  }

  function WithMarks(t: Marks, f: Flags): Flags {
    Adding(f, '0' in t, '-' in t, '+' in t, ' ' in t, '#' in t)
  }

  lemma AddingOne(c: char, f: Flags, zeropad: bool, left: bool, plus: bool, space: bool, hash: bool)
    requires c in {'0', '-', '+', ' ', '#'}
    ensures IsFlag(c)
    ensures Adding(SetFlag(c, f), zeropad, left, plus, space, hash)
            == Adding(f, zeropad || c == '0', left || c == '-', plus || c == '+', space || c == ' ', hash || c == '#')
  {
  }

  lemma InFirst(t: string, c: char)
    requires t != ""
    ensures c in t <==> c == t[0] || c in t[1..]
  {
    assert t == [t[0]] + t[1..];
  }

  lemma OneMark(t: Marks, rest: Marks, f: Flags)
    requires t != "" && rest == t[1..]
    ensures IsFlag(t[0]) && WithMarks(t, f) == WithMarks(rest, SetFlag(t[0], f))
  {
    AddingOne(t[0], f, '0' in rest, '-' in rest, '+' in rest, ' ' in rest, '#' in rest);
    InFirst(t, '0');
    InFirst(t, '-');
    InFirst(t, '+');
    InFirst(t, ' ');
    InFirst(t, '#');
  }

  lemma {:induction false} FlagsRead(s: string, i: nat, t: Marks, f: Flags, j: nat)
    requires Stands(s, i, t, j) && !IsFlag(CharAt(s, j))
    ensures FlagsAt(s, i, f) == (WithMarks(t, f), j)
    decreases |t|
  {
    if t != "" {
      StandsAt(s, i, t, j, 0);
      assert s[i + 1..j] == t[1..];
      OneMark(t, t[1..], f);
      FlagsRead(s, i + 1, t[1..], SetFlag(t[0], f), j);
    }
  }

  // ---------- whole directives ----------

  type i32 = x: int | -0x8000_0000 <= x < 0x8000_0000

  /** A width or a precision: omitted, left empty, a number in the format, or `*` with its argument. */
  datatype Count = Omitted | Bare | Number(n: u32) | Star(value: i32)

  datatype Length = Plain | H | HH | L | LL | T | J | Z

  /** A directive as a caller means it: flags, a width, a precision and one of the length modifiers. */
  datatype Meant = Meant(flags: Marks, width: Count, prec: Count, length: Length)

  function PrintCount(c: Count): string {
    match c
    case Omitted => ""
    case Bare => ""
    case Number(n) => Decimal(n)
    case Star(_) => "*"
  }

  /** A negative argument is passed as its two's complement. */
  function CountArgs(c: Count): seq<Arg> {
    if c.Star? then [Word32(if c.value < 0 then c.value + 0x1_0000_0000 else c.value)] else []
  }

  /** The number that is meant. */
  function CountOf(c: Count): Option<int> {
    match c
    case Omitted => None
    case Bare => Some(0)
    case Number(n) => Some(n)
    case Star(value) => Some(value)
  }

  /** A negative width is a width and a flag `-`. */
  function WidthOf(c: Count): u32 {
    match CountOf(c)
    case None => 0
    case Some(n) => if n < 0 then -n else n
  }

  function PrecisionOf(c: Count): u32 {
    Kept(CountOf(c))
  }

  predicate IsLeft(m: Meant) {
    '-' in m.flags || (m.width.Star? && m.width.value < 0)
  }

  function PrintLength(l: Length): string {
    match l
    case Plain => ""
    case H => "h"
    case HH => "hh"
    case L => "l"
    case LL => "ll"
    case T => "t"
    case J => "j"
    case Z => "z"
  }

  function PrintWidth(w: Count): string {
    if w == Number(0) then "" else PrintCount(w)
  }

  function PrintPrecision(p: Count): string {
    if p.Omitted? then "" else "." + PrintCount(p)
  }

  function Print(m: Meant): string {
    m.flags + (PrintWidth(m.width) + (PrintPrecision(m.prec) + PrintLength(m.length)))
  }

  /** The arguments that it takes before the one to convert. */
  function MeantArgs(m: Meant): seq<Arg> {
    CountArgs(m.width) + CountArgs(m.prec)
  }

  /** The flags of a length modifier. */
  function WithLength(f: Flags, l: Length): Flags {
    f.(short := l.H? || l.HH?, chr := l.HH?, long := l in {L, LL, T, J, Z}, longLong := l.LL?)
  }

  /** The flags that the directive sets: those that stand first, with those of its width, of its precision
      and of its length. */
  function FirstFlags(m: Meant): Flags {
    NO_FLAGS.(zeropad := '0' in m.flags, left := '-' in m.flags, plus := '+' in m.flags, space := ' ' in m.flags,
              hash := '#' in m.flags)
  }

  function WidthFlags(m: Meant): Flags {
    FirstFlags(m).(left := IsLeft(m))
  }

  function PrecisionFlags(m: Meant): Flags {
    WidthFlags(m).(precision := !m.prec.Omitted?)
  }

  function MeantFlags(m: Meant): Flags {
    WithLength(PrecisionFlags(m), m.length)
  }

  /** `some` stands in `args` from position `a` on. */
  predicate ArgsStand(args: seq<Arg>, a: nat, some: seq<Arg>) {
    a + |some| <= |args| && args[a..a + |some|] == some
  }

  lemma ArgsBoth(args: seq<Arg>, a: nat, some: seq<Arg>, more: seq<Arg>)
    requires ArgsStand(args, a, some + more)
    ensures ArgsStand(args, a, some) && ArgsStand(args, a + |some|, more)
  {
    assert args[a..a + |some|] == (some + more)[..|some|];
    assert args[a + |some|..a + |some + more|] == (some + more)[|some|..];
  }

  lemma ArgsAt(args: seq<Arg>, a: nat, arg: Arg)
    requires ArgsStand(args, a, [arg])
    ensures a < |args| && args[a] == arg
  {
    assert args[a..a + 1][0] == args[a];
  }

  /** What may follow the width, the precision and the length: where each of them ends. */
  predicate AfterWidth(c: char) { c !in {'0', '-', '+', ' ', '#', '*'} && !('0' <= c <= '9') }
  predicate AfterPrecision(c: char) { AfterWidth(c) && c != '.' }
  predicate AfterLength(c: char) { AfterPrecision(c) && c !in {'h', 'l', 't', 'j', 'z'} }

  lemma LengthRead(s: string, f: Flags, w: u32, n: u32, i: nat, a: nat, l: Length, j: nat, g: Flags)
    requires Stands(s, i, PrintLength(l), j) && AfterLength(CharAt(s, j))
    requires !f.short && !f.chr && !f.long && !f.longLong && g == WithLength(f, l)
    ensures LengthAt(s, Parsed(f, w, n, i, a)) == Parsed(g, w, n, j, a)
  {
    var t := PrintLength(l);
    if |t| >= 1 {
      StandsAt(s, i, t, j, 0);
    }
    if |t| == 2 {
      StandsAt(s, i, t, j, 1);
    }
  }

  lemma PrecisionNumber(s: string, f: Flags, w: u32, i: nat, a: nat, n: u32, args: seq<Arg>, j: nat)
    requires Stands(s, i, "." + Decimal(n), j) && !IsDigit(CharAt(s, j))
    ensures PrecisionAt(s, Parsed(f, w, 0, i, a), args) == Some(Parsed(f.(precision := true), w, n, j, a))
  {
    StandsBoth(s, i, ".", Decimal(n), j);
    StandsAt(s, i, ".", i + 1, 0);
    DecimalRead(s, i + 1, n, j);
  }

  lemma PrecisionStar(s: string, f: Flags, w: u32, i: nat, a: nat, n: Count, args: seq<Arg>, j: nat)
    requires Stands(s, i, ".*", j) && n.Star? && ArgsStand(args, a, CountArgs(n))
    ensures PrecisionAt(s, Parsed(f, w, 0, i, a), args)
            == Some(Parsed(f.(precision := true), w, PrecisionOf(n), j, a + 1))
  {
    StandsAt(s, i, ".*", j, 0);
    StandsAt(s, i, ".*", j, 1);
    ArgsAt(args, a, CountArgs(n)[0]);
  }

  lemma PrecisionBare(s: string, f: Flags, w: u32, i: nat, a: nat, args: seq<Arg>, j: nat)
    requires Stands(s, i, ".", j) && AfterPrecision(CharAt(s, j))
    ensures PrecisionAt(s, Parsed(f, w, 0, i, a), args) == Some(Parsed(f.(precision := true), w, 0, j, a))
  {
    StandsAt(s, i, ".", j, 0);
  }

  lemma PrecisionRead(s: string, f: Flags, w: u32, i: nat, a: nat, n: Count, args: seq<Arg>, j: nat, g: Flags, b: nat)
    requires Stands(s, i, PrintPrecision(n), j) && AfterPrecision(CharAt(s, j)) && ArgsStand(args, a, CountArgs(n))
    requires g == (if n.Omitted? then f else f.(precision := true)) && b == a + |CountArgs(n)|
    ensures PrecisionAt(s, Parsed(f, w, 0, i, a), args) == Some(Parsed(g, w, PrecisionOf(n), j, b))
  {
    match n
    case Omitted =>
    case Bare =>
      assert "." + "" == ".";
      PrecisionBare(s, f, w, i, a, args, j);
    case Number(k) => PrecisionNumber(s, f, w, i, a, k, args, j);
    case Star(_) =>
      assert "." + "*" == ".*";
      PrecisionStar(s, f, w, i, a, n, args, j);
  }

  lemma WidthRead(s: string, f: Flags, i: nat, a: nat, w: Count, args: seq<Arg>, j: nat, g: Flags, b: nat)
    requires Stands(s, i, PrintWidth(w), j) && AfterWidth(CharAt(s, j)) && ArgsStand(args, a, CountArgs(w))
    requires g == (if w.Star? && w.value < 0 then f.(left := true) else f) && b == a + |CountArgs(w)|
    ensures WidthAt(s, Parsed(f, 0, 0, i, a), args) == Some(Parsed(g, WidthOf(w), 0, j, b))
  {
    if w.Star? {
      StandsAt(s, i, "*", j, 0);
      ArgsAt(args, a, CountArgs(w)[0]);
    } else if w.Number? && w.n > 0 {
      DecimalRead(s, i, w.n, j);
    }
  }

  lemma WidthStarts(s: string, w: Count, i: nat, j: nat)
    requires Stands(s, i, PrintWidth(w), j) && AfterWidth(CharAt(s, j))
    ensures !IsFlag(CharAt(s, i))
  {
    if w.Star? {
      StandsAt(s, i, "*", j, 0);
    } else if w.Number? && w.n > 0 {
      DecimalRead(s, i, w.n, j);
    }
  }

  lemma PrecisionStarts(s: string, n: Count, i: nat, j: nat)
    requires Stands(s, i, PrintPrecision(n), j) && AfterPrecision(CharAt(s, j))
    ensures AfterWidth(CharAt(s, i))
  {
    if !n.Omitted? {
      StandsAt(s, i, "." + PrintCount(n), j, 0);
    }
  }

  lemma LengthStarts(s: string, l: Length, i: nat, j: nat)
    requires Stands(s, i, PrintLength(l), j) && AfterLength(CharAt(s, j))
    ensures AfterPrecision(CharAt(s, i))
  {
    if PrintLength(l) != "" {
      StandsAt(s, i, PrintLength(l), j, 0);
    }
  }

  /** The parts of a directive stand one after the other. */
  predicate PartsStand(s: string, i: nat, m: Meant, j1: nat, j2: nat, j3: nat, j: nat) {
    && Stands(s, i, m.flags, j1) && Stands(s, j1, PrintWidth(m.width), j2)
    && Stands(s, j2, PrintPrecision(m.prec), j3) && Stands(s, j3, PrintLength(m.length), j)
    && AfterLength(CharAt(s, j))
  }

  lemma FourStand(s: string, i: nat, t1: string, t2: string, t3: string, t4: string, j: nat)
    returns (j1: nat, j2: nat, j3: nat)
    requires Stands(s, i, t1 + (t2 + (t3 + t4)), j)
    ensures Stands(s, i, t1, j1) && Stands(s, j1, t2, j2) && Stands(s, j2, t3, j3) && Stands(s, j3, t4, j)
  {
    j1 := i + |t1|;
    j2 := j1 + |t2|;
    j3 := j2 + |t3|;
    StandsBoth(s, i, t1, t2 + (t3 + t4), j);
    StandsBoth(s, j1, t2, t3 + t4, j);
    StandsBoth(s, j2, t3, t4, j);
  }

  lemma Parts(s: string, i: nat, m: Meant, j: nat) returns (j1: nat, j2: nat, j3: nat)
    requires Stands(s, i, Print(m), j) && AfterLength(CharAt(s, j))
    ensures PartsStand(s, i, m, j1, j2, j3, j)
  {
    j1, j2, j3 :=
      FourStand(s, i, m.flags, PrintWidth(m.width), PrintPrecision(m.prec), PrintLength(m.length), j);
  }

  /** Each part ends where the next one starts. */
  lemma PartsEnd(s: string, i: nat, m: Meant, j1: nat, j2: nat, j3: nat, j: nat)
    requires PartsStand(s, i, m, j1, j2, j3, j)
    ensures !IsFlag(CharAt(s, j1)) && AfterWidth(CharAt(s, j2)) && AfterPrecision(CharAt(s, j3))
  {
    LengthStarts(s, m.length, j3, j);
    PrecisionStarts(s, m.prec, j2, j3);
    WidthStarts(s, m.width, j1, j2);
  }

  lemma FlagsStep(s: string, i: nat, m: Meant, j1: nat, j2: nat, j3: nat, j: nat)
    requires PartsStand(s, i, m, j1, j2, j3, j)
    ensures FlagsAt(s, i, NO_FLAGS) == (FirstFlags(m), j1)
  {
    PartsEnd(s, i, m, j1, j2, j3, j);
    FlagsRead(s, i, m.flags, NO_FLAGS, j1);
  }

  lemma ParseSteps(s: string, i: nat, args: seq<Arg>, a: nat, f: Flags, j: nat, p: Parsed, q: Parsed)
    requires FlagsAt(s, i, NO_FLAGS) == (f, j) && WidthAt(s, Parsed(f, 0, 0, j, a), args) == Some(p)
    requires PrecisionAt(s, p, args) == Some(q)
    ensures Parse(s, i, args, a) == Some(LengthAt(s, q))
  {
  }

  lemma PartsParse(s: string, i: nat, m: Meant, j1: nat, j2: nat, j3: nat, j: nat, args: seq<Arg>, a: nat, b: nat,
                   c: nat, w: u32, n: u32, f0: Flags, f1: Flags, f2: Flags, f3: Flags)
    requires PartsStand(s, i, m, j1, j2, j3, j) && FlagsAt(s, i, NO_FLAGS) == (f0, j1)
    requires ArgsStand(args, a, CountArgs(m.width)) && ArgsStand(args, b, CountArgs(m.prec))
    requires b == a + |CountArgs(m.width)| && c == b + |CountArgs(m.prec)| && w == WidthOf(m.width)
    requires n == PrecisionOf(m.prec)
    requires f1 == (if m.width.Star? && m.width.value < 0 then f0.(left := true) else f0)
    requires f2 == (if m.prec.Omitted? then f1 else f1.(precision := true))
    requires !f2.short && !f2.chr && !f2.long && !f2.longLong && f3 == WithLength(f2, m.length)
    ensures Parse(s, i, args, a) == Some(Parsed(f3, w, n, j, c))
  {
    PartsEnd(s, i, m, j1, j2, j3, j);
    WidthRead(s, f0, j1, a, m.width, args, j2, f1, b);
    PrecisionRead(s, f1, w, j2, b, m.prec, args, j3, f2, c);
    LengthRead(s, f2, w, n, j3, c, m.length, j, f3);
    ParseSteps(s, i, args, a, f0, j1, Parsed(f1, w, 0, j2, b), Parsed(f2, w, n, j3, c));
  }

  lemma FlagsAdd(m: Meant)
    ensures WidthFlags(m) == if m.width.Star? && m.width.value < 0 then FirstFlags(m).(left := true) else FirstFlags(m)
    ensures PrecisionFlags(m) == if m.prec.Omitted? then WidthFlags(m) else WidthFlags(m).(precision := true)
    ensures MeantFlags(m) == WithLength(PrecisionFlags(m), m.length)
    ensures var f := PrecisionFlags(m); !f.short && !f.chr && !f.long && !f.longLong
  {
  }

  /** The directive as the parser leaves it, before position `j` and argument `a`. */
  function ParsedOf(m: Meant, j: nat, a: nat): Parsed {
    Parsed(MeantFlags(m), WidthOf(m.width), PrecisionOf(m.prec), j, a)
  }

  /** Printing a directive and parsing it gives back its flags, width and precision, stops at the
      specifier and takes the arguments of its `*`, whatever stands before and after it. */
  lemma ParseUndoesPrint(s: string, i: nat, m: Meant, args: seq<Arg>, a: nat, j: nat, b: nat)
    requires Stands(s, i, Print(m), j) && AfterLength(CharAt(s, j)) && ArgsStand(args, a, MeantArgs(m))
    requires b == a + |MeantArgs(m)|
    ensures Parse(s, i, args, a) == Some(ParsedOf(m, j, b))
  {
    ArgsBoth(args, a, CountArgs(m.width), CountArgs(m.prec));
    var j1, j2, j3 := Parts(s, i, m, j);
    FlagsStep(s, i, m, j1, j2, j3, j);
    FlagsAdd(m);
    PartsParse(s, i, m, j1, j2, j3, j, args, a, a + |CountArgs(m.width)|, b, WidthOf(m.width), PrecisionOf(m.prec),
               FirstFlags(m), WidthFlags(m), PrecisionFlags(m), MeantFlags(m));
  }
}
