/** From literal text, directives and arguments to a text, and for numbers back again: through the parser,
    the conversions and a reader. */
module RoundTrip {
  import opened Arguments
  import opened C11
  import opened Directives
  import opened Fields
  import opened FieldLaws
  import opened Formats
  import opened Parsing

  // ---------- the formats that are well formed ----------

  /** A piece of a format: text without `%` and NUL, a directive with its argument, or one with a letter that
      stands for no conversion. */
  datatype Item =
    | Literal(text: string)
    | Field(m: Meant, c: char, arg: Arg)
    | Letter(m: Meant, c: char)

  predicate Converts(c: char) {
    c in {'d', 'i', 'u', 'x', 'X', 'o', 'b', 'c', 's', 'p'}
  }

  /** The format of one directive, and all its arguments. */
  function Alone(m: Meant, c: char): string {
    "%" + (Print(m) + [c])
  }

  function AllArgs(m: Meant, arg: Arg): seq<Arg> {
    MeantArgs(m) + [arg]
  }

  predicate ItemOk(item: Item) {
    match item
    case Literal(t) => forall k :: 0 <= k < |t| ==> t[k] != '%' && t[k] != '\0'
    case Field(m, c, arg) => Converts(c) && Convert([c], ParsedOf(m, 0, 0), [arg]).Some?
    case Letter(_, c) => !Converts(c) && AfterLength(c) && c != '\0'
  }

  function PrintItem(item: Item): string {
    match item
    case Literal(t) => t
    case Field(m, c, _) => Alone(m, c)
    case Letter(m, c) => Alone(m, c)
  }

  /** The text that an item stands for: itself, the field of its conversion, or its letter. */
  function ItemText(item: Item): string
    requires ItemOk(item)
  {
    match item
    case Literal(t) => t
    case Field(m, c, arg) => Convert([c], ParsedOf(m, 0, 0), [arg]).value.text
    case Letter(_, c) => [c]
  }

  function ItemArgs(item: Item): seq<Arg> {
    match item
    case Literal(_) => []
    case Field(m, _, arg) => AllArgs(m, arg)
    case Letter(m, _) => MeantArgs(m)
  }

  function PrintAll(items: seq<Item>): string {
    if items == [] then "" else PrintItem(items[0]) + PrintAll(items[1..])
  }

  function ArgsOf(items: seq<Item>): seq<Arg> {
    if items == [] then [] else ItemArgs(items[0]) + ArgsOf(items[1..])
  }

  function TextOf(items: seq<Item>): string
    requires forall item <- items :: ItemOk(item)
  {
    if items == [] then "" else ItemText(items[0]) + TextOf(items[1..])
  }

  /** Text without `%` prints itself. */
  lemma {:induction false} LiteralPrints(s: string, i: nat, t: string, j: nat, args: seq<Arg>, a: nat)
    requires Stands(s, i, t, j) && forall k :: 0 <= k < |t| ==> t[k] != '%' && t[k] != '\0'
    ensures Render(s, i, args, a) == Then(t, Render(s, j, args, a))
    decreases |t|
  {
    if t == "" {
      assert Render(s, i, args, a).Some? ==> "" + Render(s, i, args, a).value == Render(s, i, args, a).value;
    } else {
      StandsAt(s, i, t, j, 0);
      assert s[i + 1..j] == t[1..];
      LiteralPrints(s, i + 1, t[1..], j, args, a);
      assert Next(s, i, args, a) == Some(Piece([t[0]], i + 1, a));
      JoinThen([t[0]], t[1..], Render(s, j, args, a));
      assert [t[0]] + t[1..] == t;
    }
  }

  lemma JoinThen(t: string, u: string, rest: Option<string>)
    ensures Then(t, Then(u, rest)) == Then(t + u, rest)
  {
    if rest.Some? {
      assert t + (u + rest.value) == t + u + rest.value;
    }
  }

  lemma IntArgAlike(c: char, f: Flags, args: seq<Arg>, a: nat, arg: Arg)
    requires a < |args| && args[a] == arg
    ensures IntArg(c, f, args, a) == IntArg(c, f, [arg], 0)
  {
  }

  lemma IntConverts(s: string, p: Parsed, args: seq<Arg>, c: char, x: int, t: string, j: nat, b: nat)
    requires CharAt(s, p.pos) == c && IsIntSpec(c) && IntArg(c, p.flags, args, p.arg) == Some(x)
    requires t == IntField(Magnitude(x), x < 0, BaseOf(c), p.prec, p.width, IntFlags(c, p.flags))
    requires j == p.pos + 1 && b == p.arg + 1
    ensures Convert(s, p, args) == Some(Piece(t, j, b))
  {
  }

  lemma IntConvertsOnly(s: string, p: Parsed, args: seq<Arg>, c: char)
    requires CharAt(s, p.pos) == c && IsIntSpec(c)
    ensures Convert(s, p, args).Some? <==> IntArg(c, p.flags, args, p.arg).Some?
  {
  }

  lemma IntConvertsAlike(s: string, p: Parsed, args: seq<Arg>, c: char, q: Parsed, arg: Arg, t: string, j: nat, b: nat)
    requires CharAt(s, p.pos) == c && p.arg < |args| && args[p.arg] == arg && IsIntSpec(c)
    requires q == Parsed(p.flags, p.width, p.prec, 0, 0) && Convert([c], q, [arg]) == Some(Piece(t, 1, 1))
    requires j == p.pos + 1 && b == p.arg + 1
    ensures Convert(s, p, args) == Some(Piece(t, j, b))
  {
    assert IntArg(c, p.flags, [arg], 0).Some? by { IntConvertsOnly([c], q, [arg], c); }
    var x := IntArg(c, p.flags, [arg], 0).value;
    var u := IntField(Magnitude(x), x < 0, BaseOf(c), p.prec, p.width, IntFlags(c, p.flags));
    IntConverts([c], q, [arg], c, x, u, 1, 1);
    IntArgAlike(c, p.flags, args, p.arg, arg);
    IntConverts(s, p, args, c, x, u, j, b);
  }

  lemma OthersConvertAlike(s: string, p: Parsed, args: seq<Arg>, c: char, q: Parsed, arg: Arg, t: string, j: nat,
                           b: nat)
    requires CharAt(s, p.pos) == c && p.arg < |args| && args[p.arg] == arg && c in {'c', 's', 'p'}
    requires q == Parsed(p.flags, p.width, p.prec, 0, 0) && Convert([c], q, [arg]) == Some(Piece(t, 1, 1))
    requires j == p.pos + 1 && b == p.arg + 1
    ensures Convert(s, p, args) == Some(Piece(t, j, b))
  {
  }

  /** A conversion looks at its specifier and its argument, and at nothing else. */
  lemma ConvertsAlike(s: string, p: Parsed, args: seq<Arg>, c: char, q: Parsed, arg: Arg, t: string, j: nat, b: nat)
    requires CharAt(s, p.pos) == c && p.arg < |args| && args[p.arg] == arg && Converts(c)
    requires q == Parsed(p.flags, p.width, p.prec, 0, 0) && Convert([c], q, [arg]) == Some(Piece(t, 1, 1))
    requires j == p.pos + 1 && b == p.arg + 1
    ensures Convert(s, p, args) == Some(Piece(t, j, b))
  {
    if IsIntSpec(c) {
      IntConvertsAlike(s, p, args, c, q, arg, t, j, b);
    } else {
      OthersConvertAlike(s, p, args, c, q, arg, t, j, b);
    }
  }

  lemma ConvertsOne(p: Parsed, c: char, arg: Arg)
    requires Converts(c) && p.pos == 0 && p.arg == 0 && Convert([c], p, [arg]).Some?
    ensures Convert([c], p, [arg]) == Some(Piece(Convert([c], p, [arg]).value.text, 1, 1))
  {
  }

  /** The parts of a directive that stands in the format. */
  lemma DirectiveParts(s: string, i: nat, t: string, c: char, j: nat)
    requires Stands(s, i, "%" + (t + [c]), j)
    ensures i + 1 < j && i < |s| && s[i] == '%' && Stands(s, i + 1, t, j - 1) && CharAt(s, j - 1) == c
  {
    StandsBoth(s, i, "%", t + [c], j);
    StandsAt(s, i, "%", i + 1, 0);
    StandsBoth(s, i + 1, t, [c], j);
    StandsAt(s, j - 1, [c], j, 0);
  }

  lemma ParsedAlike(m: Meant, j: nat, b: nat, p: Parsed, q: Parsed)
    requires p == ParsedOf(m, j, b) && q == ParsedOf(m, 0, 0)
    ensures q == Parsed(p.flags, p.width, p.prec, 0, 0) && p.pos == j && p.arg == b
  {
  }

  /** What the parser makes of it: `q`, but for its place in the format and among the arguments. */
  lemma DirectiveStands(s: string, i: nat, m: Meant, c: char, j: nat, args: seq<Arg>, a: nat, b: nat, q: Parsed)
    returns (p: Parsed)
    requires Stands(s, i, Alone(m, c), j) && AfterLength(c) && ArgsStand(args, a, MeantArgs(m))
    requires b == a + |MeantArgs(m)| && q == ParsedOf(m, 0, 0)
    ensures i < |s| && s[i] == '%' && j == p.pos + 1 && CharAt(s, p.pos) == c && p.arg == b
    ensures Parse(s, i + 1, args, a) == Some(p) && q == Parsed(p.flags, p.width, p.prec, 0, 0)
  {
    DirectiveParts(s, i, Print(m), c, j);
    ParseUndoesPrint(s, i + 1, m, args, a, j - 1, b);
    p := ParsedOf(m, j - 1, b);
    ParsedAlike(m, j - 1, b, p, q);
  }

  /** One turn of the rendering. */
  lemma NextPrints(s: string, i: nat, args: seq<Arg>, a: nat, t: string, j: nat, b: nat)
    requires CharAt(s, i) != '\0' && Next(s, i, args, a) == Some(Piece(t, j, b))
    ensures Render(s, i, args, a) == Then(t, Render(s, j, args, b))
  {
  }

  /** One turn that is a directive, parsed as `p`. */
  lemma DirectiveRenders(s: string, i: nat, args: seq<Arg>, a: nat, p: Parsed, t: string, j: nat, b: nat)
    requires i < |s| && s[i] == '%' && Parse(s, i + 1, args, a) == Some(p)
    requires Convert(s, p, args) == Some(Piece(t, j, b))
    ensures Render(s, i, args, a) == Then(t, Render(s, j, args, b))
  {
    NextPrints(s, i, args, a, t, j, b);
  }

  lemma LetterConverts(s: string, p: Parsed, args: seq<Arg>, c: char, j: nat, b: nat)
    requires CharAt(s, p.pos) == c && !Converts(c) && c != '\0' && j == p.pos + 1 && b == p.arg
    ensures Convert(s, p, args) == Some(Piece([c], j, b))
  {
  }

  lemma FieldArgs(args: seq<Arg>, a: nat, some: seq<Arg>, arg: Arg, b: nat)
    requires ArgsStand(args, a, some + [arg]) && b == a + |some|
    ensures ArgsStand(args, a, some) && b < |args| && args[b] == arg
  {
    ArgsBoth(args, a, some, [arg]);
    ArgsAt(args, b, arg);
  }

  lemma FieldItemPrints(s: string, i: nat, m: Meant, c: char, arg: Arg, j: nat, args: seq<Arg>, a: nat, q: Parsed,
                        t: string, b0: nat, b: nat)
    requires Converts(c) && q == ParsedOf(m, 0, 0) && Convert([c], q, [arg]) == Some(Piece(t, 1, 1))
    requires Stands(s, i, Alone(m, c), j) && ArgsStand(args, a, AllArgs(m, arg))
    requires b0 == a + |MeantArgs(m)| && b == b0 + 1
    ensures Render(s, i, args, a) == Then(t, Render(s, j, args, b))
  {
    FieldArgs(args, a, MeantArgs(m), arg, b0);
    var p := DirectiveStands(s, i, m, c, j, args, a, b0, q);
    ConvertsAlike(s, p, args, c, q, arg, t, j, b);
    DirectiveRenders(s, i, args, a, p, t, j, b);
  }

  lemma LetterPrints(s: string, i: nat, args: seq<Arg>, a: nat, p: Parsed, c: char, j: nat, b: nat)
    requires i < |s| && s[i] == '%' && Parse(s, i + 1, args, a) == Some(p)
    requires CharAt(s, p.pos) == c && !Converts(c) && c != '\0' && j == p.pos + 1 && b == p.arg
    ensures Render(s, i, args, a) == Then([c], Render(s, j, args, b))
  {
    LetterConverts(s, p, args, c, j, b);
    DirectiveRenders(s, i, args, a, p, [c], j, b);
  }

  lemma LetterItemPrints(s: string, i: nat, m: Meant, c: char, j: nat, args: seq<Arg>, a: nat, b: nat)
    requires Stands(s, i, Alone(m, c), j) && ArgsStand(args, a, MeantArgs(m)) && b == a + |MeantArgs(m)|
    requires !Converts(c) && AfterLength(c) && c != '\0'
    ensures Render(s, i, args, a) == Then([c], Render(s, j, args, b))
  {
    var p := DirectiveStands(s, i, m, c, j, args, a, b, ParsedOf(m, 0, 0));
    LetterPrints(s, i, args, a, p, c, j, b);
  }

  /** One item, whatever follows it. */
  lemma ItemPrints(s: string, i: nat, item: Item, j: nat, args: seq<Arg>, a: nat, t: string, b: nat)
    requires ItemOk(item) && Stands(s, i, PrintItem(item), j) && ArgsStand(args, a, ItemArgs(item))
    requires t == ItemText(item) && b == a + |ItemArgs(item)|
    ensures Render(s, i, args, a) == Then(t, Render(s, j, args, b))
  {
    match item
    case Literal(_) => LiteralPrints(s, i, t, j, args, a);
    case Field(m, c, arg) =>
      ConvertsOne(ParsedOf(m, 0, 0), c, arg);
      FieldItemPrints(s, i, m, c, arg, j, args, a, ParsedOf(m, 0, 0), t, a + |MeantArgs(m)|, b);
    case Letter(m, c) => LetterItemPrints(s, i, m, c, j, args, a, b);
  }

  /** The first of several items, and where the others stand. */
  lemma FirstStands(s: string, i: nat, t: string, u: string, j: nat, end: nat)
    requires Stands(s, i, t + u, end) && j == i + |t|
    ensures Stands(s, i, t, j) && Stands(s, j, u, end)
  {
    StandsBoth(s, i, t, u, end);
  }

  lemma FirstArgs(args: seq<Arg>, a: nat, one: seq<Arg>, rest: seq<Arg>, b: nat)
    requires a <= |args| && args[a..] == one + rest && b == a + |one|
    ensures b <= |args| && args[b..] == rest && ArgsStand(args, a, one)
  {
    assert args[b..] == args[a..][|one|..];
    assert args[a..b] == args[a..][..|one|];
  }

  lemma {:induction false} ItemsPrint(s: string, i: nat, items: seq<Item>, args: seq<Arg>, a: nat, end: nat)
    requires (forall item <- items :: ItemOk(item)) && Stands(s, i, PrintAll(items), end) && CharAt(s, end) == '\0'
    requires a <= |args| && args[a..] == ArgsOf(items)
    ensures Render(s, i, args, a) == Some(TextOf(items))
    decreases |items|
  {
    if items != [] {
      var item := items[0];
      var j, b := i + |PrintItem(item)|, a + |ItemArgs(item)|;
      FirstStands(s, i, PrintItem(item), PrintAll(items[1..]), j, end);
      FirstArgs(args, a, ItemArgs(item), ArgsOf(items[1..]), b);
      ItemPrints(s, i, item, j, args, a, ItemText(item), b);
      ItemsPrint(s, j, items[1..], args, b, end);
    }
  }

  /** Every format that is a list of such items, with the arguments they ask for, is well formed, and prints
      the texts of its items one after the other; `rest` is what follows the terminator. */
  lemma FormatPrints(items: seq<Item>, rest: string)
    requires (forall item <- items :: ItemOk(item)) && (rest != "" ==> rest[0] == '\0')
    ensures Render(PrintAll(items) + rest, 0, ArgsOf(items), 0) == Some(TextOf(items))
  {
    var s, end := PrintAll(items) + rest, |PrintAll(items)|;
    assert s[0..end] == PrintAll(items);
    assert end < |s| ==> s[end] == rest[0];
    ItemsPrint(s, 0, items, ArgsOf(items), 0, end);
  }

  // ---------- numbers ----------

  /** A format of one directive prints its field. */
  lemma DirectivePrints(m: Meant, c: char, arg: Arg)
    requires ItemOk(Field(m, c, arg))
    ensures Render(Alone(m, c), 0, AllArgs(m, arg), 0) == Some(Convert([c], ParsedOf(m, 0, 0), [arg]).value.text)
  {
    var item := Field(m, c, arg);
    assert PrintAll([item]) == PrintItem(item) + "" == PrintItem(item);
    assert ArgsOf([item]) == ItemArgs(item) + [] == ItemArgs(item);
    assert TextOf([item]) == ItemText(item) + "" == ItemText(item);
    assert PrintAll([item]) + "" == PrintAll([item]);
    FormatPrints([item], "");
  }

  /** The size of the number that an argument carries for a length modifier. */
  function SizeFor(l: Length): nat {
    match l
    case Plain => 32
    case H => 16
    case HH => 8
    case _ => 64
  }

  /** An integer directive and the number in its argument; `%hhd` is left out. */
  predicate Passes(m: Meant, c: char, arg: Arg, x: int) {
    && Integer11(c) && !(Signed11(c) && m.length.HH?)
    && Carries(arg, Signed11(c), SizeFor(m.length), x)
  }

  lemma PassedIs(m: Meant, c: char, arg: Arg, x: int)
    requires Passes(m, c, arg, x)
    ensures IsIntSpec(c) && IntArg(c, MeantFlags(m), [arg], 0) == Some(x)
    ensures BaseOf(c) == Base11(c) && (IsSignedSpec(c) <==> Signed11(c)) && Magnitude(x) == if x < 0 then -x else x
    ensures if Signed11(c) then -0x8000_0000_0000_0000 <= x < 0x8000_0000_0000_0000
            else 0 <= x < 0x1_0000_0000_0000_0000
  {
    assert SizeOf(MeantFlags(m)) == SizeFor(m.length);
    ArgumentMeans(c, MeantFlags(m), [arg], 0, x);
  }

  /** The text of an integer conversion, and that the format is well formed. */
  lemma NumberPrints(m: Meant, c: char, arg: Arg, x: int)
    requires IsIntSpec(c) && IntArg(c, MeantFlags(m), [arg], 0) == Some(x)
    ensures Render(Alone(m, c), 0, AllArgs(m, arg), 0)
            == Some(IntField(Magnitude(x), x < 0, BaseOf(c), PrecisionOf(m.prec), WidthOf(m.width),
                             IntFlags(c, MeantFlags(m))))
  {
    DirectivePrints(m, c, arg);
  }

  /** Printing any number with any integer directive for it, flags, width, precision and length modifier,
      and reading the text back in its base gives the number: for the signed conversions if and only if
      the sign finds room, for base 2 if and only if the number is below 2 to the 32, and for the others
      always. (With `#` see HashLaws.) */
  lemma NumberSurvives(m: Meant, c: char, arg: Arg, x: int)
    requires Passes(m, c, arg, x) && ('#' in m.flags ==> Base11(c) == 10)
    ensures var text := Render(Alone(m, c), 0, AllArgs(m, arg), 0);
            text.Some? &&
            (ReadInt(text.value, Base11(c)) == (x < 0, if x < 0 then -x else x)
             <==>
             if Signed11(c) then
               x >= 0 || IsLeft(m) ||
               if m.prec.Omitted? then '0' in m.flags ==> WidthOf(m.width) <= 32 else PrecisionOf(m.prec) <= 31
             else c == 'b' ==> x < 0x1_0000_0000)
  {
    var f := IntFlags(c, MeantFlags(m));
    PassedIs(m, c, arg, x);
    NumberPrints(m, c, arg, x);
    if Signed11(c) {
      SignedReads(x, PrecisionOf(m.prec), WidthOf(m.width), f);
    } else if c == 'b' {
      BinaryReads(x, PrecisionOf(m.prec), WidthOf(m.width), f);
    } else {
      UnsignedReads(x, BaseOf(c), PrecisionOf(m.prec), WidthOf(m.width), f);
    }
  }
}
