/** What a format string prints: the unbounded text, of which the sinks keep what they can. */
module Formats {
  import opened Bits
  import opened Directives
  import opened Fields

  type u32 = x: int | 0 <= x < 0x1_0000_0000

  /** An argument, as the words or the characters that `va_arg` finds. */
  datatype Arg = Word32(bits32: u32) | Word64(bits64: u64) | Text(chars: string)

  /** Reading a C string: its terminator follows its characters. */
  function CharAt(s: string, i: nat): char {
    if i < |s| then s[i] else '\0'
  }

  predicate IsDigit(c: char) { '0' <= c <= '9' }

  function Signed32(w: u32): int {
    if w < 0x8000_0000 then w else w - 0x1_0000_0000
  }

  function Signed64(w: u64): int {
    if w < 0x8000_0000_0000_0000 then w else w - 0x1_0000_0000_0000_0000
  }

  function Signed16(w: nat): int {
    if w % 0x1_0000 < 0x8000 then w % 0x1_0000 else w % 0x1_0000 - 0x1_0000
  }

  // ---------- the parts of a directive ----------

  function SetFlag(c: char, f: Flags): Flags {
    if c == '0' then f.(zeropad := true)
    else if c == '-' then f.(left := true)
    else if c == '+' then f.(plus := true)
    else if c == ' ' then f.(space := true)
    else if c == '#' then f.(hash := true)
    else f
  }

  predicate IsFlag(c: char) {
    c == '0' || c == '-' || c == '+' || c == ' ' || c == '#'
  }

  /** The flags from position `i` on, and where they end. */
  function FlagsAt(s: string, i: nat, f: Flags): (r: (Flags, nat))
    ensures i <= r.1
    decreases |s| - i
  {
    if i < |s| && IsFlag(s[i]) then FlagsAt(s, i + 1, SetFlag(s[i], f)) else (f, i)
  }

  /** The unsigned int that the digits from position `i` on add up to, after `n`, with its wrap. */
  function NumberAt(s: string, i: nat, n: u32): u32
    decreases |s| - i
  {
    if i < |s| && IsDigit(s[i]) then NumberAt(s, i + 1, (n * 10 + (s[i] as int - '0' as int)) % 0x1_0000_0000) else n
  }

  function NumberEnd(s: string, i: nat): (r: nat)
    ensures i <= r
    decreases |s| - i
  {
    if i < |s| && IsDigit(s[i]) then NumberEnd(s, i + 1) else i
  }

  /** A directive read so far: its flags, width and precision, and the next character and argument. */
  datatype Parsed = Parsed(flags: Flags, width: u32, prec: u32, pos: nat, arg: nat)

  predicate IsInt(args: seq<Arg>, a: nat) {
    a < |args| && args[a].Word32?
  }

  function WidthAt(s: string, p: Parsed, args: seq<Arg>): Option<Parsed> {
    if IsDigit(CharAt(s, p.pos)) then
      Some(p.(width := NumberAt(s, p.pos, 0), pos := NumberEnd(s, p.pos)))
    else if CharAt(s, p.pos) == '*' then
      if !IsInt(args, p.arg) then None
      else
        var w := Signed32(args[p.arg].bits32);
        if w < 0 then Some(p.(flags := p.flags.(left := true), width := -w, pos := p.pos + 1, arg := p.arg + 1))
        else Some(p.(width := w, pos := p.pos + 1, arg := p.arg + 1))
    else Some(p)
  }

  function PrecisionAt(s: string, p: Parsed, args: seq<Arg>): Option<Parsed> {
    if CharAt(s, p.pos) != '.' then Some(p)
    else
      var q := p.(flags := p.flags.(precision := true), pos := p.pos + 1);
      if IsDigit(CharAt(s, q.pos)) then
        Some(q.(prec := NumberAt(s, q.pos, 0), pos := NumberEnd(s, q.pos)))
      else if CharAt(s, q.pos) == '*' then
        if !IsInt(args, q.arg) then None
        else
          var n := Signed32(args[q.arg].bits32);
          Some(q.(prec := if n > 0 then n else 0, pos := q.pos + 1, arg := q.arg + 1))
      else Some(q)
  }

  /** On this target `long`, `long long`, `ptrdiff_t`, `intmax_t` and `size_t` all have 64 bits. */
  function LengthAt(s: string, p: Parsed): Parsed {
    var c, d := CharAt(s, p.pos), CharAt(s, p.pos + 1);
    if c == 'l' && d == 'l' then p.(flags := p.flags.(long := true, longLong := true), pos := p.pos + 2)
    else if c == 'l' then p.(flags := p.flags.(long := true), pos := p.pos + 1)
    else if c == 'h' && d == 'h' then p.(flags := p.flags.(short := true, chr := true), pos := p.pos + 2)
    else if c == 'h' then p.(flags := p.flags.(short := true), pos := p.pos + 1)
    else if c == 't' || c == 'j' || c == 'z' then p.(flags := p.flags.(long := true), pos := p.pos + 1)
    else p
  }

  /** The directive whose `%` stands before position `i`, up to its specifier. */
  function Parse(s: string, i: nat, args: seq<Arg>, a: nat): (r: Option<Parsed>)
    ensures r.Some? ==> i <= r.value.pos
  {
    var (f, j) := FlagsAt(s, i, NO_FLAGS);
    match WidthAt(s, Parsed(f, 0, 0, j, a), args)
    case None => None
    case Some(p) =>
      match PrecisionAt(s, p, args)
      case None => None
      case Some(q) => Some(LengthAt(s, q))
  }

  // ---------- the conversions ----------

  predicate IsIntSpec(c: char) {
    c == 'd' || c == 'i' || c == 'u' || c == 'x' || c == 'X' || c == 'o' || c == 'b'
  }

  function BaseOf(c: char): nat {
    if c == 'x' || c == 'X' then 16 else if c == 'o' then 8 else if c == 'b' then 2 else 10
  }

  predicate IsSignedSpec(c: char) { c == 'd' || c == 'i' }

  /** The flags that an integer conversion goes by. */
  function IntFlags(c: char, f: Flags): Flags {
    f.(hash := f.hash && BaseOf(c) != 10,
       upper := f.upper || c == 'X',
       plus := f.plus && IsSignedSpec(c),
       space := f.space && IsSignedSpec(c),
       zeropad := f.zeropad && !f.precision)
  }

  /** The number that an integer conversion prints; `%hhd` depends on the sign of plain `char`. */
  function IntArg(c: char, f: Flags, args: seq<Arg>, a: nat): Option<int> {
    if a >= |args| then None
    else if f.longLong || f.long then
      if args[a].Word64? then Some(if IsSignedSpec(c) then Signed64(args[a].bits64) else args[a].bits64) else None
    else if !args[a].Word32? then None
    else if f.chr then if IsSignedSpec(c) then None else Some(args[a].bits32 % 0x100)
    else if f.short then Some(if IsSignedSpec(c) then Signed16(args[a].bits32) else args[a].bits32 % 0x1_0000)
    else Some(if IsSignedSpec(c) then Signed32(args[a].bits32) else args[a].bits32)
  }

  /** The text of one directive, and the next character and argument. */
  datatype Piece = Piece(text: string, pos: nat, arg: nat)

  function Convert(s: string, p: Parsed, args: seq<Arg>): Option<Piece> {
    var c := CharAt(s, p.pos);
    if IsIntSpec(c) then
      match IntArg(c, p.flags, args, p.arg)
      case None => None
      case Some(x) =>
        Some(Piece(IntField(Magnitude(x), x < 0, BaseOf(c), p.prec, p.width, IntFlags(c, p.flags)),
                   p.pos + 1, p.arg + 1))
    else if c == 'c' then
      if IsInt(args, p.arg)
      then Some(Piece(CharField((args[p.arg].bits32 % 0x100) as char, p.width, p.flags), p.pos + 1, p.arg + 1))
      else None
    else if c == 's' then
      if p.arg < |args| && args[p.arg].Text?
      then Some(Piece(StringField(args[p.arg].chars, p.prec, p.width, p.flags), p.pos + 1, p.arg + 1))
      else None
    else if c == 'p' then
      if p.arg < |args| && args[p.arg].Word64?
      then Some(Piece(IntField(args[p.arg].bits64, false, 16, p.prec, 16, p.flags.(zeropad := true, upper := true)),
                      p.pos + 1, p.arg + 1))
      else None
    else if c == '\0' then None
    else Some(Piece([c], p.pos + 1, p.arg))
  }

  function Directive(s: string, i: nat, args: seq<Arg>, a: nat): (r: Option<Piece>)
    ensures r.Some? ==> i < r.value.pos
  {
    match Parse(s, i, args, a)
    case None => None
    case Some(p) => Convert(s, p, args)
  }

  /** What stands at position `i`, before the end: a directive, or a character that prints itself. */
  function Next(s: string, i: nat, args: seq<Arg>, a: nat): (r: Option<Piece>)
    requires i < |s|
    ensures r.Some? ==> i < r.value.pos
  {
    if s[i] != '%' then Some(Piece([s[i]], i + 1, a)) else Directive(s, i + 1, args, a)
  }

  /** The whole text; None if the format ends inside a directive or asks for an argument that is not
      there or not of its type. */
  function Render(s: string, i: nat, args: seq<Arg>, a: nat): Option<string>
    decreases if i <= |s| then |s| - i else 0
  {
    if CharAt(s, i) == '\0' then Some("")
    else
      match Next(s, i, args, a)
      case None => None
      case Some(piece) => Then(piece.text, Render(s, piece.pos, args, piece.arg))
  }

  function Then(t: string, rest: Option<string>): Option<string> {
    if rest.Some? then Some(t + rest.value) else None
  }
}
