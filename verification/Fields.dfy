/** What an integer, string or character conversion prints, most significant character first: the
    text that the reversed buffer and the sinks of printf.c produce between them. */
module Fields {
  import opened Digits
  import opened Directives

  /** The size of the conversion buffer. */
  const BUF: nat := 32

  function Min(a: nat, b: nat): nat { if a < b then a else b }
  function Max(a: nat, b: nat): nat { if a < b then b else a }

  function Zeros(n: nat): (r: string)
    ensures |r| == n
  {
    seq(n, _ => '0')
  }

  function Spaces(n: nat): (r: string)
    ensures |r| == n
  {
    seq(n, _ => ' ')
  }

  /** `t` with zeros before it up to length `n`. */
  function ZeroFill(t: string, n: nat): string {
    if |t| < n then Zeros(n - |t|) + t else t
  }

  // ---------- integer conversions ----------

  function Magnitude(x: int): nat {
    if x > 0 then x else 0 - x
  }

  function Body(v: nat, base: nat, f: Flags): string
    requires 2 <= base <= 16
  {
    if f.precision && v == 0 then "" else Numeral(v, base, BUF, f.upper)
  }

  /** Whether a sign character is due, and which. */
  predicate HasSign(negative: bool, f: Flags) {
    negative || f.plus || f.space
  }

  function Sign(negative: bool, f: Flags): string {
    if negative then "-" else if f.plus then "+" else if f.space then " " else ""
  }

  /** The width that is left for zero padding when a sign is to come. */
  function InnerWidth(negative: bool, width: nat, f: Flags): nat {
    if !f.left && width > 0 && f.zeropad && HasSign(negative, f) then width - 1 else width
  }

  function Filled(t: string, prec: nat, w: nat, f: Flags): string {
    if f.left then t
    else
      var u := ZeroFill(t, Min(prec, BUF));
      if f.zeropad then ZeroFill(u, Min(w, BUF)) else u
  }

  /** The `#` flag takes characters away when there is no precision and the field is exactly full. */
  function Dropped(t: string, base: nat, prec: nat, w: nat, f: Flags): string {
    if !f.precision && t != "" && (|t| == prec || |t| == w) then
      if |t| > 1 && base == 16 then t[2..] else t[1..]
    else t
  }

  function BaseMark(base: nat, f: Flags): string {
    if base == 16 then (if f.upper then "X" else "x") else if base == 2 then "b" else ""
  }

  /** One character more if it fits the buffer. */
  function Prefixed(mark: string, t: string): string {
    if |t| < BUF then mark + t else t
  }

  function Hashed(t: string, base: nat, prec: nat, w: nat, f: Flags): string {
    if !f.hash then t
    else Prefixed("0", Prefixed(BaseMark(base, f), Dropped(t, base, prec, w, f)))
  }

  function Signed(t: string, negative: bool, f: Flags): string {
    Prefixed(Sign(negative, f), t)
  }

  function Padding(len: nat, width: nat): string {
    if len < width then Spaces(width - len) else ""
  }

  function Justified(t: string, width: nat, f: Flags): string {
    if f.left then t + Padding(|t|, width)
    else if f.zeropad then t
    else Padding(|t|, width) + t
  }

  /** The precision that the code goes by, for one that may be given as a negative number. */
  function Kept(prec: Option<int>): nat {
    if prec.Some? && prec.value > 0 then prec.value else 0
  }

  /** All of `_ntoa_format`, for digits `t`. */
  function Formatted(t: string, negative: bool, base: nat, prec: nat, width: nat, f: Flags): string {
    var w := InnerWidth(negative, width, f);
    Justified(Signed(Hashed(Filled(t, prec, w, f), base, prec, w, f), negative, f), w, f)
  }

  /** All of `_ntoa_long`: the flag `#` counts only for nonzero values. */
  function IntField(v: nat, negative: bool, base: nat, prec: nat, width: nat, f: Flags): string
    requires 2 <= base <= 16
  {
    var g := if v == 0 then f.(hash := false) else f;
    Formatted(Body(v, base, g), negative, base, prec, width, g)
  }

  // ---------- strings and characters ----------

  /** The characters of a C string: those before its first NUL. */
  function CStr(s: string): string {
    if s == "" || s[0] == '\0' then "" else [s[0]] + CStr(s[1..])
  }

  /** The length, as an unsigned int, of a string read up to a limit. */
  function BoundedLength(s: string, limit: nat): nat {
    Min(|CStr(s)|, limit) % 0x1_0000_0000
  }

  function Shown(s: string, prec: nat, f: Flags): string {
    if f.precision && prec < |CStr(s)| then CStr(s)[..prec] else CStr(s)
  }

  /** What the padding loops of `%s` count from. */
  function StringCount(s: string, prec: nat, f: Flags): nat {
    var l := BoundedLength(s, if prec != 0 then prec else 0xffff_ffff_ffff_ffff);
    if f.precision then Min(l, prec) else l
  }

  function Around(t: string, count: nat, width: nat, f: Flags): string {
    if f.left then t + Padding(count, width) else Padding(count, width) + t
  }

  function StringField(s: string, prec: nat, width: nat, f: Flags): string {
    Around(Shown(s, prec, f), StringCount(s, prec, f), width, f)
  }

  function CharField(c: char, width: nat, f: Flags): string {
    Around([c], 1, width, f)
  }
}
