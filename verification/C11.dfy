/** What sections 7.21.6.1 and 7.21.6.5 of C11 ask an integer conversion and `%s` to print, apart from anything
    the code does. Base 2, which C11 does not have, is read as the other bases are, with the prefix 0b. */
module C11 {
  import opened Directives

  function Minus(a: nat, b: nat): nat {
    if a > b then a - b else 0
  }

  // ---------- integers ----------

  /** The integer conversions, and base 2; which of them are signed, and their bases. */
  predicate Integer11(c: char) {
    c in {'d', 'i', 'u', 'x', 'X', 'o', 'b'}
  }

  predicate Signed11(c: char) {
    c == 'd' || c == 'i'
  }

  function Base11(c: char): nat {
    if c == 'x' || c == 'X' then 16 else if c == 'o' then 8 else if c == 'b' then 2 else 10
  }

  function Digit11(d: nat, upper: bool): char
    requires d < 16
  {
    if upper then "0123456789ABCDEF"[d] else "0123456789abcdef"[d]
  }

  lemma DivShrinks(v: nat, base: nat)
    requires base >= 2 && v > 0
    ensures v / base < v
  {
  }

  /** All the digits of a number, and none for 0. */
  function Expand(v: nat, base: nat, upper: bool): string
    requires 2 <= base <= 16
    decreases v
  {
    if v == 0 then ""
    else
      DivShrinks(v, base);
      Expand(v / base, base, upper) + [Digit11(v % base, upper)]
  }

  /** A negative precision is taken as if there were none. */
  function Given(prec: Option<int>): Option<nat> {
    if prec.Some? && prec.value >= 0 then Some(prec.value) else None
  }

  /** `t` with zeros before it up to length `n`, and with spaces before or after it. */
  function AtLeast(t: string, n: nat): string {
    seq(Minus(n, |t|), _ => '0') + t
  }

  function Padded11(t: string, left: bool, width: nat): string {
    var pad := seq(Minus(width, |t|), _ => ' ');
    if left then t + pad else pad + t
  }

  /** The precision is the least number of digits, and 1 if there is none. */
  function Digits11(v: nat, base: nat, prec: Option<nat>, upper: bool): string
    requires 2 <= base <= 16
  {
    AtLeast(Expand(v, base, upper), if prec.Some? then prec.value else 1)
  }

  /** `#` with octal: one zero more, if and only if it is necessary for the first digit to be 0. */
  function Octal11(t: string, base: nat, f: Flags): string {
    if f.hash && base == 8 && (t == "" || t[0] != '0') then "0" + t else t
  }

  /** `#` with the other bases: a prefix for a number that is not 0. */
  function Prefix11(v: nat, base: nat, f: Flags): string {
    if !f.hash || v == 0 then ""
    else if base == 16 then (if f.upper then "0X" else "0x")
    else if base == 2 then "0b" else ""
  }

  /** A minus for a negative number; for another one a plus if it is asked for, else a space if that is. */
  function Sign11(negative: bool, f: Flags): string {
    if negative then "-" else if f.plus then "+" else if f.space then " " else ""
  }

  /** The field: sign and prefix, then the digits; spaces on the right for `-`, zeros between for `0` unless
      there is a `-` or a precision, and otherwise spaces on the left. */
  function Field11(v: nat, negative: bool, base: nat, prec: Option<int>, width: nat, f: Flags): string
    requires 2 <= base <= 16
  {
    var head := Sign11(negative, f) + Prefix11(v, base, f);
    var t := Octal11(Digits11(v, base, Given(prec), f.upper), base, f);
    if !f.left && f.zeropad && Given(prec).None? then head + AtLeast(t, Minus(width, |head|))
    else Padded11(head + t, f.left, width)
  }

  // ---------- strings ----------

  /** `%s`, for the characters `t` before the terminator: no more of them than a precision that is given. */
  function String11(t: string, prec: Option<int>, width: nat, left: bool): string {
    var shown := if Given(prec).Some? && prec.value < |t| then t[..prec.value] else t;
    Padded11(shown, left, width)
  }
}
