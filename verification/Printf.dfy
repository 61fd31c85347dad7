/** The formatting engine as it runs: loops over the format, a reversed buffer of 32 characters, and
    sinks that write at an index. Every routine is proved to send exactly the text that Fields and
    Formats define. */
module Printf {
  import opened Arguments
  import opened Digits
  import opened Bits
  import opened Directives
  import opened Fields
  import opened Formats

  // ---------- sinks ----------

  /** `_out_buffer` and `_out_null`. */
  datatype Sink = ToBuffer | ToNull

  /** A buffer after `text` has been sent to it from index `idx` on: no cell at `maxlen` or beyond, and
      none outside the text, is written. */
  function Sent(sink: Sink, b: seq<char>, idx: nat, text: string, maxlen: nat): (r: seq<char>)
    ensures |r| == |b|
  {
    if sink.ToNull? then b
    else seq(|b|, k requires 0 <= k < |b| => if idx <= k < idx + |text| && k < maxlen then text[k - idx] else b[k])
  }

  /** The caller's promise: the buffer has `maxlen` cells, or room for the text. */
  predicate Room(sink: Sink, cells: nat, upto: nat, maxlen: nat) {
    sink.ToNull? || maxlen <= cells || upto <= cells
  }

  /** Sending a text and then another is sending both. */
  lemma SentTwice(sink: Sink, b: seq<char>, idx: nat, t: string, u: string, maxlen: nat)
    ensures Sent(sink, Sent(sink, b, idx, t, maxlen), idx + |t|, u, maxlen) == Sent(sink, b, idx, t + u, maxlen)
  {
  }

  lemma SentNothing(sink: Sink, b: seq<char>, idx: nat, maxlen: nat)
    ensures Sent(sink, b, idx, "", maxlen) == b
  {
  }

  method Out(sink: Sink, c: char, buffer: array<char>, idx: nat, maxlen: nat)
    requires Room(sink, buffer.Length, idx + 1, maxlen)
    modifies buffer
    ensures buffer[..] == Sent(sink, old(buffer[..]), idx, [c], maxlen)
  {
    if sink.ToBuffer? {
      if idx < maxlen {
        buffer[idx] := c;
      }
    }
  }

  /** The padding loop, which stands in several places of the source: a space for each number from `from`
      up to `width`. */
  method OutSpaces(sink: Sink, buffer: array<char>, idx: nat, maxlen: nat, from: nat, width: nat) returns (r: nat)
    requires Room(sink, buffer.Length, idx + |Padding(from, width)|, maxlen)
    modifies buffer
    ensures r == idx + |Padding(from, width)|
    ensures buffer[..] == Sent(sink, old(buffer[..]), idx, Padding(from, width), maxlen)
  {
    r := idx;
    var l := from;
    SentNothing(sink, buffer[..], idx, maxlen);
    while l < width
      invariant from <= l && (l <= width || l == from) && r == idx + (l - from)
      invariant buffer[..] == Sent(sink, old(buffer[..]), idx, Spaces(l - from), maxlen)
    {
      Out(sink, ' ', buffer, r, maxlen);
      SentTwice(sink, old(buffer[..]), idx, Spaces(l - from), " ", maxlen);
      assert Spaces(l - from) + " " == Spaces(l + 1 - from);
      r, l := r + 1, l + 1;
    }
  }

  // ---------- the reversed buffer ----------

  function Rev(s: string): (r: string)
    ensures |r| == |s| && forall i :: 0 <= i < |s| ==> r[i] == s[|s| - 1 - i]
  {
    seq(|s|, i requires 0 <= i < |s| => s[|s| - 1 - i])
  }

  /** `buf[len++] = c`: the text gains a character at its front. */
  method Push(buf: array<char>, len: nat, c: char) returns (r: nat)
    requires len < buf.Length
    modifies buf
    ensures r == len + 1 && Rev(buf[..r]) == [c] + Rev(old(buf[..len]))
  {
    buf[len] := c;
    r := len + 1;
    assert buf[..r] == old(buf[..len]) + [c];
  }

  lemma Pop(s: string, k: nat)
    requires k <= |s|
    ensures Rev(s[..|s| - k]) == Rev(s)[k..]
  {
  }

  /** `_out_rev`, for a buffer that holds `text` in reverse: spaces before it, the text, and then spaces
      after it. */
  method OutRev(sink: Sink, buffer: array<char>, idx: nat, maxlen: nat, buf: array<char>, len: nat, width: nat,
                f: Flags, ghost text: string)
    returns (r: nat)
    requires buf != buffer && len <= buf.Length && text == Rev(buf[..len])
    requires Room(sink, buffer.Length, idx + |Justified(text, width, f)|, maxlen)
    modifies buffer
    ensures r == idx + |Justified(text, width, f)|
    ensures buffer[..] == Sent(sink, old(buffer[..]), idx, Justified(text, width, f), maxlen)
  {
    ghost var b, lead := buffer[..], if !f.left && !f.zeropad then Padding(len, width) + text else text;
    r := OutPadded(sink, buffer, idx, maxlen, buf, len, width, !f.left && !f.zeropad, text, lead);
    if f.left {
      r := OutSpaces(sink, buffer, r, maxlen, r - idx, width);
      SentTwice(sink, b, idx, text, Padding(len, width), maxlen);
    }
  }

  method OutPadded(sink: Sink, buffer: array<char>, idx: nat, maxlen: nat, buf: array<char>, len: nat, width: nat,
                   pad: bool, ghost text: string, ghost padded: string)
    returns (r: nat)
    requires buf != buffer && len <= buf.Length && text == Rev(buf[..len])
    requires padded == (if pad then Padding(len, width) + text else text)
    requires Room(sink, buffer.Length, idx + |padded|, maxlen)
    modifies buffer
    ensures r == idx + |padded| && buffer[..] == Sent(sink, old(buffer[..]), idx, padded, maxlen)
  {
    r := idx;
    if pad {
      ghost var b := buffer[..];
      r := OutSpaces(sink, buffer, r, maxlen, len, width);
      SentTwice(sink, b, idx, Padding(len, width), text, maxlen);
    }
    r := OutReversed(sink, buffer, r, maxlen, buf, len, text);
  }

  /** Its middle loop: the buffer from its end to its start. */
  method OutReversed(sink: Sink, buffer: array<char>, idx: nat, maxlen: nat, buf: array<char>, len: nat,
                     ghost text: string)
    returns (r: nat)
    requires buf != buffer && len <= buf.Length && text == Rev(buf[..len])
    requires Room(sink, buffer.Length, idx + len, maxlen)
    modifies buffer
    ensures r == idx + len && buffer[..] == Sent(sink, old(buffer[..]), idx, text, maxlen)
  {
    r := idx;
    var n := len;
    ghost var b := buffer[..];
    SentNothing(sink, b, idx, maxlen);
    while n > 0
      invariant 0 <= n <= len && r == idx + (len - n)
      invariant buffer[..] == Sent(sink, b, idx, text[..len - n], maxlen)
    {
      TakeNext(text, len - n);
      SentTwice(sink, b, idx, text[..len - n], [text[len - n]], maxlen);
      n := n - 1;
      Out(sink, buf[n], buffer, r, maxlen);
      r := r + 1;
    }
    assert text[..len] == text;
  }

  // ---------- integers ----------

  /** The zero-padding loop. */
  method PadZeros(buf: array<char>, len: nat, n: nat) returns (r: nat)
    requires buf.Length == BUF && len <= BUF
    modifies buf
    ensures r <= BUF && Rev(buf[..r]) == ZeroFill(Rev(old(buf[..len])), Min(n, BUF))
  {
    r := len;
    ghost var t := Rev(buf[..len]);
    ghost var u := t;
    assert Zeros(0) + t == t;
    while r < n && r < BUF
      invariant len <= r <= BUF && (r <= n || r == len)
      invariant u == Zeros(r - len) + t && Rev(buf[..r]) == u
    {
      MoreZeros(r - len, t);
      r := Push(buf, r, '0');
      u := ['0'] + u;
    }
  }

  lemma MoreZeros(n: nat, t: string)
    ensures ['0'] + (Zeros(n) + t) == Zeros(n + 1) + t
  {
  }

  /** One more character if the buffer is not full. */
  method PushIfRoom(buf: array<char>, len: nat, mark: string) returns (r: nat)
    requires buf.Length == BUF && len <= BUF && |mark| <= 1
    modifies buf
    ensures r <= BUF && Rev(buf[..r]) == Prefixed(mark, Rev(old(buf[..len])))
  {
    r := len;
    if |mark| == 1 && len < BUF {
      r := Push(buf, len, mark[0]);
    } else {
      assert "" + Rev(buf[..len]) == Rev(buf[..len]);
    }
  }

  /** The handling of `#`. */
  method PutHash(buf: array<char>, len: nat, base: nat, prec: nat, width: nat, f: Flags) returns (r: nat)
    requires buf.Length == BUF && len <= BUF
    modifies buf
    ensures r <= BUF && Rev(buf[..r]) == Hashed(Rev(old(buf[..len])), base, prec, width, f)
  {
    r := len;
    if f.hash {
      if !f.precision && r != 0 && (r == prec || r == width) {
        r := r - 1;
        if r != 0 && base == 16 {
          r := r - 1;
        }
      }
      Pop(buf[..len], len - r);
      assert buf[..len][..r] == buf[..r];
      assert Rev(buf[..r]) == Dropped(Rev(buf[..len]), base, prec, width, f);
      r := PushIfRoom(buf, r, if base == 16 then (if f.upper then "X" else "x") else if base == 2 then "b" else "");
      r := PushIfRoom(buf, r, "0");
    }
  }

  /** `_ntoa_format`. */
  method NtoaFormat(sink: Sink, buffer: array<char>, idx: nat, maxlen: nat, buf: array<char>, len: nat,
                    negative: bool, base: nat, prec: nat, width: nat, f: Flags, ghost text: string)
    returns (r: nat)
    requires buf != buffer && buf.Length == BUF && len <= BUF
    requires text == Formatted(Rev(buf[..len]), negative, base, prec, width, f)
    requires Room(sink, buffer.Length, idx + |text|, maxlen)
    modifies buffer, buf
    ensures r == idx + |text| && buffer[..] == Sent(sink, old(buffer[..]), idx, text, maxlen)
  {
    var n, w := len, width;
    if !f.left {
      if w != 0 && f.zeropad && (negative || f.plus || f.space) {
        w := w - 1;
      }
      n := PadZeros(buf, n, prec);
      if f.zeropad {
        n := PadZeros(buf, n, w);
      }
    }
    n := PutHash(buf, n, base, prec, w, f);
    n := PushIfRoom(buf, n, if negative then "-" else if f.plus then "+" else if f.space then " " else "");
    r := OutRev(sink, buffer, idx, maxlen, buf, n, w, f, Rev(buf[..n]));
  }

  /** The number still to be converted and the digits already there make up the numeral of `value`. */
  predicate Splits(value: nat, base: nat, upper: bool, v: nat, t: string)
    requires 2 <= base <= 16
  {
    |t| < BUF && Numeral(v, base, BUF - |t|, upper) + t == Numeral(value, base, BUF, upper)
  }

  lemma SplitStarts(value: nat, base: nat, upper: bool)
    requires 2 <= base <= 16
    ensures Splits(value, base, upper, value, "")
  {
    assert Numeral(value, base, BUF, upper) + "" == Numeral(value, base, BUF, upper);
  }

  /** One more digit: either there is more to convert, and room for it, or the numeral is complete. */
  lemma SplitNext(value: nat, base: nat, upper: bool, v: nat, t: string, u: string)
    requires 2 <= base <= 16 && Splits(value, base, upper, v, t) && u == [DigitChar(v % base, upper)] + t
    ensures if Quotient(v, base) == 0 || |u| == BUF then u == Numeral(value, base, BUF, upper)
            else Splits(value, base, upper, Quotient(v, base), u)
  {
    var front := FrontIs(v, base, BUF - |t|, upper);
    Associates(front, [DigitChar(v % base, upper)], t);
    assert "" + u == u;
  }

  /** The digit loop: least significant digit first, until nothing is left or the buffer is full. */
  method PutDigits(buf: array<char>, value: nat, base: nat, upper: bool) returns (len: nat)
    requires buf.Length == BUF && 2 <= base <= 16
    modifies buf
    ensures len <= BUF && Rev(buf[..len]) == Numeral(value, base, BUF, upper)
  {
    var v: nat := value;
    len := 0;
    SplitStarts(value, base, upper);
    assert Rev(buf[..0]) == "";
    while true
      invariant len < BUF && Splits(value, base, upper, v, Rev(buf[..len]))
      decreases BUF - len
    {
      var digit := v % base;
      ghost var t := Rev(buf[..len]);
      len := Push(buf, len, if digit < 10 then '0' + digit as char
                            else (if upper then 'A' else 'a') + (digit - 10) as char);
      SplitNext(value, base, upper, v, t, Rev(buf[..len]));
      v := Quotient(v, base);
      if v == 0 || len == BUF {
        return;
      }
    }
  }

  /** `_ntoa_long`, and `_ntoa_long_long`, which has the same body. */
  method NtoaLong(sink: Sink, buffer: array<char>, idx: nat, maxlen: nat, value: u64, negative: bool, base: nat,
                  prec: nat, width: nat, f: Flags)
    returns (r: nat)
    requires 2 <= base <= 16
    requires Room(sink, buffer.Length, idx + |IntField(value, negative, base, prec, width, f)|, maxlen)
    modifies buffer
    ensures var text := IntField(value, negative, base, prec, width, f);
            r == idx + |text| && buffer[..] == Sent(sink, old(buffer[..]), idx, text, maxlen)
  {
    var buf := new char[BUF];
    var len := 0;
    var g := if value == 0 then f.(hash := false) else f;
    if !g.precision || value != 0 {
      len := PutDigits(buf, value, base, g.upper);
    }
    ghost var text := IntField(value, negative, base, prec, width, f);
    ghost var digits := Body(value, base, g);
    assert text == Formatted(digits, negative, base, prec, width, g);
    assert Rev(buf[..len]) == digits;
    r := NtoaFormat(sink, buffer, idx, maxlen, buf, len, negative, base, prec, width, g, text);
  }

  // ---------- strings ----------

  /** A C string goes on exactly up to its first NUL. */
  lemma {:induction false} CStrEnds(s: string, i: nat)
    requires i <= |s| && forall k :: 0 <= k < i ==> s[k] != '\0'
    ensures i <= |CStr(s)| && CStr(s)[..i] == s[..i]
    ensures CharAt(s, i) == '\0' <==> |CStr(s)| == i
    ensures CharAt(s, i) != '\0' ==> CStr(s)[i] == s[i]
    decreases i
  {
    if i > 0 {
      CStrEnds(s[1..], i - 1);
      assert s[..i] == [s[0]] + s[1..][..i - 1];
    }
  }

  /** `_strnlen_s`: the length up to the terminator, at most `maxsize`, as an unsigned int. */
  method StrnlenS(s: string, maxsize: nat) returns (r: u32)
    ensures r == BoundedLength(s, maxsize)
  {
    var i, left := 0, maxsize;
    while CharAt(s, i) != '\0' && left > 0
      invariant 0 <= i <= |s| && left == maxsize - i
      invariant forall k :: 0 <= k < i ==> s[k] != '\0'
      decreases |s| - i
    {
      i, left := i + 1, left - 1;
    }
    CStrEnds(s, i);
    r := i % 0x1_0000_0000;
  }

  /** Where the output loop of `%s` goes on, and where it stops. */
  lemma ShownAt(s: string, prec: nat, f: Flags, i: nat)
    requires i <= |s| && (forall k :: 0 <= k < i ==> s[k] != '\0') && i <= |Shown(s, prec, f)|
    ensures CharAt(s, i) != '\0' && (!f.precision || i < prec) <==> i < |Shown(s, prec, f)|
    ensures i < |Shown(s, prec, f)| ==> i < |s| && Shown(s, prec, f)[i] == s[i]
  {
    CStrEnds(s, i);
  }

  lemma TakeNext(t: string, i: nat)
    requires i < |t|
    ensures t[..i] + [t[i]] == t[..i + 1]
  {
  }

  /** The output loop of `%s`. */
  method OutString(sink: Sink, buffer: array<char>, idx: nat, maxlen: nat, s: string, prec: nat, f: Flags,
                   ghost shown: string)
    returns (r: nat)
    requires shown == Shown(s, prec, f) && Room(sink, buffer.Length, idx + |shown|, maxlen)
    modifies buffer
    ensures r == idx + |shown| && buffer[..] == Sent(sink, old(buffer[..]), idx, shown, maxlen)
  {
    var i, left := 0, prec;
    r := idx;
    ghost var b := buffer[..];
    SentNothing(sink, b, idx, maxlen);
    ShownAt(s, prec, f, 0);
    while CharAt(s, i) != '\0' && (!f.precision || left > 0)
      invariant 0 <= i <= |s| && i <= |shown| && r == idx + i && (f.precision ==> left == prec - i)
      invariant forall k :: 0 <= k < i ==> s[k] != '\0'
      invariant CharAt(s, i) != '\0' && (!f.precision || i < prec) <==> i < |shown|
      invariant buffer[..] == Sent(sink, b, idx, shown[..i], maxlen)
      decreases |s| - i
    {
      assert s[i] == shown[i] && shown[..i] + [shown[i]] == shown[..i + 1] by {
        ShownAt(s, prec, f, i);
        TakeNext(shown, i);
      }
      Out(sink, s[i], buffer, r, maxlen);
      SentTwice(sink, b, idx, shown[..i], [shown[i]], maxlen);
      r, i := r + 1, i + 1;
      if f.precision {
        left := left - 1;
      }
      ShownAt(s, prec, f, i);
    }
    assert shown[..i] == shown;
  }

  /** `%s`. */
  method PutString(sink: Sink, buffer: array<char>, idx: nat, maxlen: nat, s: string, prec: nat, width: nat, f: Flags)
    returns (r: nat)
    requires Room(sink, buffer.Length, idx + |StringField(s, prec, width, f)|, maxlen)
    modifies buffer
    ensures r == idx + |StringField(s, prec, width, f)|
    ensures buffer[..] == Sent(sink, old(buffer[..]), idx, StringField(s, prec, width, f), maxlen)
  {
    ghost var b, shown := buffer[..], Shown(s, prec, f);
    r := idx;
    var l := StrnlenS(s, if prec != 0 then prec else 0xffff_ffff_ffff_ffff);
    if f.precision {
      l := if l < prec then l else prec;
    }
    ghost var pad := Padding(l, width);
    assert StringField(s, prec, width, f) == if f.left then shown + pad else pad + shown;
    if !f.left {
      r := OutSpaces(sink, buffer, r, maxlen, l, width);
      r := OutString(sink, buffer, r, maxlen, s, prec, f, shown);
      SentTwice(sink, b, idx, pad, shown, maxlen);
    } else {
      r := OutString(sink, buffer, r, maxlen, s, prec, f, shown);
      r := OutSpaces(sink, buffer, r, maxlen, l, width);
      SentTwice(sink, b, idx, shown, pad, maxlen);
    }
  }

  /** `%c`. */
  method PutChar(sink: Sink, buffer: array<char>, idx: nat, maxlen: nat, c: char, width: nat, f: Flags) returns (r: nat)
    requires Room(sink, buffer.Length, idx + |CharField(c, width, f)|, maxlen)
    modifies buffer
    ensures r == idx + |CharField(c, width, f)|
    ensures buffer[..] == Sent(sink, old(buffer[..]), idx, CharField(c, width, f), maxlen)
  {
    ghost var b, pad := buffer[..], Padding(1, width);
    r := idx;
    if !f.left {
      r := OutSpaces(sink, buffer, r, maxlen, 1, width);
    }
    Out(sink, c, buffer, r, maxlen);
    r := r + 1;
    if f.left {
      r := OutSpaces(sink, buffer, r, maxlen, 1, width);
      SentTwice(sink, b, idx, [c], pad, maxlen);
    } else {
      SentTwice(sink, b, idx, pad, [c], maxlen);
    }
  }

  // ---------- the directive parser ----------

  /** `_atoi`. */
  method Atoi(s: string, i: nat) returns (n: u32, j: nat)
    ensures n == NumberAt(s, i, 0) && j == NumberEnd(s, i)
  {
    n, j := 0, i;
    while IsDigit(CharAt(s, j))
      invariant NumberAt(s, j, n) == NumberAt(s, i, 0) && NumberEnd(s, j) == NumberEnd(s, i)
      decreases |s| - j
    {
      n, j := (n * 10 + (s[j] as int - '0' as int)) % 0x1_0000_0000, j + 1;
    }
  }

  /** The loop over the flags. */
  method ScanFlags(s: string, i: nat) returns (f: Flags, j: nat)
    ensures (f, j) == FlagsAt(s, i, NO_FLAGS)
  {
    f, j := NO_FLAGS, i;
    var more := true;
    while more
      invariant FlagsAt(s, j, f) == FlagsAt(s, i, NO_FLAGS)
      invariant !more ==> !(j < |s| && IsFlag(s[j]))
      decreases |s| - j, more
    {
      var c := CharAt(s, j);
      if c == '0' {
        f, j := f.(zeropad := true), j + 1;
      } else if c == '-' {
        f, j := f.(left := true), j + 1;
      } else if c == '+' {
        f, j := f.(plus := true), j + 1;
      } else if c == ' ' {
        f, j := f.(space := true), j + 1;
      } else if c == '#' {
        f, j := f.(hash := true), j + 1;
      } else {
        more := false;
      }
    }
  }

  /** Width, then precision, then length: the middle of the directive. */
  method ScanWidth(s: string, p: Parsed, args: seq<Arg>) returns (q: Parsed)
    requires WidthAt(s, p, args).Some?
    ensures WidthAt(s, p, args) == Some(q)
  {
    q := p;
    if IsDigit(CharAt(s, p.pos)) {
      var n, j := Atoi(s, p.pos);
      q := p.(width := n, pos := j);
    } else if CharAt(s, p.pos) == '*' {
      var w := Signed32(args[p.arg].bits32);
      if w < 0 {
        q := p.(flags := p.flags.(left := true), width := -w, pos := p.pos + 1, arg := p.arg + 1);
      } else {
        q := p.(width := w, pos := p.pos + 1, arg := p.arg + 1);
      }
    }
  }

  method ScanPrecision(s: string, p: Parsed, args: seq<Arg>) returns (q: Parsed)
    requires PrecisionAt(s, p, args).Some?
    ensures PrecisionAt(s, p, args) == Some(q)
  {
    q := p;
    if CharAt(s, p.pos) == '.' {
      q := p.(flags := p.flags.(precision := true), pos := p.pos + 1);
      if IsDigit(CharAt(s, q.pos)) {
        var n, j := Atoi(s, q.pos);
        q := q.(prec := n, pos := j);
      } else if CharAt(s, q.pos) == '*' {
        var n := Signed32(args[q.arg].bits32);
        q := q.(prec := if n > 0 then n else 0, pos := q.pos + 1, arg := q.arg + 1);
      }
    }
  }

  method ScanLength(s: string, p: Parsed) returns (q: Parsed)
    ensures q == LengthAt(s, p)
  {
    q := p;
    var c := CharAt(s, p.pos);
    if c == 'l' {
      q := q.(flags := q.flags.(long := true), pos := q.pos + 1);
      if CharAt(s, q.pos) == 'l' {
        q := q.(flags := q.flags.(longLong := true), pos := q.pos + 1);
      }
    } else if c == 'h' {
      q := q.(flags := q.flags.(short := true), pos := q.pos + 1);
      if CharAt(s, q.pos) == 'h' {
        q := q.(flags := q.flags.(chr := true), pos := q.pos + 1);
      }
    } else if c == 't' || c == 'j' || c == 'z' {
      q := q.(flags := q.flags.(long := true), pos := q.pos + 1);
    }
  }

  method ScanDirective(s: string, i: nat, args: seq<Arg>, a: nat) returns (p: Parsed)
    requires Parse(s, i, args, a).Some?
    ensures Parse(s, i, args, a) == Some(p)
  {
    var f, j := ScanFlags(s, i);
    p := ScanWidth(s, Parsed(f, 0, 0, j, a), args);
    p := ScanPrecision(s, p, args);
    p := ScanLength(s, p);
  }

  // ---------- the conversions ----------

  /** The flags of an integer conversion, changed one after the other. */
  method CleanFlags(c: char, f: Flags) returns (g: Flags, base: nat)
    requires IsIntSpec(c)
    ensures g == IntFlags(c, f) && base == BaseOf(c)
  {
    var hash, upper, plus, space, zeropad := f.hash, f.upper, f.plus, f.space, f.zeropad;
    if c == 'x' || c == 'X' {
      base := 16;
    } else if c == 'o' {
      base := 8;
    } else if c == 'b' {
      base := 2;
    } else {
      base := 10;
      hash := false;
    }
    assert base == BaseOf(c) && hash == (f.hash && base != 10);
    if c == 'X' {
      upper := true;
    }
    if c != 'i' && c != 'd' {
      plus, space := false, false;
    }
    assert upper == (f.upper || c == 'X');
    assert plus == (f.plus && IsSignedSpec(c)) && space == (f.space && IsSignedSpec(c));
    if f.precision {
      zeropad := false;
    }
    assert zeropad == (f.zeropad && !f.precision);
    g := f.(hash := hash, upper := upper, plus := plus, space := space, zeropad := zeropad);
  }

  /** The argument of an integer conversion, with the casts that its length modifier asks for. */
  method LoadInt(c: char, f: Flags, args: seq<Arg>, a: nat) returns (negative: bool, v: u64)
    requires IsIntSpec(c) && IntArg(c, f, args, a).Some?
    ensures v == Magnitude(IntArg(c, f, args, a).value) && negative == (IntArg(c, f, args, a).value < 0)
    ensures var x: int := v; Carries(args[a], c == 'd' || c == 'i', SizeOf(f), if negative then -x else x)
  {
    ArgumentMeans(c, f, args, a, IntArg(c, f, args, a).value);
    var x: int;
    if IsSignedSpec(c) {
      if f.longLong || f.long {
        x := Signed64(args[a].bits64);
      } else {
        x := if f.short then Signed16(args[a].bits32) else Signed32(args[a].bits32);
      }
    } else {
      if f.longLong || f.long {
        x := args[a].bits64;
      } else {
        x := if f.chr then args[a].bits32 % 0x100 else if f.short then args[a].bits32 % 0x1_0000 else args[a].bits32;
      }
    }
    negative, v := x < 0, if x > 0 then x else 0 - x;
  }

  /** An integer conversion, that prints `text`. */
  method PutInt(sink: Sink, buffer: array<char>, idx: nat, maxlen: nat, c: char, p: Parsed, args: seq<Arg>,
                ghost text: string)
    returns (r: nat)
    requires IsIntSpec(c) && IntArg(c, p.flags, args, p.arg).Some?
    requires var x := IntArg(c, p.flags, args, p.arg).value;
             text == IntField(Magnitude(x), x < 0, BaseOf(c), p.prec, p.width, IntFlags(c, p.flags))
    requires Room(sink, buffer.Length, idx + |text|, maxlen)
    modifies buffer
    ensures r == idx + |text| && buffer[..] == Sent(sink, old(buffer[..]), idx, text, maxlen)
  {
    var f, base := CleanFlags(c, p.flags);
    var negative, v := LoadInt(c, p.flags, args, p.arg);
    r := NtoaLong(sink, buffer, idx, maxlen, v, negative, base, p.prec, p.width, f);
  }

  /** The switch over the specifier. */
  method PutConversion(sink: Sink, buffer: array<char>, idx: nat, maxlen: nat, s: string, p: Parsed, args: seq<Arg>,
                       ghost piece: Piece)
    returns (r: nat, i: nat, a: nat)
    requires Convert(s, p, args) == Some(piece) && Room(sink, buffer.Length, idx + |piece.text|, maxlen)
    modifies buffer
    ensures r == idx + |piece.text| && buffer[..] == Sent(sink, old(buffer[..]), idx, piece.text, maxlen)
    ensures i == piece.pos && a == piece.arg
  {
    var c := CharAt(s, p.pos);
    i, a := p.pos + 1, p.arg + 1;
    if IsIntSpec(c) {
      r := PutInt(sink, buffer, idx, maxlen, c, p, args, piece.text);
    } else if c == 'c' {
      r := PutChar(sink, buffer, idx, maxlen, (args[p.arg].bits32 % 0x100) as char, p.width, p.flags);
    } else if c == 's' {
      r := PutString(sink, buffer, idx, maxlen, args[p.arg].chars, p.prec, p.width, p.flags);
    } else if c == 'p' {
      r := NtoaLong(sink, buffer, idx, maxlen, args[p.arg].bits64, false, 16, p.prec, 16,
                    p.flags.(zeropad := true, upper := true));
    } else {
      Out(sink, c, buffer, idx, maxlen);
      r, a := idx + 1, p.arg;
    }
  }

  // ---------- the outer loop ----------

  /** Where the terminator goes: for a `maxlen` of 0 the subtraction wraps, and the sink drops it. */
  function TerminatorAt(idx: nat, maxlen: nat): nat {
    if idx < maxlen then idx else if maxlen > 0 then maxlen - 1 else 0xffff_ffff_ffff_ffff
  }

  /** What a caller finds in a buffer of which `maxlen` cells may be used: as much of the text as fits before a
      final NUL, the NUL, and beyond that what was there before. */
  lemma Terminated(b: seq<char>, text: string, maxlen: nat, r: seq<char>)
    requires maxlen <= |b| || |text| < |b|
    requires r == Sent(ToBuffer, Sent(ToBuffer, b, 0, text, maxlen), TerminatorAt(|text|, maxlen), "\0", maxlen)
    ensures |r| == |b|
    ensures forall k :: 0 <= k < |r| ==>
              r[k] == if k < |text| && k + 1 < maxlen then text[k]
                      else if k < maxlen && (k == |text| || (k < |text| && k + 1 == maxlen)) then '\0'
                      else b[k]
  {
  }

  /** One turn of the loop over the format: a character, or a directive. */
  method PutNext(sink: Sink, buffer: array<char>, idx: nat, maxlen: nat, s: string, i: nat, args: seq<Arg>, a: nat,
                 ghost piece: Piece)
    returns (r: nat, j: nat, b: nat)
    requires i < |s| && Next(s, i, args, a) == Some(piece) && Room(sink, buffer.Length, idx + |piece.text|, maxlen)
    modifies buffer
    ensures r == idx + |piece.text| && buffer[..] == Sent(sink, old(buffer[..]), idx, piece.text, maxlen)
    ensures j == piece.pos && b == piece.arg
  {
    if s[i] != '%' {
      Out(sink, s[i], buffer, idx, maxlen);
      r, j, b := idx + 1, i + 1, a;
    } else {
      var p := ScanDirective(s, i + 1, args, a);
      r, j, b := PutConversion(sink, buffer, idx, maxlen, s, p, args, piece);
    }
  }

  /** A text that is part done: the next piece, and what is left after it. */
  lemma NextPiece(s: string, i: nat, args: seq<Arg>, a: nat, done: string, text: string) returns (piece: Piece)
    requires CharAt(s, i) != '\0' && Render(s, i, args, a).Some? && text == done + Render(s, i, args, a).value
    ensures Next(s, i, args, a) == Some(piece) && |done + piece.text| <= |text|
    ensures Render(s, piece.pos, args, piece.arg).Some?
    ensures text == done + piece.text + Render(s, piece.pos, args, piece.arg).value
  {
    piece := Next(s, i, args, a).value;
    var rest := Render(s, piece.pos, args, piece.arg).value;
    Associates(done, piece.text, rest);
  }

  lemma Associates(a: string, b: string, c: string)
    ensures a + (b + c) == a + b + c
  {
  }

  /** The loop over the format. */
  method PutFormat(sink: Sink, buffer: array<char>, maxlen: nat, s: string, args: seq<Arg>, ghost text: string)
    returns (idx: nat)
    requires Render(s, 0, args, 0) == Some(text) && Room(sink, buffer.Length, |text|, maxlen)
    modifies buffer
    ensures idx == |text| && buffer[..] == Sent(sink, old(buffer[..]), 0, text, maxlen)
  {
    var i, a := 0, 0;
    idx := 0;
    ghost var b, done := buffer[..], "";
    SentNothing(sink, b, 0, maxlen);
    assert text == done + text;
    while CharAt(s, i) != '\0'
      invariant Render(s, i, args, a).Some? && text == done + Render(s, i, args, a).value && idx == |done|
      invariant buffer[..] == Sent(sink, b, 0, done, maxlen)
      decreases |s| - i
    {
      ghost var piece := NextPiece(s, i, args, a, done, text);
      idx, i, a := PutNext(sink, buffer, idx, maxlen, s, i, args, a, piece);
      SentTwice(sink, b, 0, done, piece.text, maxlen);
      done := done + piece.text;
    }
    assert done + "" == done;
  }

  /** The loop and the termination, for a buffer that is there. */
  method PutTerminated(sink: Sink, buffer: array<char>, maxlen: nat, s: string, args: seq<Arg>, ghost text: string)
    returns (idx: nat)
    requires Render(s, 0, args, 0) == Some(text) && maxlen <= 0xffff_ffff_ffff_ffff
    requires sink.ToBuffer? ==> maxlen <= buffer.Length || |text| < buffer.Length
    modifies buffer
    ensures idx == |text| && (sink.ToNull? ==> buffer[..] == old(buffer[..]))
    ensures sink.ToBuffer? ==>
              forall k :: 0 <= k < buffer.Length ==>
                buffer[k] == if k < |text| && k + 1 < maxlen then text[k]
                             else if k < maxlen && (k == |text| || (k < |text| && k + 1 == maxlen)) then '\0'
                             else old(buffer[k])
  {
    ghost var b := buffer[..];
    idx := PutFormat(sink, buffer, maxlen, s, args, text);
    Out(sink, '\0', buffer, TerminatorAt(idx, maxlen), maxlen);
    if sink.ToBuffer? {
      Terminated(b, text, maxlen, buffer[..]);
    }
  }

  /** The conversion of a length to `int`. */
  lemma AsInt(n: nat, r: int)
    requires r == Signed32(n % 0x1_0000_0000)
    ensures n < 0x8000_0000 ==> r == n
    ensures -0x8000_0000 <= r < 0x8000_0000 && (n - r) % 0x1_0000_0000 == 0
  {
    LowBits(n, 0x1_0000_0000);
  }

  /** `_vsnprintf`, for a well-formed format: the length it returns is that of the unbounded text, whatever the
      buffer can hold; a null buffer is one that nothing is sent to. */
  method Vsnprintf(out: Sink, buffer: array?<char>, maxlen: nat, s: string, args: seq<Arg>, ghost text: string)
    returns (r: int)
    requires Render(s, 0, args, 0) == Some(text) && maxlen <= 0xffff_ffff_ffff_ffff
    requires buffer != null && out.ToBuffer? ==> maxlen <= buffer.Length || |text| < buffer.Length
    modifies buffer
    ensures |text| < 0x8000_0000 ==> r == |text|
    ensures -0x8000_0000 <= r < 0x8000_0000 && (|text| - r) % 0x1_0000_0000 == 0
    ensures buffer != null && out.ToBuffer? ==>
              forall k :: 0 <= k < buffer.Length ==>
                buffer[k] == if k < |text| && k + 1 < maxlen then text[k]
                             else if k < maxlen && (k == |text| || (k < |text| && k + 1 == maxlen)) then '\0'
                             else old(buffer[k])
    ensures buffer != null && out.ToNull? ==> buffer[..] == old(buffer[..])
  {
    var sink := out;
    var cells: array<char>;
    if buffer == null {
      sink := ToNull;
      cells := new char[0];
    } else {
      cells := buffer;
    }
    var idx := PutTerminated(sink, cells, maxlen, s, args, text);
    r := Signed32(idx % 0x1_0000_0000);
    AsInt(idx, r);
  }
}
