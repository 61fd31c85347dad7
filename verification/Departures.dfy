/** Concrete formats and arguments for which the code prints something else than C11 asks for, one for each way
    in which the condition of C11Laws.Conforms fails, and other calls that do not do what their caller might expect. */
module Departures {
  import opened C11
  import opened C11Laws
  import opened Conformance
  import opened Digits
  import opened FieldLaws
  import opened Directives
  import opened Fields
  import opened Formats
  import opened HashLaws
  import opened KernelState
  import opened Mapping
  import opened MapTheorems
  import opened Parsing
  import opened RoundTrip

  const LEFT := NO_FLAGS.(left := true)
  const PLUS := NO_FLAGS.(plus := true)
  const ZERO := NO_FLAGS.(zeropad := true)
  const HASH := NO_FLAGS.(hash := true)
  const LEFT_HASH := LEFT.(hash := true)
  const ZERO_HASH := ZERO.(hash := true)

  lemma OneDigit(n: u32)
    requires n < 10
    ensures Decimal(n) == [DigitChar(n, false)]
  {
    assert [] + [DigitChar(n, false)] == [DigitChar(n, false)];
  }

  lemma TwoDigits(n: u32)
    requires 10 <= n < 100
    ensures Decimal(n) == [DigitChar(n / 10, false), DigitChar(n % 10, false)]
  {
    assert Numeral(n / 10, 10, BUF - 1, false) == [DigitChar(n / 10, false)];
  }

  lemma HexExpands()
    ensures Expand(0xa5, 16, false) == "a5"
  {
    assert Expand(0, 16, false) == "";
    assert Expand(10, 16, false) == "a";
  }

  lemma OctExpands()
    ensures Expand(8, 8, false) == "10"
  {
    assert Expand(0, 8, false) == "";
    assert Expand(1, 8, false) == "1";
  }

  /** A directive for a small number that is not negative. */
  lemma SmallShows(m: Meant, c: char, v: u32, base: nat, prec: Option<int>, width: nat, f: Flags, t: string)
    requires Integer11(c) && m.length.Plain? && v < 0x8000_0000 && base == Base11(c)
    requires prec == CountOf(m.prec) && width == WidthOf(m.width) && f == Counting(m, c)
    requires t == CodeField(v, false, base, prec, width, f)
    ensures Render(Alone(m, c), 0, AllArgs(m, Word32(v)), 0) == Some(t)
  {
    NumberShows(m, c, Word32(v), v, v, f, t);
  }

  // ---------- numbers: what the code prints, and what C11 asks for ----------

  lemma LeftIgnoresPrecisionText()
    ensures CodeField(7, false, 10, Some(3), 5, LEFT) == "7    "
  {
    assert Numeral(7, 10, BUF, false) == "7";
    assert Zeros(2) == "00" && Spaces(2) == "  " && Spaces(4) == "    ";
  }

  lemma LeftIgnoresPrecisionText11()
    ensures Field11(7, false, 10, Some(3), 5, LEFT) == "007  "
  {
    assert Expand(7, 10, false) == "7" by { assert Expand(0, 10, false) == ""; }
    assert Zeros(2) == "00" && Spaces(2) == "  " && Spaces(4) == "    ";
  }

  lemma LeftIgnoresPrecisionFormat(m: Meant)
    requires m == Meant("-", Number(5), Number(3), Plain)
    ensures Alone(m, 'd') == "%-5.3d"
    ensures AllArgs(m, Word32(7)) == [Word32(7)] && Counting(m, 'd') == LEFT
  {
    OneDigit(5);
    OneDigit(3);
  }

  /** `%-5.3d` of 7 prints one digit, not three. */
  lemma LeftIgnoresPrecision()
    ensures Render("%-5.3d", 0, [Word32(7)], 0) == Some("7    ")
    ensures Field11(7, false, 10, Some(3), 5, LEFT) == "007  "
  {
    var m := Meant("-", Number(5), Number(3), Plain);
    LeftIgnoresPrecisionFormat(m);
    LeftIgnoresPrecisionText();
    SmallShows(m, 'd', 7, 10, Some(3), 5, LEFT, "7    ");
    LeftIgnoresPrecisionText11();
  }

  lemma PlusIsLostText()
    ensures CodeField(1, false, 10, Some(32), 40, PLUS) == Spaces(8) + (Zeros(31) + "1")
  {
    assert Numeral(1, 10, BUF, false) == "1";
  }

  lemma PlusIsLostText11()
    ensures Field11(1, false, 10, Some(32), 40, PLUS) == Spaces(7) + "+" + (Zeros(31) + "1")
  {
    assert Expand(1, 10, false) == "1" by { assert Expand(0, 10, false) == ""; }
  }

  lemma PlusIsLostFormat(m: Meant)
    requires m == Meant("+", Number(40), Number(32), Plain)
    ensures Alone(m, 'd') == "%+40.32d"
    ensures AllArgs(m, Word32(1)) == [Word32(1)] && Counting(m, 'd') == PLUS
  {
    TwoDigits(40);
    TwoDigits(32);
  }

  /** `%+40.32d` of 1 prints no plus sign. */
  lemma PlusIsLost()
    ensures Render("%+40.32d", 0, [Word32(1)], 0) == Some(Spaces(8) + (Zeros(31) + "1"))
    ensures Field11(1, false, 10, Some(32), 40, PLUS) == Spaces(7) + "+" + (Zeros(31) + "1")
  {
    var m := Meant("+", Number(40), Number(32), Plain);
    PlusIsLostFormat(m);
    PlusIsLostText();
    SmallShows(m, 'd', 1, 10, Some(32), 40, PLUS, Spaces(8) + (Zeros(31) + "1"));
    PlusIsLostText11();
  }

  lemma SignIsLostText()
    ensures CodeField(1, true, 10, Some(32), 0, NO_FLAGS) == Zeros(31) + "1"
  {
    assert Numeral(1, 10, BUF, false) == "1";
  }

  lemma SignIsLostText11()
    ensures Field11(1, true, 10, Some(32), 0, NO_FLAGS) == "-" + (Zeros(31) + "1")
  {
    assert Expand(1, 10, false) == "1" by { assert Expand(0, 10, false) == ""; }
  }

  /** `%.32d` of -1 prints no minus sign. */
  lemma SignIsLost()
    ensures Render("%.32d", 0, [Word32(0xffff_ffff)], 0) == Some(Zeros(31) + "1")
    ensures Field11(1, true, 10, Some(32), 0, NO_FLAGS) == "-" + (Zeros(31) + "1")
  {
    var m := Meant("", Omitted, Number(32), Plain);
    assert Alone(m, 'd') == "%.32d" by {
      TwoDigits(32);
    }
    assert AllArgs(m, Word32(0xffff_ffff)) == [Word32(0xffff_ffff)];
    SignIsLostText();
    NumberShows(m, 'd', Word32(0xffff_ffff), -1, 1, NO_FLAGS, Zeros(31) + "1");
    SignIsLostText11();
  }

  lemma DigitsAreLimitedText()
    ensures CodeField(1, false, 10, Some(33), 0, NO_FLAGS) == Zeros(31) + "1"
  {
    assert Numeral(1, 10, BUF, false) == "1";
  }

  lemma DigitsAreLimitedText11()
    ensures Field11(1, false, 10, Some(33), 0, NO_FLAGS) == Zeros(32) + "1"
  {
    assert Expand(1, 10, false) == "1" by { assert Expand(0, 10, false) == ""; }
  }

  lemma DigitsAreLimitedFormat(m: Meant)
    requires m == Meant("", Omitted, Number(33), Plain)
    ensures Alone(m, 'u') == "%.33u"
    ensures AllArgs(m, Word32(1)) == [Word32(1)] && Counting(m, 'u') == NO_FLAGS
  {
    TwoDigits(33);
  }

  /** `%.33u` of 1 prints 32 digits. */
  lemma DigitsAreLimited()
    ensures Render("%.33u", 0, [Word32(1)], 0) == Some(Zeros(31) + "1")
    ensures Field11(1, false, 10, Some(33), 0, NO_FLAGS) == Zeros(32) + "1"
  {
    var m := Meant("", Omitted, Number(33), Plain);
    DigitsAreLimitedFormat(m);
    DigitsAreLimitedText();
    SmallShows(m, 'u', 1, 10, Some(33), 0, NO_FLAGS, Zeros(31) + "1");
    DigitsAreLimitedText11();
  }

  lemma ZerosAreLimitedText()
    ensures CodeField(1, false, 10, None, 33, ZERO) == Zeros(31) + "1"
  {
    assert Numeral(1, 10, BUF, false) == "1";
  }

  lemma ZerosAreLimitedText11()
    ensures Field11(1, false, 10, None, 33, ZERO) == Zeros(32) + "1"
  {
    assert Expand(1, 10, false) == "1" by { assert Expand(0, 10, false) == ""; }
  }

  lemma ZerosAreLimitedFormat(m: Meant)
    requires m == Meant("0", Number(33), Omitted, Plain)
    ensures Alone(m, 'u') == "%033u"
    ensures AllArgs(m, Word32(1)) == [Word32(1)] && Counting(m, 'u') == ZERO
  {
    TwoDigits(33);
  }

  /** `%033u` of 1 prints 32 characters. */
  lemma ZerosAreLimited()
    ensures Render("%033u", 0, [Word32(1)], 0) == Some(Zeros(31) + "1")
    ensures Field11(1, false, 10, None, 33, ZERO) == Zeros(32) + "1"
  {
    var m := Meant("0", Number(33), Omitted, Plain);
    ZerosAreLimitedFormat(m);
    ZerosAreLimitedText();
    SmallShows(m, 'u', 1, 10, None, 33, ZERO, Zeros(31) + "1");
    ZerosAreLimitedText11();
  }

  lemma NegativePrecisionStopsZerosText()
    ensures CodeField(7, false, 10, Some(-1), 2, ZERO) == " 7"
  {
    assert Numeral(7, 10, BUF, false) == "7";
    assert Zeros(1) == "0" && Spaces(1) == " ";
  }

  lemma NegativePrecisionStopsZerosText11()
    ensures Field11(7, false, 10, Some(-1), 2, ZERO) == "07"
  {
    assert Expand(7, 10, false) == "7" by { assert Expand(0, 10, false) == ""; }
    assert Zeros(1) == "0" && Spaces(1) == " ";
  }

  lemma NegativePrecisionStopsZerosFormat(m: Meant)
    requires m == Meant("0", Number(2), Star(-1), Plain)
    ensures Alone(m, 'u') == "%02.*u"
    ensures AllArgs(m, Word32(7)) == [Word32(0xffff_ffff), Word32(7)] && Counting(m, 'u') == ZERO
  {
    OneDigit(2);
  }

  /** `%02.*u` of 7 with precision -1 pads with a space. */
  lemma NegativePrecisionStopsZeros()
    ensures Render("%02.*u", 0, [Word32(0xffff_ffff), Word32(7)], 0) == Some(" 7")
    ensures Field11(7, false, 10, Some(-1), 2, ZERO) == "07"
  {
    var m := Meant("0", Number(2), Star(-1), Plain);
    NegativePrecisionStopsZerosFormat(m);
    NegativePrecisionStopsZerosText();
    SmallShows(m, 'u', 7, 10, Some(-1), 2, ZERO, " 7");
    NegativePrecisionStopsZerosText11();
  }

  lemma NegativePrecisionHidesZeroText()
    ensures CodeField(0, false, 10, Some(-1), 0, NO_FLAGS) == ""
  {
    assert Zeros(1) == "0";
  }

  lemma NegativePrecisionHidesZeroText11()
    ensures Field11(0, false, 10, Some(-1), 0, NO_FLAGS) == "0"
  {
    assert Zeros(1) == "0";
  }

  lemma NegativePrecisionHidesZeroFormat(m: Meant)
    requires m == Meant("", Omitted, Star(-1), Plain)
    ensures Alone(m, 'u') == "%.*u"
    ensures AllArgs(m, Word32(0)) == [Word32(0xffff_ffff), Word32(0)] && Counting(m, 'u') == NO_FLAGS
  {
  }

  /** `%.*u` of 0 with precision -1 prints nothing. */
  lemma NegativePrecisionHidesZero()
    ensures Render("%.*u", 0, [Word32(0xffff_ffff), Word32(0)], 0) == Some("")
    ensures Field11(0, false, 10, Some(-1), 0, NO_FLAGS) == "0"
  {
    var m := Meant("", Omitted, Star(-1), Plain);
    NegativePrecisionHidesZeroFormat(m);
    NegativePrecisionHidesZeroText();
    SmallShows(m, 'u', 0, 10, Some(-1), 0, NO_FLAGS, "");
    NegativePrecisionHidesZeroText11();
  }

  lemma HexDigitsAreLostText()
    ensures CodeField(0xa5, false, 16, None, 2, HASH) == "0x"
  {
    assert Numeral(10, 16, BUF - 1, false) == "a";
    assert Numeral(0xa5, 16, BUF, false) == "a5";
    assert Dropped("a5", 16, 0, 2, HASH) == "";
    assert Hashed("a5", 16, 0, 2, HASH) == "0x";
  }

  lemma HexDigitsAreLostText11()
    ensures Field11(0xa5, false, 16, None, 2, HASH) == "0xa5"
  {
    HexExpands();
  }

  lemma HexDigitsAreLostFormat(m: Meant)
    requires m == Meant("#", Number(2), Omitted, Plain)
    ensures Alone(m, 'x') == "%#2x"
    ensures AllArgs(m, Word32(0xa5)) == [Word32(0xa5)] && Counting(m, 'x') == HASH
  {
    OneDigit(2);
  }

  /** `%#2x` of 0xa5 prints the prefix and none of the digits. */
  lemma HexDigitsAreLost()
    ensures Render("%#2x", 0, [Word32(0xa5)], 0) == Some("0x")
    ensures Field11(0xa5, false, 16, None, 2, HASH) == "0xa5"
  {
    var m := Meant("#", Number(2), Omitted, Plain);
    HexDigitsAreLostFormat(m);
    HexDigitsAreLostText();
    SmallShows(m, 'x', 0xa5, 16, None, 2, HASH, "0x");
    HexDigitsAreLostText11();
  }

  lemma HexDigitIsLostText()
    ensures CodeField(0xa5, false, 16, None, 3, ZERO_HASH) == "0x5"
  {
    assert Numeral(10, 16, BUF - 1, false) == "a";
    assert Numeral(0xa5, 16, BUF, false) == "a5";
    assert Zeros(1) + "a5" == "0a5";
    assert Dropped("0a5", 16, 0, 3, ZERO_HASH) == "5";
    assert Hashed("0a5", 16, 0, 3, ZERO_HASH) == "0x5";
  }

  lemma HexDigitIsLostText11()
    ensures Field11(0xa5, false, 16, None, 3, ZERO_HASH) == "0xa5"
  {
    HexExpands();
    assert Zeros(1) + "a5" == "0a5";
  }

  lemma HexDigitIsLostFormat(m: Meant)
    requires m == Meant("0#", Number(3), Omitted, Plain)
    ensures Alone(m, 'x') == "%0#3x"
    ensures AllArgs(m, Word32(0xa5)) == [Word32(0xa5)] && Counting(m, 'x') == ZERO_HASH
  {
    OneDigit(3);
  }

  /** `%0#3x` of 0xa5 loses a digit with the zero before it. */
  lemma HexDigitIsLost()
    ensures Render("%0#3x", 0, [Word32(0xa5)], 0) == Some("0x5")
    ensures Field11(0xa5, false, 16, None, 3, ZERO_HASH) == "0xa5"
  {
    var m := Meant("0#", Number(3), Omitted, Plain);
    HexDigitIsLostFormat(m);
    HexDigitIsLostText();
    SmallShows(m, 'x', 0xa5, 16, None, 3, ZERO_HASH, "0x5");
    HexDigitIsLostText11();
  }

  lemma HexZerosCrowdPrefixText()
    ensures CodeField(0xa5, false, 16, None, 33, ZERO_HASH) == Zeros(30) + "a5"
  {
    assert Numeral(10, 16, BUF - 1, false) == "a";
    assert Numeral(0xa5, 16, BUF, false) == "a5";
  }

  lemma HexZerosCrowdPrefixText11()
    ensures Field11(0xa5, false, 16, None, 33, ZERO_HASH) == "0x" + (Zeros(29) + "a5")
  {
    HexExpands();
  }

  lemma HexZerosCrowdPrefixFormat(m: Meant)
    requires m == Meant("0#", Number(33), Omitted, Plain)
    ensures Alone(m, 'x') == "%0#33x"
    ensures AllArgs(m, Word32(0xa5)) == [Word32(0xa5)] && Counting(m, 'x') == ZERO_HASH
  {
    TwoDigits(33);
  }

  /** `%0#33x` of 0xa5 prints no prefix. */
  lemma HexZerosCrowdPrefix()
    ensures Render("%0#33x", 0, [Word32(0xa5)], 0) == Some(Zeros(30) + "a5")
    ensures Field11(0xa5, false, 16, None, 33, ZERO_HASH) == "0x" + (Zeros(29) + "a5")
  {
    var m := Meant("0#", Number(33), Omitted, Plain);
    HexZerosCrowdPrefixFormat(m);
    HexZerosCrowdPrefixText();
    SmallShows(m, 'x', 0xa5, 16, None, 33, ZERO_HASH, Zeros(30) + "a5");
    HexZerosCrowdPrefixText11();
  }

  lemma HexPrecisionCrowdsPrefixText()
    ensures CodeField(0xa5, false, 16, Some(31), 0, HASH) == "x" + (Zeros(29) + "a5")
  {
    assert Numeral(10, 16, BUF - 1, false) == "a";
    assert Numeral(0xa5, 16, BUF, false) == "a5";
  }

  lemma HexPrecisionCrowdsPrefixText11()
    ensures Field11(0xa5, false, 16, Some(31), 0, HASH) == "0x" + (Zeros(29) + "a5")
  {
    HexExpands();
  }

  lemma HexPrecisionCrowdsPrefixFormat(m: Meant)
    requires m == Meant("#", Omitted, Number(31), Plain)
    ensures Alone(m, 'x') == "%#.31x"
    ensures AllArgs(m, Word32(0xa5)) == [Word32(0xa5)] && Counting(m, 'x') == HASH
  {
    TwoDigits(31);
  }

  /** `%#.31x` of 0xa5 prints half of the prefix. */
  lemma HexPrecisionCrowdsPrefix()
    ensures Render("%#.31x", 0, [Word32(0xa5)], 0) == Some("x" + (Zeros(29) + "a5"))
    ensures Field11(0xa5, false, 16, Some(31), 0, HASH) == "0x" + (Zeros(29) + "a5")
  {
    var m := Meant("#", Omitted, Number(31), Plain);
    HexPrecisionCrowdsPrefixFormat(m);
    HexPrecisionCrowdsPrefixText();
    SmallShows(m, 'x', 0xa5, 16, Some(31), 0, HASH, "x" + (Zeros(29) + "a5"));
    HexPrecisionCrowdsPrefixText11();
  }

  lemma HexLeftIgnoresPrecisionText()
    ensures CodeField(0xa5, false, 16, Some(5), 0, LEFT_HASH) == "0xa5"
  {
    assert Numeral(10, 16, BUF - 1, false) == "a";
    assert Numeral(0xa5, 16, BUF, false) == "a5";
    assert Zeros(3) + "a5" == "000a5";
    assert Hashed("a5", 16, 5, 0, KeptFlags(Some(5), LEFT_HASH)) == "0xa5";
  }

  lemma HexLeftIgnoresPrecisionText11()
    ensures Field11(0xa5, false, 16, Some(5), 0, LEFT_HASH) == "0x000a5"
  {
    HexExpands();
    assert Zeros(3) + "a5" == "000a5";
  }

  lemma HexLeftIgnoresPrecisionFormat(m: Meant)
    requires m == Meant("-#", Omitted, Number(5), Plain)
    ensures Alone(m, 'x') == "%-#.5x"
    ensures AllArgs(m, Word32(0xa5)) == [Word32(0xa5)] && Counting(m, 'x') == LEFT_HASH
  {
    OneDigit(5);
  }

  /** `%-#.5x` of 0xa5 prints two digits, not five. */
  lemma HexLeftIgnoresPrecision()
    ensures Render("%-#.5x", 0, [Word32(0xa5)], 0) == Some("0xa5")
    ensures Field11(0xa5, false, 16, Some(5), 0, LEFT_HASH) == "0x000a5"
  {
    var m := Meant("-#", Omitted, Number(5), Plain);
    HexLeftIgnoresPrecisionFormat(m);
    HexLeftIgnoresPrecisionText();
    SmallShows(m, 'x', 0xa5, 16, Some(5), 0, LEFT_HASH, "0xa5");
    HexLeftIgnoresPrecisionText11();
  }

  lemma BinaryZeroIsKeptText()
    ensures CodeField(2, false, 2, None, 4, ZERO_HASH) == "0b010"
  {
    assert Numeral(1, 2, BUF - 1, false) == "1";
    assert Numeral(2, 2, BUF, false) == "10";
    assert Zeros(2) + "10" == "0010";
    assert Dropped("0010", 2, 0, 4, ZERO_HASH) == "010";
    assert Hashed("0010", 2, 0, 4, ZERO_HASH) == "0b010";
  }

  lemma BinaryZeroIsKeptText11()
    ensures Field11(2, false, 2, None, 4, ZERO_HASH) == "0b10"
  {
    assert Expand(0, 2, false) == "" && Expand(1, 2, false) == "1" && Expand(2, 2, false) == "10";
    assert Zeros(2) + "10" == "0010";
  }

  lemma BinaryZeroIsKeptFormat(m: Meant)
    requires m == Meant("0#", Number(4), Omitted, Plain)
    ensures Alone(m, 'b') == "%0#4b"
    ensures AllArgs(m, Word32(2)) == [Word32(2)] && Counting(m, 'b') == ZERO_HASH
  {
    OneDigit(4);
  }

  /** `%0#4b` of 2 prints five characters, because it makes room for one of the two of the prefix. */
  lemma BinaryZeroIsKept()
    ensures Render("%0#4b", 0, [Word32(2)], 0) == Some("0b010")
    ensures Field11(2, false, 2, None, 4, ZERO_HASH) == "0b10"
  {
    var m := Meant("0#", Number(4), Omitted, Plain);
    BinaryZeroIsKeptFormat(m);
    BinaryZeroIsKeptText();
    SmallShows(m, 'b', 2, 2, None, 4, ZERO_HASH, "0b010");
    BinaryZeroIsKeptText11();
  }

  lemma OctalDigitIsLostText()
    ensures CodeField(8, false, 8, None, 2, HASH) == "00"
  {
    assert Numeral(1, 8, BUF - 1, false) == "1";
    assert Numeral(8, 8, BUF, false) == "10";
    assert Dropped("10", 8, 0, 2, HASH) == "0";
    assert Hashed("10", 8, 0, 2, HASH) == "00";
  }

  lemma OctalDigitIsLostText11()
    ensures Field11(8, false, 8, None, 2, HASH) == "010"
  {
    OctExpands();
  }

  lemma OctalDigitIsLostFormat(m: Meant)
    requires m == Meant("#", Number(2), Omitted, Plain)
    ensures Alone(m, 'o') == "%#2o" && AllArgs(m, Word32(8)) == [Word32(8)] && Counting(m, 'o') == HASH
  {
    OneDigit(2);
  }

  /** `%#2o` of 8 loses a digit. */
  lemma OctalDigitIsLost()
    ensures Render("%#2o", 0, [Word32(8)], 0) == Some("00")
    ensures Field11(8, false, 8, None, 2, HASH) == "010"
  {
    var m := Meant("#", Number(2), Omitted, Plain);
    OctalDigitIsLostFormat(m);
    OctalDigitIsLostText();
    SmallShows(m, 'o', 8, 8, None, 2, HASH, "00");
    OctalDigitIsLostText11();
  }

  lemma OctalZeroTooManyText()
    ensures CodeField(8, false, 8, Some(5), 0, HASH) == "000010"
  {
    assert Numeral(1, 8, BUF - 1, false) == "1";
    assert Numeral(8, 8, BUF, false) == "10";
    assert Zeros(3) + "10" == "00010";
    assert Hashed("00010", 8, 5, 0, KeptFlags(Some(5), HASH)) == "000010";
  }

  lemma OctalZeroTooManyText11()
    ensures Field11(8, false, 8, Some(5), 0, HASH) == "00010"
  {
    OctExpands();
    assert Zeros(3) + "10" == "00010";
  }

  lemma OctalZeroTooManyFormat(m: Meant)
    requires m == Meant("#", Omitted, Number(5), Plain)
    ensures Alone(m, 'o') == "%#.5o"
    ensures AllArgs(m, Word32(8)) == [Word32(8)] && Counting(m, 'o') == HASH
  {
    OneDigit(5);
  }

  /** `%#.5o` of 8 prints a zero that is not necessary. */
  lemma OctalZeroTooMany()
    ensures Render("%#.5o", 0, [Word32(8)], 0) == Some("000010")
    ensures Field11(8, false, 8, Some(5), 0, HASH) == "00010"
  {
    var m := Meant("#", Omitted, Number(5), Plain);
    OctalZeroTooManyFormat(m);
    OctalZeroTooManyText();
    SmallShows(m, 'o', 8, 8, Some(5), 0, HASH, "000010");
    OctalZeroTooManyText11();
  }

  lemma OctalZeroMissingText()
    ensures CodeField(0, false, 8, Some(0), 0, HASH) == ""
  {
  }

  lemma OctalZeroMissingText11()
    ensures Field11(0, false, 8, Some(0), 0, HASH) == "0"
  {
  }

  lemma OctalZeroMissingFormat(m: Meant)
    requires m == Meant("#", Omitted, Number(0), Plain)
    ensures Alone(m, 'o') == "%#.0o"
    ensures AllArgs(m, Word32(0)) == [Word32(0)] && Counting(m, 'o') == HASH
  {
    OneDigit(0);
  }

  /** `%#.0o` of 0 prints nothing. */
  lemma OctalZeroMissing()
    ensures Render("%#.0o", 0, [Word32(0)], 0) == Some("")
    ensures Field11(0, false, 8, Some(0), 0, HASH) == "0"
  {
    var m := Meant("#", Omitted, Number(0), Plain);
    OctalZeroMissingFormat(m);
    OctalZeroMissingText();
    SmallShows(m, 'o', 0, 8, Some(0), 0, HASH, "");
    OctalZeroMissingText11();
  }

  lemma HexNegativePrecisionStopsZerosText()
    ensures CodeField(0xa5, false, 16, Some(-1), 5, ZERO_HASH) == " 0xa5"
  {
    assert Numeral(10, 16, BUF - 1, false) == "a";
    assert Numeral(0xa5, 16, BUF, false) == "a5";
    assert Zeros(1) + "a5" == "0a5" && Spaces(1) == " ";
    assert Hashed("a5", 16, 0, 5, KeptFlags(Some(-1), ZERO_HASH)) == "0xa5";
  }

  lemma HexNegativePrecisionStopsZerosText11()
    ensures Field11(0xa5, false, 16, Some(-1), 5, ZERO_HASH) == "0x0a5"
  {
    HexExpands();
    assert Zeros(1) + "a5" == "0a5" && Spaces(1) == " ";
  }

  lemma HexNegativePrecisionStopsZerosFormat(m: Meant)
    requires m == Meant("0#", Number(5), Star(-1), Plain)
    ensures Alone(m, 'x') == "%0#5.*x"
    ensures AllArgs(m, Word32(0xa5)) == [Word32(0xffff_ffff), Word32(0xa5)] && Counting(m, 'x') == ZERO_HASH
  {
    OneDigit(5);
  }

  /** `%0#5.*x` of 0xa5 with precision -1 pads with a space. */
  lemma HexNegativePrecisionStopsZeros()
    ensures Render("%0#5.*x", 0, [Word32(0xffff_ffff), Word32(0xa5)], 0) == Some(" 0xa5")
    ensures Field11(0xa5, false, 16, Some(-1), 5, ZERO_HASH) == "0x0a5"
  {
    var m := Meant("0#", Number(5), Star(-1), Plain);
    HexNegativePrecisionStopsZerosFormat(m);
    HexNegativePrecisionStopsZerosText();
    SmallShows(m, 'x', 0xa5, 16, Some(-1), 5, ZERO_HASH, " 0xa5");
    HexNegativePrecisionStopsZerosText11();
  }

  lemma OctalZerosAreLimitedText()
    ensures CodeField(8, false, 8, None, 33, ZERO_HASH) == Zeros(30) + "10"
  {
    assert Numeral(1, 8, BUF - 1, false) == "1";
    assert Numeral(8, 8, BUF, false) == "10";
    assert Zeros(30) + ("0" + "10") == Zeros(31) + "10";
  }

  lemma OctalZerosAreLimitedText11()
    ensures Field11(8, false, 8, None, 33, ZERO_HASH) == Zeros(31) + "10"
  {
    OctExpands();
    assert Zeros(30) + ("0" + "10") == Zeros(31) + "10";
  }

  lemma OctalZerosAreLimitedFormat(m: Meant)
    requires m == Meant("0#", Number(33), Omitted, Plain)
    ensures Alone(m, 'o') == "%0#33o"
    ensures AllArgs(m, Word32(8)) == [Word32(8)] && Counting(m, 'o') == ZERO_HASH
  {
    TwoDigits(33);
  }

  /** `%0#33o` of 8 prints 32 characters. */
  lemma OctalZerosAreLimited()
    ensures Render("%0#33o", 0, [Word32(8)], 0) == Some(Zeros(30) + "10")
    ensures Field11(8, false, 8, None, 33, ZERO_HASH) == Zeros(31) + "10"
  {
    var m := Meant("0#", Number(33), Omitted, Plain);
    OctalZerosAreLimitedFormat(m);
    OctalZerosAreLimitedText();
    SmallShows(m, 'o', 8, 8, None, 33, ZERO_HASH, Zeros(30) + "10");
    OctalZerosAreLimitedText11();
  }

  lemma OctalNegativePrecisionStopsZerosText()
    ensures CodeField(8, false, 8, Some(-1), 4, ZERO_HASH) == " 010"
  {
    assert Numeral(1, 8, BUF - 1, false) == "1";
    assert Numeral(8, 8, BUF, false) == "10";
    assert Zeros(1) == "0" && Spaces(1) == " ";
    assert Hashed("10", 8, 0, 4, KeptFlags(Some(-1), ZERO_HASH)) == "010";
  }

  lemma OctalNegativePrecisionStopsZerosText11()
    ensures Field11(8, false, 8, Some(-1), 4, ZERO_HASH) == "0010"
  {
    OctExpands();
    assert Zeros(1) == "0" && Spaces(1) == " ";
  }

  lemma OctalNegativePrecisionStopsZerosFormat(m: Meant)
    requires m == Meant("0#", Number(4), Star(-1), Plain)
    ensures Alone(m, 'o') == "%0#4.*o"
    ensures AllArgs(m, Word32(8)) == [Word32(0xffff_ffff), Word32(8)] && Counting(m, 'o') == ZERO_HASH
  {
    OneDigit(4);
  }

  /** `%0#4.*o` of 8 with precision -1 pads with a space. */
  lemma OctalNegativePrecisionStopsZeros()
    ensures Render("%0#4.*o", 0, [Word32(0xffff_ffff), Word32(8)], 0) == Some(" 010")
    ensures Field11(8, false, 8, Some(-1), 4, ZERO_HASH) == "0010"
  {
    var m := Meant("0#", Number(4), Star(-1), Plain);
    OctalNegativePrecisionStopsZerosFormat(m);
    OctalNegativePrecisionStopsZerosText();
    SmallShows(m, 'o', 8, 8, Some(-1), 4, ZERO_HASH, " 010");
    OctalNegativePrecisionStopsZerosText11();
  }

  lemma OctalLeftIgnoresPrecisionText()
    ensures CodeField(8, false, 8, Some(5), 0, LEFT_HASH) == "010"
  {
    assert Numeral(1, 8, BUF - 1, false) == "1";
    assert Numeral(8, 8, BUF, false) == "10";
    assert Zeros(3) + "10" == "00010";
    assert Hashed("10", 8, 5, 0, KeptFlags(Some(5), LEFT_HASH)) == "010";
  }

  lemma OctalLeftIgnoresPrecisionText11()
    ensures Field11(8, false, 8, Some(5), 0, LEFT_HASH) == "00010"
  {
    OctExpands();
    assert Zeros(3) + "10" == "00010";
  }

  lemma OctalLeftIgnoresPrecisionFormat(m: Meant)
    requires m == Meant("-#", Omitted, Number(5), Plain)
    ensures Alone(m, 'o') == "%-#.5o"
    ensures AllArgs(m, Word32(8)) == [Word32(8)] && Counting(m, 'o') == LEFT_HASH
  {
    OneDigit(5);
  }

  /** `%-#.5o` of 8 prints three digits, not five. */
  lemma OctalLeftIgnoresPrecision()
    ensures Render("%-#.5o", 0, [Word32(8)], 0) == Some("010")
    ensures Field11(8, false, 8, Some(5), 0, LEFT_HASH) == "00010"
  {
    var m := Meant("-#", Omitted, Number(5), Plain);
    OctalLeftIgnoresPrecisionFormat(m);
    OctalLeftIgnoresPrecisionText();
    SmallShows(m, 'o', 8, 8, Some(5), 0, LEFT_HASH, "010");
    OctalLeftIgnoresPrecisionText11();
  }

  /** `%lb` of 2 to the 32 reads as 0. */
  lemma HighBitIsLost()
    ensures var text := Render("%lb", 0, [Word64(0x1_0000_0000)], 0);
            text.Some? && ReadInt(text.value, 2) == (false, 0)
  {
    var m, v := Meant("", Omitted, Omitted, L), 0x1_0000_0000;
    assert Alone(m, 'b') == "%lb";
    assert AllArgs(m, Word64(v)) == [Word64(v)];
    NumberPrints(m, 'b', Word64(v), v);
    Pow32();
    FieldReads(v, false, 2, 0, 0, IntFlags('b', MeantFlags(m)));
  }

  /** `%#b` of 2 to the 32 less 1 prints no 0b. */
  lemma BinaryPrefixIsLost()
    ensures var text := Render("%#b", 0, [Word32(0xffff_ffff)], 0);
            text.Some? && ReadMarked(text.value, 'b', 2) != Some(0xffff_ffff)
  {
    var m, v := Meant("#", Omitted, Omitted, Plain), 0xffff_ffff;
    assert Alone(m, 'b') == "%#b";
    assert AllArgs(m, Word32(v)) == [Word32(v)];
    NumberPrints(m, 'b', Word32(v), v);
    AllBits();
    BinaryPrefix(v, 0, 0, IntFlags('b', MeantFlags(m)));
  }

  lemma AllBits()
    ensures |Numeral(0xffff_ffff, 2, BUF, false)| == 32
  {
    var v := 0xffff_ffff;
    var t := Numeral(v, 2, BUF, false);
    Pow32();
    NumeralDigits(v, 2, BUF, false);
    ExactExactlyBelow(v, 2, BUF, false);
    ValueBound(t, 2);
    assert Pow(2, 32) == 2 * Pow(2, 31);
    if |t| < 32 {
      PowGrows(2, |t|, 31);
    }
  }

  // ---------- strings ----------

  /** `%.*s` of "abc" with precision -1 prints nothing. */
  lemma NegativePrecisionHidesText()
    ensures Render("%.*s", 0, [Word32(0xffff_ffff), Text("abc")], 0) == Some("")
    ensures String11("abc", Some(-1), 0, false) == "abc"
  {
    var m := Meant("", Omitted, Star(-1), Plain);
    assert Alone(m, 's') == "%.*s";
    assert AllArgs(m, Text("abc")) == [Word32(0xffff_ffff), Text("abc")];
    TextPrints(m, "abc");
    assert CodeString("abc", Some(-1), 0, MeantFlags(m)) == "";
    AbcIsText();
  }

  lemma AbcIsText()
    ensures CStr("abc") == "abc"
  {
    assert "abc"[1..] == "bc" && "bc"[1..] == "c" && "c"[1..] == "";
    assert CStr("c") == "c";
    assert CStr("bc") == "bc";
  }

  /** `%1s` of any text of 4 GiB prints a space before it. */
  lemma CounterWraps(s: string, t: string)
    requires CharsOf(s, t) && |t| == 0x1_0000_0000
    ensures Render("%1s", 0, [Text(s)], 0) == Some(" " + t)
    ensures String11(t, None, 1, false) == t
  {
    var m := Meant("", Number(1), Omitted, Plain);
    assert Alone(m, 's') == "%1s" by {
      OneDigit(1);
    }
    assert AllArgs(m, Text(s)) == [Text(s)];
    TextPrints(m, s);
    CharsAre(s, t);
    CountIs(s, 0, MeantFlags(m));
    assert Spaces(1) == " " && "" + t == t;
  }

  // ---------- ranges ----------

  /** One byte that is not at the start of a page makes a range that is out of order: the loop of `map`
      starts beyond the page it is to end at, and never succeeds. */
  lemma RangeOutOfOrder(s: State)
    ensures FirstOf(1) == 1 && LastOf(1, 1) == 0 && !CanMap(s, FirstOf(1), LastOf(1, 1))
  {
  }
}
