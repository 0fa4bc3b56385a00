/** Inputs on which the engine's output is not the standard's, or does not read back: the
    conditions of Conformance, RoundTrip, OmittedPrecision and Directives at work. */
module Departures {
  import opened Text
  import opened Numerals
  import opened Format
  import opened Arguments
  import opened IntegerField
  import opened Standard
  import opened StandardFormat
  import opened Conformance
  import opened RoundTrip
  import opened Denotation
  import opened Directives
  import opened FormatConformance

  const PRECISE := NO_FLAGS.(precision := true)
  const HASH := NO_FLAGS.(hash := true)
  const ZERO := NO_FLAGS.(zeropad := true)

  // ----- Numerals -----

  lemma {:induction false} BinaryPower(k: nat)
    ensures Power(2, k) > 0 && Digits(Power(2, k), 2, false) == "1" + Repeat('0', k)
  {
    hide Quot, Rem, Digits, Repeat;
    if k == 0 {
      OneDigitText(1, 2);
      assert "1" + Repeat('0', 0) == "1" by { NoneRepeated('0', 0); }
    } else {
      BinaryPower(k - 1);
      var p := Power(2, k - 1);
      TimesIs(p, 2);
      Doubled(p);
      RepeatJoin('0', k - 1, 1);
      OneRepeated('0');
      assert ("1" + Repeat('0', k - 1)) + "0" == "1" + (Repeat('0', k - 1) + "0");
    }
  }

  lemma Doubled(p: nat)
    requires p > 0
    ensures Digits(2 * p, 2, false) == Digits(p, 2, false) + "0"
  {
    assert Quot(2 * p, 2) == p && Rem(2 * p, 2) == 0;
  }

  lemma OneDigitText(v: nat, base: nat)
    requires 2 <= base <= 16 && v < base
    ensures Digits(v, base, false) == [DigitChar(v, false)]
  {
  }

  lemma HexDigits()
    ensures Digits(0x1234, 16, false) == "1234"
  {
    assert Digits(1, 16, false) == "1";
    assert Digits(0x12, 16, false) == "12" by { QuotRemIs(0x12); }
    assert Digits(0x123, 16, false) == "123" by { QuotRemIs(0x123); }
    QuotRemIs(0x1234);
  }

  lemma QuotRemIs(v: nat)
    ensures Quot(v, 16) == v / 16 && Rem(v, 16) == v % 16
  {
  }

  lemma OctalEight()
    ensures Digits(8, 8, false) == "10"
  {
    assert Digits(1, 8, false) == "1";
    assert Quot(8, 8) == 1 && Rem(8, 8) == 0;
  }

  lemma BinaryFive()
    ensures Digits(5, 2, false) == "101"
  {
    assert Digits(1, 2, false) == "1";
    assert Quot(2, 2) == 1 && Rem(2, 2) == 0;
    assert Digits(2, 2, false) == "10";
    assert Quot(5, 2) == 2 && Rem(5, 2) == 1;
  }

  // ----- Fields that no blanks surround -----

  lemma EngineTight(value: nat, negative: bool, base: nat, prec: nat, width: nat, f: Flags, d: string)
    requires 2 <= base <= 16 && Significant(value, base, f) == d && (f.hash ==> value != 0)
    requires var b := Body(Last(d, NTOA_BUFFER), negative, base, prec, width, f);
             (f.zeropad && !f.left) || width <= |AddSign(b, negative, f)|
    ensures EngineText(value, negative, base, prec, width, f) ==
            AddSign(Body(Last(d, NTOA_BUFFER), negative, base, prec, width, f), negative, f)
  {
    hide Body, Justify, AddSign, Significant;
    assert f.(hash := f.hash && value != 0) == f;
    EngineIsJustified(value, negative, base, prec, width, f);
    JustifyTight(AddSign(Body(Last(d, NTOA_BUFFER), negative, base, prec, width, f), negative, f), width, f);
  }

  lemma JustifyTight(t: string, width: nat, f: Flags)
    requires (f.zeropad && !f.left) || width <= |t|
    ensures Justify(t, width, f) == t
  {
  }

  lemma StdTight(value: nat, negative: bool, base: nat, s: Spec)
    requires 2 <= base <= 16
    requires s.width <= |SignText(negative, s) + Prefix(value, base, s)| + |Altered(value, base, s)|
    ensures StdField(value, negative, base, s) ==
            SignText(negative, s) + Prefix(value, base, s) + Altered(value, base, s)
  {
    hide Altered, Prefix;
  }

  // ----- Without a prefix: PlainConforms and SignConforms -----

  /** `%lb` of 2^32: the scratch array keeps 32 digits. */
  lemma BinaryLosesDigits()
    ensures EngineText(0x1_0000_0000, false, 2, 0, 0, NO_FLAGS) == Repeat('0', 32)
    ensures StdField(0x1_0000_0000, false, 2, SpecOf(NO_FLAGS, 0, 0)) == "1" + Repeat('0', 32)
  {
    hide Digits, Repeat, Power, Arrange;
    BinaryPowers();
    BinaryPower(32);
    var d := "1" + Repeat('0', 32);
    assert Last(d, NTOA_BUFFER) == Repeat('0', 32);
    NoneInFront('0', 0 - 32, Repeat('0', 32));
    EngineTight(0x1_0000_0000, false, 2, 0, 0, NO_FLAGS, d);
    NoneInFront('0', 1 - |d|, d);
    StdTight(0x1_0000_0000, false, 2, SpecOf(NO_FLAGS, 0, 0));
  }

  /** The same text reads back as 0. */
  lemma LostDigitReadsZero()
    ensures Read(EngineText(0x1_0000_0000, false, 2, 0, 0, NO_FLAGS), 2) == (false, 0)
  {
    hide Digits, Repeat, Power, EngineText, Read, Value;
    BinaryPowers();
    BinaryPower(32);
    FieldReadsBack(0x1_0000_0000, false, 2, 0, 0, NO_FLAGS);
    assert Last("1" + Repeat('0', 32), NTOA_BUFFER) == Repeat('0', 32);
    ZerosAreZero(32, 2);
  }

  /** `%-.3d` of 7: left justification drops the precision. */
  lemma LeftDropsPrecision()
    ensures EngineText(7, false, 10, 3, 0, PRECISE.(left := true)) == "7"
    ensures StdField(7, false, 10, SpecOf(PRECISE.(left := true), 3, 0)) == "007"
  {
    OneDigitText(7, 10);
    hide Digits;
  }

  /** `%.33d` of 1: at most 32 digits are written. */
  lemma LongPrecisionIsCut()
    ensures EngineText(1, false, 10, 33, 0, PRECISE) == Repeat('0', 31) + "1"
    ensures StdField(1, false, 10, SpecOf(PRECISE, 33, 0)) == Repeat('0', 32) + "1"
  {
    OneDigitText(1, 10);
    hide Digits, Repeat, Arrange;
    EngineTight(1, false, 10, 33, 0, PRECISE, "1");
    StdTight(1, false, 10, SpecOf(PRECISE, 33, 0));
  }

  /** `%033d` of 1: zeros fill no more than 32 characters. */
  lemma WideZerosAreCut()
    ensures EngineText(1, false, 10, 0, 33, ZERO) == Repeat('0', 31) + "1"
    ensures StdField(1, false, 10, SpecOf(ZERO, 0, 33)) == Repeat('0', 32) + "1"
  {
    OneDigitText(1, 10);
    hide Digits, Repeat;
    EngineTight(1, false, 10, 0, 33, ZERO, "1");
    NoneInFront('0', 0, "1");
  }

  /** `%.32d` of -1: a full scratch array loses the minus sign. */
  lemma FullArrayLosesSign()
    ensures EngineText(1, true, 10, 32, 0, PRECISE) == Repeat('0', 31) + "1"
    ensures StdField(1, true, 10, SpecOf(PRECISE, 32, 0)) == "-" + (Repeat('0', 31) + "1")
  {
    OneDigitText(1, 10);
    hide Digits, Repeat, Arrange, Body;
    FullBody();
    EngineTight(1, true, 10, 32, 0, PRECISE, "1");
    StdTight(1, true, 10, SpecOf(PRECISE, 32, 0));
  }

  lemma FullBody()
    ensures Body("1", true, 10, 32, 0, PRECISE) == Repeat('0', 31) + "1"
  {
    hide Repeat;
  }

  /** The same text reads back as 1. */
  lemma LostSignReadsPositive()
    ensures Read(EngineText(1, true, 10, 32, 0, PRECISE), 10) == (false, 1)
  {
    OneDigitText(1, 10);
    hide Digits, Repeat, EngineText, Read, Value;
    FieldReadsBack(1, true, 10, 32, 0, PRECISE);
    OneDigit('1', 10);
  }

  // ----- Octal with `#`: BodyConforms for zero, OctalConforms -----

  /** `%#.0o` of 0: `#` is forgotten for zero, which then has no digit at all. */
  lemma ZeroLosesOctalDigit()
    ensures EngineText(0, false, 8, 0, 0, PRECISE.(hash := true)) == ""
    ensures StdField(0, false, 8, SpecOf(PRECISE.(hash := true), 0, 0)) == "0"
  {
  }

  /** `%#.5o` of 8: the prefix is added although the precision has put a zero in front. */
  lemma OctalGainsZero()
    ensures EngineText(8, false, 8, 5, 0, PRECISE.(hash := true)) == "000010"
    ensures StdField(8, false, 8, SpecOf(PRECISE.(hash := true), 5, 0)) == "00010"
  {
    OctalEight();
    hide Digits, Repeat, Arrange, Altered;
    var f := PRECISE.(hash := true);
    ThreeZeros();
    EngineTight(8, false, 8, 5, 0, f, "10");
    AlteredShape(8, 8, SpecOf(f, 5, 0));
    StdTight(8, false, 8, SpecOf(f, 5, 0));
  }

  lemma ThreeZeros()
    ensures Repeat('0', 3) == "000" && Repeat('0', 2) == "00"
  {
  }

  /** `%-#.4o` of 8: left justification drops the precision. */
  lemma OctalLeftDropsPrecision()
    ensures EngineText(8, false, 8, 4, 0, PRECISE.(hash := true, left := true)) == "010"
    ensures StdField(8, false, 8, SpecOf(PRECISE.(hash := true, left := true), 4, 0)) == "0010"
  {
    OctalEight();
    hide Digits, Repeat, Arrange, Altered;
    var f := PRECISE.(hash := true, left := true);
    ThreeZeros();
    NoneInFront('0', 0 - 2, "10");
    EngineTight(8, false, 8, 4, 0, f, "10");
    AlteredShape(8, 8, SpecOf(f, 4, 0));
    StdTight(8, false, 8, SpecOf(f, 4, 0));
  }

  /** `%#2o` of 8: a digit that fills the width is taken for padding. */
  lemma OctalEatsDigit()
    ensures EngineText(8, false, 8, 0, 2, HASH) == "00"
    ensures StdField(8, false, 8, SpecOf(HASH, 0, 2)) == "010"
  {
    OctalEight();
    hide Digits, Repeat, Arrange, Altered;
    NoneInFront('0', 0 - 2, "10");
    EngineTight(8, false, 8, 0, 2, HASH, "10");
    OneRepeated('0');
    AlteredShape(8, 8, SpecOf(HASH, 0, 2));
    StdTight(8, false, 8, SpecOf(HASH, 0, 2));
  }

  /** `%#033o` of 8: zeros fill no more than 32 characters. */
  lemma OctalWideZerosAreCut()
    ensures EngineText(8, false, 8, 0, 33, ZERO.(hash := true)) == Repeat('0', 30) + "10"
    ensures |StdField(8, false, 8, SpecOf(ZERO.(hash := true), 0, 33))| == 33
  {
    OctalEight();
    hide Digits, Repeat, Arrange, Altered;
    EngineTight(8, false, 8, 0, 33, ZERO.(hash := true), "10");
    var s := SpecOf(ZERO.(hash := true), 0, 33);
    AlteredShape(8, 8, s);
    ArrangedLength(SignText(false, s) + Prefix(8, 8, s), Altered(8, 8, s), 33, false, true);
  }

  // ----- Hexadecimal and binary with `#`: LetterConforms -----

  /** `%#b` of 2^30: with 31 digits only the letter of the prefix finds room. */
  lemma PrefixLosesZero()
    ensures EngineText(0x4000_0000, false, 2, 0, 0, HASH) == "b1" + Repeat('0', 30)
    ensures StdField(0x4000_0000, false, 2, SpecOf(HASH, 0, 0)) == "0b1" + Repeat('0', 30)
  {
    hide Digits, Repeat, Power, Arrange;
    BinaryPowers();
    BinaryPower(30);
    var d := "1" + Repeat('0', 30);
    NoneInFront('0', 0 - 31, d);
    EngineTight(0x4000_0000, false, 2, 0, 0, HASH, d);
    NoneInFront('0', 1 - |d|, d);
    StdTight(0x4000_0000, false, 2, SpecOf(HASH, 0, 0));
    assert "0b" + d == "0b1" + Repeat('0', 30) && "b" + d == "b1" + Repeat('0', 30);
  }

  /** `%-#.3x` of 1: left justification drops the precision. */
  lemma HexLeftDropsPrecision()
    ensures EngineText(1, false, 16, 3, 0, PRECISE.(hash := true, left := true)) == "0x1"
    ensures StdField(1, false, 16, SpecOf(PRECISE.(hash := true, left := true), 3, 0)) == "0x001"
  {
    OneDigitText(1, 16);
    hide Digits, Repeat, Arrange, Altered;
    var f := PRECISE.(hash := true, left := true);
    ThreeZeros();
    NoneInFront('0', 0 - 1, "1");
    EngineTight(1, false, 16, 3, 0, f, "1");
    AlteredShape(1, 16, SpecOf(f, 3, 0));
    StdTight(1, false, 16, SpecOf(f, 3, 0));
  }

  /** `%#.31x` of 1: beside so many digits only the letter of the prefix finds room. */
  lemma PrecisionCrowdsPrefix()
    ensures EngineText(1, false, 16, 31, 0, PRECISE.(hash := true)) == "x" + (Repeat('0', 30) + "1")
    ensures StdField(1, false, 16, SpecOf(PRECISE.(hash := true), 31, 0)) == "0x" + (Repeat('0', 30) + "1")
  {
    OneDigitText(1, 16);
    hide Digits, Repeat, Arrange;
    EngineTight(1, false, 16, 31, 0, PRECISE.(hash := true), "1");
    StdTight(1, false, 16, SpecOf(PRECISE.(hash := true), 31, 0));
  }

  /** `%#4x` of 0x1234: digits that exactly fill the width are taken for padding. */
  lemma HashEatsDigits()
    ensures EngineText(0x1234, false, 16, 0, 4, HASH) == "0x34"
    ensures StdField(0x1234, false, 16, SpecOf(HASH, 0, 4)) == "0x1234"
  {
    HexDigits();
    hide Digits, Repeat, Body, Arrange;
    HashedBody();
    EngineTight(0x1234, false, 16, 0, 4, HASH, "1234");
    NoneInFront('0', 1 - 4, "1234");
    StdTight(0x1234, false, 16, SpecOf(HASH, 0, 4));
  }

  /** `%#05x` of 0x1234: one zero of padding and one digit make room for the prefix. */
  lemma HashEatsOneDigit()
    ensures EngineText(0x1234, false, 16, 0, 5, ZERO.(hash := true)) == "0x234"
    ensures StdField(0x1234, false, 16, SpecOf(ZERO.(hash := true), 0, 5)) == "0x1234"
  {
    HexDigits();
    hide Digits, Repeat, Strip, Arrange;
    var f := ZERO.(hash := true);
    OneRepeated('0');
    assert ZeroPad("1234", 5) == "01234";
    assert Strip("01234", 16, 0, 5, f) == "234" by { StripTwo(f, "01234", 5); }
    EngineTight(0x1234, false, 16, 0, 5, f, "1234");
    NoneInFront('0', 1 - 4, "1234");
    StdTight(0x1234, false, 16, SpecOf(f, 0, 5));
  }

  lemma HashedBody()
    ensures Body("1234", false, 16, 0, 4, HASH) == "0x34"
  {
    hide Repeat, Strip;
    NoneInFront('0', 0 - 4, "1234");
    StripTwo(HASH, "1234", 4);
  }

  lemma StripTwo(f: Flags, t: string, width: nat)
    requires f.hash && !f.precision && |t| == width > 1
    ensures Strip(t, 16, 0, width, f) == t[2..]
  {
  }

  /** `%#033x` of 1: zeros fill the scratch array and leave no room for the prefix. */
  lemma ZerosCrowdPrefix()
    ensures EngineText(1, false, 16, 0, 33, ZERO.(hash := true)) == Repeat('0', 31) + "1"
    ensures StdField(1, false, 16, SpecOf(ZERO.(hash := true), 0, 33)) == "0x" + Repeat('0', 30) + "1"
  {
    OneDigitText(1, 16);
    hide Digits, Repeat;
    EngineTight(1, false, 16, 0, 33, ZERO.(hash := true), "1");
    NoneInFront('0', 0, "1");
  }

  /** `%#010b` of 5: a binary prefix takes two places and gets one, so that the field is
      one character too wide. */
  lemma BinaryPrefixWidens()
    ensures EngineText(5, false, 2, 0, 10, ZERO.(hash := true)) == "0b000000101"
    ensures StdField(5, false, 2, SpecOf(ZERO.(hash := true), 0, 10)) == "0b00000101"
  {
    BinaryFive();
    hide Digits, Repeat, Strip, Arrange, Altered;
    var f := ZERO.(hash := true);
    SomeZeros();
    assert ZeroPad("101", 10) == "0000000101";
    assert Strip("0000000101", 2, 0, 10, f) == "000000101" by { StripOne(f); }
    EngineTight(5, false, 2, 0, 10, f, "101");
    assert Altered(5, 2, SpecOf(f, 0, 10)) == "101" by { AlteredFive(f); }
    assert SignText(false, SpecOf(f, 0, 10)) + Prefix(5, 2, SpecOf(f, 0, 10)) == "0b";
    assert Arrange("0b", "101", 10, false, true) == "0b" + Repeat('0', 5) + "101" by { ArrangeZeros("0b", "101"); }
  }

  lemma StripOne(f: Flags)
    requires f == ZERO.(hash := true)
    ensures Strip("0000000101", 2, 0, 10, f) == "000000101"
  {
  }

  lemma AlteredFive(f: Flags)
    requires f == ZERO.(hash := true)
    ensures Altered(5, 2, SpecOf(f, 0, 10)) == "101"
  {
    BinaryFive();
    hide Digits, Repeat;
    NoneInFront('0', 1 - 3, "101");
  }

  lemma ArrangeZeros(lead: string, digits: string)
    requires |lead| == 2 && |digits| == 3
    ensures Arrange(lead, digits, 10, false, true) == lead + Repeat('0', 5) + digits
  {
    hide Repeat;
  }

  lemma SomeZeros()
    ensures Repeat('0', 5) == "00000" && Repeat('0', 7) == "0000000"
  {
  }

  // ----- Whole directives -----

  /** The 32-bit pattern of -1. */
  const MINUS_ONE: Word32 := 0xffff_ffff

  lemma ReadNegative(c: char, args: seq<Arg>)
    requires |args| > 0 && args[0] == Int(MINUS_ONE)
    ensures SettingOf(Directed(c, Default, FromArgument), args, 0) == Some((Setting(PRECISE, 0, 0), 1))
    ensures RequestOf(Directed(c, Default, FromArgument), args, 0) == Some((Request(NO_FLAG_SET, 0, None), 1))
  {
    hide BaseFlags, StarArg;
    assert BaseFlags(NO_FLAG_SET) == NO_FLAGS by { PlainFlags(); }
    assert StarArg(args, 0) == Some(-1) by { MinusOne(args); }
  }

  lemma MinusOne(args: seq<Arg>)
    requires |args| > 0 && args[0] == Int(MINUS_ONE)
    ensures StarArg(args, 0) == Some(-1)
  {
  }

  /** `%hhd` of -1: a plain char is unsigned here. */
  lemma SignedCharIsMisread()
    ensures DirectiveText(Directed('d', HH, Absent), [Int(MINUS_ONE)], 0) == Some(("255", 1))
    ensures StdDirective(Directed('d', HH, Absent), [Int(MINUS_ONE)], 0) == Some(("-1", 1))
  {
    hide EngineText, StdField, SettingOf, RequestOf, IntegerFlags;
    var f := NO_FLAGS.(short := true, chr := true);
    ReadDirected('d', HH, [Int(MINUS_ONE)]);
    assert IntegerFlags('d', f) == f by { DecimalFlags(f); }
    Fields255(f);
  }

  lemma DecimalFlags(f: Flags)
    requires f in {NO_FLAGS.(short := true, chr := true), PRECISE, NO_FLAGS}
    ensures IntegerFlags('d', f) == f
  {
  }

  lemma Fields255(f: Flags)
    requires f == NO_FLAGS.(short := true, chr := true)
    ensures EngineText(255, false, 10, 0, 0, f) == "255"
    ensures StdField(1, true, 10, Spec(false, false, false, false, false, false, None, 0)) == "-1"
  {
    Digits255();
    OneDigitText(1, 10);
    hide Digits, Repeat, Arrange;
    NoneInFront('0', 0 - 3, "255");
    EngineTight(255, false, 10, 0, 0, f, "255");
    NoneInFront('0', 0, "1");
    StdTight(1, true, 10, Spec(false, false, false, false, false, false, None, 0));
  }

  lemma Digits255()
    ensures Digits(255, 10, false) == "255"
  {
    assert Digits(2, 10, false) == "2";
    assert Quot(25, 10) == 2 && Rem(25, 10) == 5;
    assert Digits(25, 10, false) == "25";
    assert Quot(255, 10) == 25 && Rem(255, 10) == 5;
  }

  /** `%.*d` of -1 and 0: a precision that should be omitted suppresses the zero. */
  lemma NegativePrecisionHidesZero()
    ensures DirectiveText(Directed('d', Default, FromArgument), [Int(MINUS_ONE), Int(0)], 0) == Some(("", 2))
    ensures StdDirective(Directed('d', Default, FromArgument), [Int(MINUS_ONE), Int(0)], 0) == Some(("0", 2))
  {
    hide EngineText, StdField, SettingOf, RequestOf, IntegerFlags;
    ReadNegative('d', [Int(MINUS_ONE), Int(0)]);
    assert IntegerFlags('d', PRECISE) == PRECISE by { DecimalFlags(PRECISE); }
    ZeroFields();
  }

  lemma ZeroFields()
    ensures EngineText(0, false, 10, 0, 0, PRECISE) == ""
    ensures StdField(0, false, 10, Spec(false, false, false, false, false, false, None, 0)) == "0"
  {
  }

  /** `%.*s` of -1 and a string: a precision that should be omitted suppresses the text. */
  lemma NegativePrecisionHidesText(text: CString)
    ensures DirectiveText(Directed('s', Default, FromArgument), [Int(MINUS_ONE), Str(text)], 0) == Some(("", 2))
    ensures StdDirective(Directed('s', Default, FromArgument), [Int(MINUS_ONE), Str(text)], 0) == Some((text, 2))
  {
    hide SettingOf, RequestOf, Repeat;
    ReadNegative('s', [Int(MINUS_ONE), Str(text)]);
    NoneInFront(' ', 0, "");
    NoneInFront(' ', 0 - |text|, text);
  }

  /** `%05.*d` of -1 and 7: an omitted precision would let the zeros through. */
  lemma NegativePrecisionDropsZeros()
    ensures var d := Directed('d', Default, FromArgument).(flags := NO_FLAG_SET.(zero := true), width := Given(5));
            && DirectiveText(d, [Int(MINUS_ONE), Int(7)], 0) == Some(("    7", 2))
            && StdDirective(d, [Int(MINUS_ONE), Int(7)], 0) == Some(("00007", 2))
  {
    hide EngineText, StdField, IntegerFlags, BaseFlags, StarArg;
    var args := [Int(MINUS_ONE), Int(7)];
    assert BaseFlags(NO_FLAG_SET.(zero := true)) == ZERO by { ZeroFlag(); }
    assert StarArg(args, 0) == Some(-1) by { MinusOne(args); }
    assert IntegerFlags('d', ZERO.(precision := true)) == PRECISE by { DroppedZero(); }
    SevenInFive();
  }

  lemma ZeroFlag()
    ensures BaseFlags(NO_FLAG_SET.(zero := true)) == ZERO
  {
  }

  lemma DroppedZero()
    ensures IntegerFlags('d', ZERO.(precision := true)) == PRECISE
  {
  }

  lemma SevenInFive()
    ensures EngineText(7, false, 10, 0, 5, PRECISE) == "    7"
    ensures EngineText(7, false, 10, 0, 5, NO_FLAGS) == "    7"
    ensures StdField(7, false, 10, Spec(false, false, true, false, false, false, None, 5)) == "00007"
  {
    OneDigitText(7, 10);
    FourOf(' ');
    FourOf('0');
    hide Digits, Repeat;
    NoneInFront('0', 0, "7");
    NoneInFront('0', 0 - 1, "7");
    NoneRepeated(' ', 0);
  }

  lemma FourOf(c: char)
    ensures Repeat(c, 4) == [c, c, c, c]
  {
  }

  /** `%5.*s` of -1 and a short string: blanks in its place. */
  lemma NegativePrecisionBlanksText()
    ensures var d := Directed('s', Default, FromArgument).(width := Given(5));
            && DirectiveText(d, [Int(MINUS_ONE), Str("7")], 0) == Some(("     ", 2))
            && StdDirective(d, [Int(MINUS_ONE), Str("7")], 0) == Some(("    7", 2))
  {
    hide StringText, Arrange, BaseFlags, StarArg;
    var args := [Int(MINUS_ONE), Str("7")];
    assert BaseFlags(NO_FLAG_SET) == NO_FLAGS by { PlainFlags(); }
    assert StarArg(args, 0) == Some(-1) by { MinusOne(args); }
    BlanksInFive();
  }

  lemma BlanksInFive()
    ensures StringText(Setting(PRECISE, 5, 0), "7") == "     "
    ensures Arrange("", "7", 5, false, false) == "    7"
  {
    hide Repeat;
    FourOf(' ');
    assert Repeat(' ', 5) == "     " by { FiveBlanks(); }
  }

  lemma FiveBlanks()
    ensures Repeat(' ', 5) == "     "
  {
  }

  /** `%n`: the letter is printed, and no argument is taken. */
  lemma UndefinedIsPrinted(args: seq<Arg>)
    ensures DirectiveText(Directed('n', Default, Absent), args, 0) == Some(("n", 0))
    ensures StdDirective(Directed('n', Default, Absent), args, 0) == None
  {
    hide SettingOf, RequestOf;
    ReadDirected('n', Default, args);
  }

  lemma ReadWide(c: char, width: nat, args: seq<Arg>)
    ensures var d := Directed(c, Default, Absent).(width := Given(width));
            && SettingOf(d, args, 0) == Some((Setting(NO_FLAGS, width % UINT_RANGE, 0), 0))
            && RequestOf(d, args, 0) == Some((Request(NO_FLAG_SET, width, None), 0))
  {
    hide BaseFlags;
    assert BaseFlags(NO_FLAG_SET) == NO_FLAGS by { PlainFlags(); }
  }

  /** `%4294967297c`: a width of 2^32 + 1 is read as 1. */
  lemma WideWidthWraps(bits: Word32)
    ensures var d := Directed('c', Default, Absent).(width := Given(0x1_0000_0001));
            && DirectiveText(d, [Int(bits)], 0) == Some(([(bits % 0x100) as char], 1))
            && StdDirective(d, [Int(bits)], 0).Some?
            && |StdDirective(d, [Int(bits)], 0).value.0| == 0x1_0000_0001
  {
    hide SettingOf, RequestOf, Repeat;
    ReadWide('c', 0x1_0000_0001, [Int(bits)]);
    NoneInFront(' ', 0, [(bits % 0x100) as char]);
  }

  /** `%4294967301d` of 7: a width of 2^32 + 5 is read as 5. */
  lemma WideIntegerWraps()
    ensures var d := Directed('d', Default, Absent).(width := Given(0x1_0000_0005));
            && DirectiveText(d, [Int(7)], 0) == Some(("    7", 1))
            && StdDirective(d, [Int(7)], 0).Some?
            && |StdDirective(d, [Int(7)], 0).value.0| >= 0x1_0000_0005
  {
    hide SettingOf, RequestOf, EngineText, StdField, IntegerFlags;
    ReadWide('d', 0x1_0000_0005, [Int(7)]);
    assert IntegerFlags('d', NO_FLAGS) == NO_FLAGS by { DecimalFlags(NO_FLAGS); }
    SevenInFive();
    StdLength(7, false, 10, SpecFor('d', Request(NO_FLAG_SET, 0x1_0000_0005, None)));
  }

  /** `%.4294967296d` of 7: a precision of 2^32 is read as 0. */
  lemma LongPrecisionWraps()
    ensures var d := Directed('d', Default, Given(0x1_0000_0000));
            && DirectiveText(d, [Int(7)], 0) == Some(("7", 1))
            && StdDirective(d, [Int(7)], 0).Some?
            && |StdDirective(d, [Int(7)], 0).value.0| >= 0x1_0000_0000
  {
    hide EngineText, StdField, IntegerFlags, BaseFlags;
    assert BaseFlags(NO_FLAG_SET) == NO_FLAGS by { PlainFlags(); }
    assert IntegerFlags('d', PRECISE) == PRECISE by { DecimalFlags(PRECISE); }
    SevenAlone();
    StdLength(7, false, 10, SpecFor('d', Request(NO_FLAG_SET, 0, Some(0x1_0000_0000))));
  }

  lemma SevenAlone()
    ensures EngineText(7, false, 10, 0, 0, PRECISE) == "7"
  {
    OneDigitText(7, 10);
    hide Digits, Repeat;
    NoneInFront('0', 0 - 1, "7");
    EngineTight(7, false, 10, 0, 0, PRECISE, "7");
  }

  /** A string of 2^32 characters counts as empty, so that `%1s` puts a blank beside it. */
  lemma LongStringIsPadded(text: CString)
    requires |text| == 0x1_0000_0000
    ensures var d := Directed('s', Default, Absent).(width := Given(1));
            && DirectiveText(d, [Str(text)], 0) == Some((" " + text, 1))
            && StdDirective(d, [Str(text)], 0) == Some((text, 1))
  {
    hide SettingOf, RequestOf, Repeat, StringText, Arrange;
    ReadWide('s', 1, [Str(text)]);
    var st := Setting(NO_FLAGS, 1, 0);
    assert Clipped(st, text) == text;
    EngineString(st, text, 1);
    StdString(text, 1, false, 0);
    NoneInFront(' ', 0, text);
    OneRepeated(' ');
  }

  // ----- Two departures in one format -----

  const LEFT_ONE := Directed('d', Default, Given(1)).(flags := NO_FLAG_SET.(left := true))
  const HASH_FIVE := Directed('o', Default, Given(5)).(flags := NO_FLAG_SET.(hash := true))

  lemma FirstDeparture(args: seq<Arg>)
    requires args == [Int(0), Int(8)]
    ensures DirectiveText(LEFT_ONE, args, 0) == Some(("", 1))
    ensures StdDirective(LEFT_ONE, args, 0) == Some(("0", 1))
  {
    hide EngineText, StdField, IntegerFlags;
    var f := PRECISE.(left := true);
    assert SettingOf(LEFT_ONE, args, 0) == Some((Setting(f, 0, 1), 0));
    assert IntegerFlags('d', f) == f by { LeftFlags(f); }
    LeftZero();
  }

  lemma LeftFlags(f: Flags)
    requires f == PRECISE.(left := true)
    ensures IntegerFlags('d', f) == f
  {
  }

  lemma LeftZero()
    ensures EngineText(0, false, 10, 1, 0, PRECISE.(left := true)) == ""
    ensures StdField(0, false, 10, Spec(false, true, false, false, false, false, Some(1), 0)) == "0"
  {
  }

  lemma SecondDeparture(args: seq<Arg>)
    requires args == [Int(0), Int(8)]
    ensures DirectiveText(HASH_FIVE, args, 1) == Some(("000010", 2))
    ensures StdDirective(HASH_FIVE, args, 1) == Some(("00010", 2))
  {
    hide EngineText, StdField, IntegerFlags;
    var f := PRECISE.(hash := true);
    assert SettingOf(HASH_FIVE, args, 1) == Some((Setting(f, 0, 5), 1));
    assert IntegerFlags('o', f) == f by { HashFlags(f); }
    OctalGainsZero();
  }

  lemma HashFlags(f: Flags)
    requires f == PRECISE.(hash := true)
    ensures IntegerFlags('o', f) == f
  {
    assert WithoutHash('o', f) == f && Capital('o', f) == f && WithoutSigns('o', f) == f;
  }

  /** `%-.1d%#.5o` of 0 and 8: neither field is the standard's, and yet the output is. */
  lemma TwoDeparturesCancel(items: seq<Item>, args: seq<Arg>)
    requires items == [Conversion(LEFT_ONE), Conversion(HASH_FIVE)] && args == [Int(0), Int(8)]
    ensures Show(items) == "%-.1d%#.5o" && Parse(Show(items), 0) == Some(items)
    ensures Departing(items, args, 0) == 2
    ensures Meaning(items, args, 0) == StdMeaning(items, args, 0) == Some("000010")
  {
    hide Show, Parse, Departing, Meaning, StdMeaning, Expressible;
    BothShown(items);
    BothDepart(items, args);
  }

  lemma BothDepart(items: seq<Item>, args: seq<Arg>)
    requires items == [Conversion(LEFT_ONE), Conversion(HASH_FIVE)] && args == [Int(0), Int(8)]
    ensures Departing(items, args, 0) == 2
    ensures Meaning(items, args, 0) == StdMeaning(items, args, 0) == Some("000010")
  {
    hide DirectiveText, StdDirective, DirectiveConforms, LEFT_ONE, HASH_FIVE;
    var last := items[1..];
    assert last[0] == Conversion(HASH_FIVE) && last[1..] == [];
    FirstDeparture(args);
    SecondDeparture(args);
    DirectiveIff(LEFT_ONE, args, 0);
    DirectiveIff(HASH_FIVE, args, 1);
    assert Departing(last, args, 1) == 1;
    assert Meaning([], args, 2) == Some("") && StdMeaning([], args, 2) == Some("");
    assert "000010" + "" == "000010" && "00010" + "" == "00010";
    assert Meaning(last, args, 1) == Some("000010") && StdMeaning(last, args, 1) == Some("00010");
    assert "" + "000010" == "000010" && "0" + "00010" == "000010";
  }

  lemma BothShown(items: seq<Item>)
    requires items == [Conversion(LEFT_ONE), Conversion(HASH_FIVE)]
    ensures Show(items) == "%-.1d%#.5o" && Parse(Show(items), 0) == Some(items)
  {
    hide ShowDirective, Parse;
    ShowBoth();
    var last := items[1..];
    assert last[0] == Conversion(HASH_FIVE) && last[1..] == [];
    assert Show(last) == "%#.5o";
    FormatRoundTrip("", items);
    assert "" + Show(items) == Show(items);
  }

  lemma ShowBoth()
    ensures ShowDirective(LEFT_ONE) == "-.1d" && ShowDirective(HASH_FIVE) == "#.5o"
  {
    assert Digits(1, 10, false) == "1" && Digits(5, 10, false) == "5";
    hide Digits;
  }
}
