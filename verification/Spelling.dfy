/** Formats spelled out: which characters of a directive mean what. */
module Spelling {
  import opened Text
  import opened Numerals
  import opened Format
  import opened Arguments
  import opened IntegerField
  import opened Standard
  import opened StandardFormat
  import opened Conformance
  import opened RoundTrip
  import opened Denotation
  import opened Directives
  import opened Pointers

  // ----- Every integer conversion under every length modifier -----

  /** How a length modifier is written. */
  predicate Spells(l: Length, letters: string) {
    match l
    case Default => letters == ""
    case H => letters == "h"
    case HH => letters == "hh"
    case L => letters == "l"
    case LL => letters == "ll"
    case T => letters == "t"
    case J => letters == "j"
    case Z => letters == "z"
  }

  /** v is what a caller passed in the type that the modifier names. */
  predicate Passed(v: int, l: Length, arg: Arg, signed: bool) {
    match l
    case HH => arg.Int? && Represents(v, arg.bits, 8, signed)
    case H => arg.Int? && Represents(v, arg.bits, 16, signed)
    case Default => arg.Int? && Represents(v, arg.bits, 32, signed)
    case _ => arg.Long? && Represents(v, arg.bits64, 64, signed)
  }

  lemma PassedIs(v: int, l: Length, arg: Arg, signed: bool)
    requires Passed(v, l, arg, signed)
    ensures Suits(l, arg) && v == IntegerArgument(signed, l, arg)
  {
    hide Represents, IntegerArgument;
    IntegerArgumentIs(signed, l, arg);
    var bits := if arg.Int? then arg.bits else arg.bits64;
    var size := match l case HH => 8 case H => 16 case Default => 32 case _ => 64;
    OneRepresented(v, IntegerArgument(signed, l, arg), bits, size, signed);
  }

  lemma OneRepresented(v: int, v': int, bits: nat, size: nat, signed: bool)
    requires Represents(v, bits, size, signed) && Represents(v', bits, size, signed)
    ensures v == v'
  {
    match size
    case 8 => Closest(v, v', bits, 0x100);
    case 16 => Closest(v, v', bits, 0x1_0000);
    case 32 => Closest(v, v', bits, 0x1_0000_0000);
    case 64 => Closest(v, v', bits, 0x1_0000_0000_0000_0000);
    case _ =>
  }

  lemma Closest(v: int, v': int, bits: int, r: int)
    requires r > 0 && (v - bits) % r == 0 && (v' - bits) % r == 0 && -r < v - v' < r
    ensures v == v'
  {
    var q, q' := (v - bits) / r, (v' - bits) / r;
    Exact(v - bits, r);
    Exact(v' - bits, r);
    OnlyZero(q, q', r);
  }

  lemma Exact(a: int, r: int)
    requires r > 0 && a % r == 0
    ensures a == r * (a / r)
  {
  }

  lemma OnlyZero(q: int, q': int, r: int)
    requires r > 0 && -r < r * q - r * q' < r
    ensures q == q'
  {
    var d := if q > q' then q - q' else q' - q;
    Distribute(q, q', r);
    Distribute(q', q, r);
    if d > 0 {
      ProductMonotone(1, d, r);
    }
  }

  lemma Distribute(q: int, q': int, r: int)
    ensures r * q - r * q' == r * (q - q')
  {
  }

  predicate IntegerLetter(c: char) {
    c == 'd' || c == 'i' || c == 'u' || c == 'x' || c == 'X' || c == 'o' || c == 'b'
  }

  /** d, i and u print in decimal, o in octal, x and X in hexadecimal, b in binary; d and i
      are signed; X has capitals. Whatever the modifier, the text is the standard's and
      reads back as the argument, except for a negative hh and a binary number of more
      than 32 digits. */
  lemma IntegerSpelling(c: char, l: Length, letters: string, arg: Arg, v: int, format: CString)
    requires IntegerLetter(c) && Spells(l, letters) && format == "%" + (letters + [c])
    requires Passed(v, l, arg, c == 'd' || c == 'i')
    ensures Matches(format, [arg])
    ensures var t := Denote(format, [arg]);
            var base := if c == 'd' || c == 'i' || c == 'u' then 10
                        else if c == 'o' then 8 else if c == 'b' then 2 else 16;
            (l.HH? ==> v >= 0) && (c == 'b' ==> v < 0x1_0000_0000) ==>
              && Read(t, base) == (v < 0, Abs(v))
              && StdDirective(Directed(c, l, Absent), [arg], 0) == Some((t, 1))
    ensures c == 'x' ==> LowerHex(Denote(format, [arg]))
    ensures c == 'X' ==> UpperHex(Denote(format, [arg]))
  {
    hide *;
    var d := Directed(c, l, Absent);
    SpelledDirective(c, l, letters);
    PassedIs(v, l, arg, c == 'd' || c == 'i');
    LettersAre(c);
    SpelledText(c, l, arg);
    OneDirective(format, d, [arg]);
    SpelledReads(c, l, arg, v);
    SpelledCase(c, l, arg);
  }

  lemma LettersAre(c: char)
    requires IntegerLetter(c)
    ensures IsInteger(c) && IsSigned(c) == (c == 'd' || c == 'i')
    ensures BaseOf(c) == if c == 'd' || c == 'i' || c == 'u' then 10
                         else if c == 'o' then 8 else if c == 'b' then 2 else 16
  {
  }

  lemma SpelledDirective(c: char, l: Length, letters: string)
    requires IntegerLetter(c) && Spells(l, letters)
    ensures ShowDirective(Directed(c, l, Absent)) == letters + [c]
    ensures Expressible(Conversion(Directed(c, l, Absent)))
  {
    assert "" + "" + letters + [c] == letters + [c];
  }

  function SpelledSetting(l: Length): Setting {
    Setting(LengthFlags(NO_FLAGS, l), 0, 0)
  }

  lemma SpelledRead(c: char, l: Length, arg: Arg)
    ensures SettingOf(Directed(c, l, Absent), [arg], 0) == Some((SpelledSetting(l), 0))
    ensures RequestOf(Directed(c, l, Absent), [arg], 0) == Some((Request(NO_FLAG_SET, 0, None), 0))
    ensures ReadAs(l, SpelledSetting(l), Request(NO_FLAG_SET, 0, None))
    ensures ArgFits(SpelledSetting(l).flags, arg) <==> Suits(l, arg)
  {
    hide SettingOf, RequestOf, LengthFlags, ArgFits, Suits;
    ReadDirected(c, l, [arg]);
    ReadingsAgree(Directed(c, l, Absent), [arg], 0);
    FitsSuits(l, SpelledSetting(l).flags, arg);
  }

  lemma SpelledText(c: char, l: Length, arg: Arg)
    requires IsInteger(c) && Suits(l, arg)
    ensures ArgFits(SpelledSetting(l).flags, arg)
    ensures DirectiveText(Directed(c, l, Absent), [arg], 0) == Some((IntegerText(c, SpelledSetting(l), arg), 1))
    ensures StdDirective(Directed(c, l, Absent), [arg], 0) ==
            var v := IntegerArgument(IsSigned(c), l, arg);
            Some((StdField(Abs(v), v < 0, BaseOf(c), SpecFor(c, Request(NO_FLAG_SET, 0, None))), 1))
  {
    hide SettingOf, RequestOf, IntegerText, SpelledSetting, ReadAs, IntegerArgument, StdField, SpecFor, BaseOf,
         ArgFits, Suits;
    SpelledRead(c, l, arg);
  }

  /** The flags that reach the digit generator. */
  lemma SpelledFlags(c: char, l: Length)
    requires IsInteger(c)
    ensures var f := IntegerFlags(c, SpelledSetting(l).flags);
            && !f.zeropad && !f.left && !f.plus && !f.space && !f.hash && !f.precision
            && f.uppercase == (c == 'X')
  {
    hide IntegerFlags, LengthFlags;
    LengthKeeps(NO_FLAGS, l);
    IntegerFlagsFields(c, LengthFlags(NO_FLAGS, l));
  }

  lemma SpelledReads(c: char, l: Length, arg: Arg, v: int)
    requires IsInteger(c) && Suits(l, arg) && ArgFits(SpelledSetting(l).flags, arg)
    requires v == IntegerArgument(IsSigned(c), l, arg)
    ensures (l.HH? ==> v >= 0) && (c == 'b' ==> v < 0x1_0000_0000) ==>
              && Read(IntegerText(c, SpelledSetting(l), arg), BaseOf(c)) == (v < 0, Abs(v))
              && IntegerText(c, SpelledSetting(l), arg) ==
                 StdField(Abs(v), v < 0, BaseOf(c), SpecFor(c, Request(NO_FLAG_SET, 0, None)))
  {
    hide IntegerText, SpelledSetting, IntegerArgument, StdField, SpecFor, Read, ReadAs, IntegerConforms, MisreadChar,
         IntegerFlags, ArgumentValue, ArgFits, Suits, EngineText, BaseOf, Represents, Conforms;
    if (l.HH? ==> v >= 0) && (c == 'b' ==> v < 0x1_0000_0000) {
      var st := SpelledSetting(l);
      var f := IntegerFlags(c, st.flags);
      SpelledRead(c, l, arg);
      SpelledFlags(c, l);
      NotMisread(c, l, arg, v);
      EngineArguments(c, st, arg);
      ArgumentsAgree(c, l, st.flags, arg);
      SpelledDigits(c, Abs(v), v < 0, f);
      RoundTripIff(Abs(v), v < 0, BaseOf(c), 0, 0, f);
      SpelledConforms(Directed(c, l, Absent), st, arg, v);
      IntegerDirectiveIff(Directed(c, l, Absent), st, Request(NO_FLAG_SET, 0, None), arg);
    }
  }

  lemma NotMisread(c: char, l: Length, arg: Arg, v: int)
    requires Suits(l, arg) && v == IntegerArgument(IsSigned(c), l, arg) && (l.HH? ==> v >= 0)
    ensures !MisreadChar(c, l, arg)
  {
    hide IsSigned;
  }

  /** All digits fit the scratch array, with room for a sign. */
  lemma SpelledDigits(c: char, value: nat, negative: bool, f: Flags)
    requires IsInteger(c) && value < 0x1_0000_0000_0000_0000 && (c == 'b' ==> value < 0x1_0000_0000)
    requires !f.zeropad && !f.left && !f.hash && !f.precision && (negative ==> IsSigned(c))
    requires !IsSigned(c) ==> !f.plus && !f.space
    ensures |Significant(value, BaseOf(c), f)| <= NTOA_BUFFER
    ensures IsSigned(c) ==> |Significant(value, BaseOf(c), f)| < NTOA_BUFFER
    ensures PadTarget(0, FieldWidth(0, negative, f), f) == 0
    ensures Conforms(value, negative, BaseOf(c), 0, 0, f)
  {
    hide Digits, Power;
    Sizes(value, BaseOf(c), f);
    if c == 'b' {
      BinaryPowers();
      DigitCount(value, 2, f.uppercase, 32);
    }
  }

  lemma SpelledConforms(d: Directive, st: Setting, arg: Arg, v: int)
    requires IsInteger(d.conversion) && Suits(d.length, arg)
    requires v == IntegerArgument(IsSigned(d.conversion), d.length, arg)
    requires !MisreadChar(d.conversion, d.length, arg) && !st.flags.precision && st.precision == 0
    requires Conforms(Abs(v), v < 0, BaseOf(d.conversion), 0, 0, IntegerFlags(d.conversion, st.flags))
    ensures IntegerConforms(d, st, Request(NO_FLAG_SET, 0, None), arg)
  {
    hide Conforms, MisreadChar, IntegerFlags, IntegerArgument, Suits, BaseOf;
  }

  lemma SpelledCase(c: char, l: Length, arg: Arg)
    requires IsInteger(c) && ArgFits(SpelledSetting(l).flags, arg)
    ensures c == 'x' ==> LowerHex(IntegerText(c, SpelledSetting(l), arg))
    ensures c == 'X' ==> UpperHex(IntegerText(c, SpelledSetting(l), arg))
  {
    hide IntegerText, IntegerFlags, SpelledSetting, ArgumentValue, EngineText, ArgFits, UpperHex, LowerHex;
    if c == 'x' || c == 'X' {
      var st := SpelledSetting(l);
      var f := IntegerFlags(c, st.flags);
      SpelledFlags(c, l);
      assert st.precision == 0 && st.width == 0 by { SettingIsPlain(l); }
      EngineArguments(c, st, arg);
      HexText(Abs(ArgumentValue(c, st.flags, arg)), f);
    }
  }

  lemma SettingIsPlain(l: Length)
    ensures SpelledSetting(l).width == 0 && SpelledSetting(l).precision == 0
  {
  }

  lemma HexText(value: nat, f: Flags)
    requires value < 0x1_0000_0000_0000_0000
    requires !f.zeropad && !f.left && !f.plus && !f.space && !f.hash && !f.precision
    ensures f.uppercase ==> UpperHex(EngineText(value, false, 16, 0, 0, f))
    ensures !f.uppercase ==> LowerHex(EngineText(value, false, 16, 0, 0, f))
  {
    hide Digits, EngineText, Repeat, UpperHex, LowerHex;
    var d := Digits(value, 16, f.uppercase);
    Sizes(value, 16, f);
    CaseOfDigits(value, 16);
    UnprefixedShape(value, false, 16, 0, 0, f);
    NoneInFront('0', 0 - |d|, d);
    NoneRepeated(' ', 0 - |d|);
    NoneRepeated(' ', 0);
    EmptyPrefix(d);
    EmptySuffix(d);
  }

  // ----- Flags, widths and precisions -----

  /** The format matches the arguments and prints the text. */
  predicate Prints(format: CString, args: seq<Arg>, text: string) {
    Matches(format, args) && Denote(format, args) == text
  }

  lemma DirectivePrints(format: CString, d: Directive, args: seq<Arg>, text: string, b: nat)
    requires Expressible(Conversion(d)) && format == "%" + ShowDirective(d)
    requires DirectiveText(d, args, 0) == Some((text, b))
    ensures Prints(format, args, text)
  {
    hide Expressible, ShowDirective, DirectiveText, Matches, Denote;
    OneDirective(format, d, args);
  }

  /** A decimal directive that passes its setting on to the number 42. */
  lemma DecimalDirective(d: Directive, args: seq<Arg>, st: Setting, b: nat)
    requires d.conversion == 'd' && SettingOf(d, args, 0) == Some((st, b))
    requires b < |args| && args[b] == Int(42)
    requires !st.flags.hash && (st.flags.precision ==> !st.flags.zeropad)
    requires !WantsLong(st.flags) && !st.flags.chr && !st.flags.short
    ensures DirectiveText(d, args, 0) == Some((EngineText(42, false, 10, st.precision, st.width, st.flags), b + 1))
  {
    hide EngineText, SettingOf, IntegerFlags;
    DecimalKeeps(st.flags);
  }

  lemma DecimalKeeps(f: Flags)
    requires !f.hash && (f.precision ==> !f.zeropad)
    ensures IntegerFlags('d', f) == f
  {
    assert WithoutHash('d', f) == f && Capital('d', f) == f && WithoutSigns('d', f) == f && WithoutZero(f) == f;
  }

  lemma Digits42()
    ensures Digits(42, 10, false) == "42"
  {
    assert Digits(4, 10, false) == "4";
    assert Quot(42, 10) == 4 && Rem(42, 10) == 2;
  }

  lemma Text42(prec: nat, width: nat, f: Flags)
    requires !f.hash && !f.uppercase
    ensures var w := FieldWidth(width, false, f);
            var b := ZeroPad("42", PadTarget(prec, w, f));
            EngineText(42, false, 10, prec, width, f) ==
            Justify((if |b| < NTOA_BUFFER then Sign(false, f) else "") + b, w, f)
  {
    hide EngineText, Digits, Justify, ZeroPad, PadTarget, FieldWidth, Sign;
    Digits42();
    UnprefixedShape(42, false, 10, prec, width, f);
  }

  lemma ShortRuns(c: char)
    ensures Repeat(c, 1) == [c] && Repeat(c, 3) == [c, c, c]
  {
  }

  lemma StarIsMinus(args: seq<Arg>)
    requires |args| > 0 && args[0] == Int(0xffff_fffb)
    ensures StarArg(args, 0) == Some(-5)
  {
  }

  lemma StarIs(n: nat, args: seq<Arg>)
    requires n < 10 && |args| > 0 && args[0] == Int(n)
    ensures StarArg(args, 0) == Some(n)
  {
  }

  /** `%5d`: blanks on the left. */
  lemma WidthPrints(args: seq<Arg>)
    requires args == [Int(42)]
    ensures Prints("%5d", args, "   42")
  {
    hide EngineText, Prints, BaseFlags, StarArg, ShowDirective, DirectiveText;
    var d := Directive(NO_FLAG_SET, Given(5), Absent, Default, 'd');
    var st := Setting(NO_FLAGS, 5, 0);
    assert BaseFlags(d.flags) == NO_FLAGS by { WidthPrintsFlags(); }
    assert SettingOf(d, args, 0) == Some((st, 0));
    DecimalDirective(d, args, st, 0);
    assert EngineText(42, false, 10, st.precision, st.width, st.flags) == "   42" by { WidthPrintsText(); }
    assert ShowDirective(d) == "5d" by { WidthPrintsShown(); }
    DirectivePrints("%5d", d, args, "   42", 1);
  }

  lemma WidthPrintsFlags()
    ensures BaseFlags(NO_FLAG_SET) == NO_FLAGS
  {
  }

  lemma WidthPrintsText()
    ensures EngineText(42, false, 10, 0, 5, NO_FLAGS) == "   42"
  {
    hide EngineText, Repeat;
    Text42(0, 5, NO_FLAGS);
    ShortRuns(' ');
    ShortRuns('0');
    NoneRepeated(' ', 0);
    NoneRepeated('0', 0);
    NoneRepeated('0', 0 - 2);
    NoneRepeated(' ', 0 - 2);
    NoneRepeated(' ', 0 - 3);
  }

  lemma WidthPrintsShown()
    ensures ShowDirective(Directive(NO_FLAG_SET, Given(5), Absent, Default, 'd')) == "5d"
  {
    assert Digits(5, 10, false) == "5" && Digits(3, 10, false) == "3";
    hide Digits;
  }

  /** `%-5d`: blanks on the right. */
  lemma MinusPrints(args: seq<Arg>)
    requires args == [Int(42)]
    ensures Prints("%-5d", args, "42   ")
  {
    hide EngineText, Prints, BaseFlags, StarArg, ShowDirective, DirectiveText;
    var d := Directive(NO_FLAG_SET.(left := true), Given(5), Absent, Default, 'd');
    var st := Setting(NO_FLAGS.(left := true), 5, 0);
    assert BaseFlags(d.flags) == NO_FLAGS.(left := true) by { MinusPrintsFlags(); }
    assert SettingOf(d, args, 0) == Some((st, 0));
    DecimalDirective(d, args, st, 0);
    assert EngineText(42, false, 10, st.precision, st.width, st.flags) == "42   " by { MinusPrintsText(); }
    assert ShowDirective(d) == "-5d" by { MinusPrintsShown(); }
    DirectivePrints("%-5d", d, args, "42   ", 1);
  }

  lemma MinusPrintsFlags()
    ensures BaseFlags(NO_FLAG_SET.(left := true)) == NO_FLAGS.(left := true)
  {
  }

  lemma MinusPrintsText()
    ensures EngineText(42, false, 10, 0, 5, NO_FLAGS.(left := true)) == "42   "
  {
    hide EngineText, Repeat;
    Text42(0, 5, NO_FLAGS.(left := true));
    ShortRuns(' ');
    ShortRuns('0');
    NoneRepeated(' ', 0);
    NoneRepeated('0', 0);
    NoneRepeated('0', 0 - 2);
    NoneRepeated(' ', 0 - 2);
    NoneRepeated(' ', 0 - 3);
  }

  lemma MinusPrintsShown()
    ensures ShowDirective(Directive(NO_FLAG_SET.(left := true), Given(5), Absent, Default, 'd')) == "-5d"
  {
    assert Digits(5, 10, false) == "5" && Digits(3, 10, false) == "3";
    hide Digits;
  }

  /** `%+d`: a sign. */
  lemma PlusPrints(args: seq<Arg>)
    requires args == [Int(42)]
    ensures Prints("%+d", args, "+42")
  {
    hide EngineText, Prints, BaseFlags, StarArg, ShowDirective, DirectiveText;
    var d := Directive(NO_FLAG_SET.(plus := true), Absent, Absent, Default, 'd');
    var st := Setting(NO_FLAGS.(plus := true), 0, 0);
    assert BaseFlags(d.flags) == NO_FLAGS.(plus := true) by { PlusPrintsFlags(); }
    assert SettingOf(d, args, 0) == Some((st, 0));
    DecimalDirective(d, args, st, 0);
    assert EngineText(42, false, 10, st.precision, st.width, st.flags) == "+42" by { PlusPrintsText(); }
    assert ShowDirective(d) == "+d" by { PlusPrintsShown(); }
    DirectivePrints("%+d", d, args, "+42", 1);
  }

  lemma PlusPrintsFlags()
    ensures BaseFlags(NO_FLAG_SET.(plus := true)) == NO_FLAGS.(plus := true)
  {
  }

  lemma PlusPrintsText()
    ensures EngineText(42, false, 10, 0, 0, NO_FLAGS.(plus := true)) == "+42"
  {
    hide EngineText, Repeat;
    Text42(0, 0, NO_FLAGS.(plus := true));
    ShortRuns(' ');
    ShortRuns('0');
    NoneRepeated(' ', 0);
    NoneRepeated('0', 0);
    NoneRepeated('0', 0 - 2);
    NoneRepeated(' ', 0 - 2);
    NoneRepeated(' ', 0 - 3);
  }

  lemma PlusPrintsShown()
    ensures ShowDirective(Directive(NO_FLAG_SET.(plus := true), Absent, Absent, Default, 'd')) == "+d"
  {
    assert Digits(5, 10, false) == "5" && Digits(3, 10, false) == "3";
    hide Digits;
  }

  /** `% d`: a blank for the sign. */
  lemma SpacePrints(args: seq<Arg>)
    requires args == [Int(42)]
    ensures Prints("% d", args, " 42")
  {
    hide EngineText, Prints, BaseFlags, StarArg, ShowDirective, DirectiveText;
    var d := Directive(NO_FLAG_SET.(space := true), Absent, Absent, Default, 'd');
    var st := Setting(NO_FLAGS.(space := true), 0, 0);
    assert BaseFlags(d.flags) == NO_FLAGS.(space := true) by { SpacePrintsFlags(); }
    assert SettingOf(d, args, 0) == Some((st, 0));
    DecimalDirective(d, args, st, 0);
    assert EngineText(42, false, 10, st.precision, st.width, st.flags) == " 42" by { SpacePrintsText(); }
    assert ShowDirective(d) == " d" by { SpacePrintsShown(); }
    DirectivePrints("% d", d, args, " 42", 1);
  }

  lemma SpacePrintsFlags()
    ensures BaseFlags(NO_FLAG_SET.(space := true)) == NO_FLAGS.(space := true)
  {
  }

  lemma SpacePrintsText()
    ensures EngineText(42, false, 10, 0, 0, NO_FLAGS.(space := true)) == " 42"
  {
    hide EngineText, Repeat;
    Text42(0, 0, NO_FLAGS.(space := true));
    ShortRuns(' ');
    ShortRuns('0');
    NoneRepeated(' ', 0);
    NoneRepeated('0', 0);
    NoneRepeated('0', 0 - 2);
    NoneRepeated(' ', 0 - 2);
    NoneRepeated(' ', 0 - 3);
  }

  lemma SpacePrintsShown()
    ensures ShowDirective(Directive(NO_FLAG_SET.(space := true), Absent, Absent, Default, 'd')) == " d"
  {
    assert Digits(5, 10, false) == "5" && Digits(3, 10, false) == "3";
    hide Digits;
  }

  /** `%05d`: zeros. */
  lemma ZeroPrints(args: seq<Arg>)
    requires args == [Int(42)]
    ensures Prints("%05d", args, "00042")
  {
    hide EngineText, Prints, BaseFlags, StarArg, ShowDirective, DirectiveText;
    var d := Directive(NO_FLAG_SET.(zero := true), Given(5), Absent, Default, 'd');
    var st := Setting(NO_FLAGS.(zeropad := true), 5, 0);
    assert BaseFlags(d.flags) == NO_FLAGS.(zeropad := true) by { ZeroPrintsFlags(); }
    assert SettingOf(d, args, 0) == Some((st, 0));
    DecimalDirective(d, args, st, 0);
    assert EngineText(42, false, 10, st.precision, st.width, st.flags) == "00042" by { ZeroPrintsText(); }
    assert ShowDirective(d) == "05d" by { ZeroPrintsShown(); }
    DirectivePrints("%05d", d, args, "00042", 1);
  }

  lemma ZeroPrintsFlags()
    ensures BaseFlags(NO_FLAG_SET.(zero := true)) == NO_FLAGS.(zeropad := true)
  {
  }

  lemma ZeroPrintsText()
    ensures EngineText(42, false, 10, 0, 5, NO_FLAGS.(zeropad := true)) == "00042"
  {
    hide EngineText, Repeat;
    Text42(0, 5, NO_FLAGS.(zeropad := true));
    ShortRuns(' ');
    ShortRuns('0');
    NoneRepeated(' ', 0);
    NoneRepeated('0', 0);
    NoneRepeated('0', 0 - 2);
    NoneRepeated(' ', 0 - 2);
    NoneRepeated(' ', 0 - 3);
  }

  lemma ZeroPrintsShown()
    ensures ShowDirective(Directive(NO_FLAG_SET.(zero := true), Given(5), Absent, Default, 'd')) == "05d"
  {
    assert Digits(5, 10, false) == "5" && Digits(3, 10, false) == "3";
    hide Digits;
  }

  /** `%.3d`: at least three digits. */
  lemma PrecisionPrints(args: seq<Arg>)
    requires args == [Int(42)]
    ensures Prints("%.3d", args, "042")
  {
    hide EngineText, Prints, BaseFlags, StarArg, ShowDirective, DirectiveText;
    var d := Directive(NO_FLAG_SET, Absent, Given(3), Default, 'd');
    var st := Setting(NO_FLAGS.(precision := true), 0, 3);
    assert BaseFlags(d.flags) == NO_FLAGS by { PrecisionPrintsFlags(); }
    assert SettingOf(d, args, 0) == Some((st, 0));
    DecimalDirective(d, args, st, 0);
    assert EngineText(42, false, 10, st.precision, st.width, st.flags) == "042" by { PrecisionPrintsText(); }
    assert ShowDirective(d) == ".3d" by { PrecisionPrintsShown(); }
    DirectivePrints("%.3d", d, args, "042", 1);
  }

  lemma PrecisionPrintsFlags()
    ensures BaseFlags(NO_FLAG_SET) == NO_FLAGS
  {
  }

  lemma PrecisionPrintsText()
    ensures EngineText(42, false, 10, 3, 0, NO_FLAGS.(precision := true)) == "042"
  {
    hide EngineText, Repeat;
    Text42(3, 0, NO_FLAGS.(precision := true));
    ShortRuns(' ');
    ShortRuns('0');
    NoneRepeated(' ', 0);
    NoneRepeated('0', 0);
    NoneRepeated('0', 0 - 2);
    NoneRepeated(' ', 0 - 2);
    NoneRepeated(' ', 0 - 3);
  }

  lemma PrecisionPrintsShown()
    ensures ShowDirective(Directive(NO_FLAG_SET, Absent, Given(3), Default, 'd')) == ".3d"
  {
    assert Digits(5, 10, false) == "5" && Digits(3, 10, false) == "3";
    hide Digits;
  }

  /** `%*d`: a width argument. */
  lemma StarWidthPrints(args: seq<Arg>)
    requires args == [Int(5), Int(42)]
    ensures Prints("%*d", args, "   42")
  {
    hide EngineText, Prints, BaseFlags, StarArg, ShowDirective, DirectiveText;
    var d := Directive(NO_FLAG_SET, FromArgument, Absent, Default, 'd');
    var st := Setting(NO_FLAGS, 5, 0);
    StarIs(5, args);
    assert BaseFlags(d.flags) == NO_FLAGS by { StarWidthPrintsFlags(); }
    assert SettingOf(d, args, 0) == Some((st, 1));
    DecimalDirective(d, args, st, 1);
    assert EngineText(42, false, 10, st.precision, st.width, st.flags) == "   42" by { StarWidthPrintsText(); }
    assert ShowDirective(d) == "*d" by { StarWidthPrintsShown(); }
    DirectivePrints("%*d", d, args, "   42", 2);
  }

  lemma StarWidthPrintsFlags()
    ensures BaseFlags(NO_FLAG_SET) == NO_FLAGS
  {
  }

  lemma StarWidthPrintsText()
    ensures EngineText(42, false, 10, 0, 5, NO_FLAGS) == "   42"
  {
    hide EngineText, Repeat;
    Text42(0, 5, NO_FLAGS);
    ShortRuns(' ');
    ShortRuns('0');
    NoneRepeated(' ', 0);
    NoneRepeated('0', 0);
    NoneRepeated('0', 0 - 2);
    NoneRepeated(' ', 0 - 2);
    NoneRepeated(' ', 0 - 3);
  }

  lemma StarWidthPrintsShown()
    ensures ShowDirective(Directive(NO_FLAG_SET, FromArgument, Absent, Default, 'd')) == "*d"
  {
    assert Digits(5, 10, false) == "5" && Digits(3, 10, false) == "3";
    hide Digits;
  }

  /** `%*d`: a negative width argument. */
  lemma StarMinusPrints(args: seq<Arg>)
    requires args == [Int(0xffff_fffb), Int(42)]
    ensures Prints("%*d", args, "42   ")
  {
    hide EngineText, Prints, BaseFlags, StarArg, ShowDirective, DirectiveText;
    var d := Directive(NO_FLAG_SET, FromArgument, Absent, Default, 'd');
    var st := Setting(NO_FLAGS.(left := true), 5, 0);
    StarIsMinus(args);
    assert BaseFlags(d.flags) == NO_FLAGS by { StarMinusPrintsFlags(); }
    assert SettingOf(d, args, 0) == Some((st, 1));
    DecimalDirective(d, args, st, 1);
    assert EngineText(42, false, 10, st.precision, st.width, st.flags) == "42   " by { StarMinusPrintsText(); }
    assert ShowDirective(d) == "*d" by { StarMinusPrintsShown(); }
    DirectivePrints("%*d", d, args, "42   ", 2);
  }

  lemma StarMinusPrintsFlags()
    ensures BaseFlags(NO_FLAG_SET) == NO_FLAGS
  {
  }

  lemma StarMinusPrintsText()
    ensures EngineText(42, false, 10, 0, 5, NO_FLAGS.(left := true)) == "42   "
  {
    hide EngineText, Repeat;
    Text42(0, 5, NO_FLAGS.(left := true));
    ShortRuns(' ');
    ShortRuns('0');
    NoneRepeated(' ', 0);
    NoneRepeated('0', 0);
    NoneRepeated('0', 0 - 2);
    NoneRepeated(' ', 0 - 2);
    NoneRepeated(' ', 0 - 3);
  }

  lemma StarMinusPrintsShown()
    ensures ShowDirective(Directive(NO_FLAG_SET, FromArgument, Absent, Default, 'd')) == "*d"
  {
    assert Digits(5, 10, false) == "5" && Digits(3, 10, false) == "3";
    hide Digits;
  }

  /** `%.*d`: a precision argument. */
  lemma StarPrecisionPrints(args: seq<Arg>)
    requires args == [Int(3), Int(42)]
    ensures Prints("%.*d", args, "042")
  {
    hide EngineText, Prints, BaseFlags, StarArg, ShowDirective, DirectiveText;
    var d := Directive(NO_FLAG_SET, Absent, FromArgument, Default, 'd');
    var st := Setting(NO_FLAGS.(precision := true), 0, 3);
    StarIs(3, args);
    assert BaseFlags(d.flags) == NO_FLAGS by { StarPrecisionPrintsFlags(); }
    assert SettingOf(d, args, 0) == Some((st, 1));
    DecimalDirective(d, args, st, 1);
    assert EngineText(42, false, 10, st.precision, st.width, st.flags) == "042" by { StarPrecisionPrintsText(); }
    assert ShowDirective(d) == ".*d" by { StarPrecisionPrintsShown(); }
    DirectivePrints("%.*d", d, args, "042", 2);
  }

  lemma StarPrecisionPrintsFlags()
    ensures BaseFlags(NO_FLAG_SET) == NO_FLAGS
  {
  }

  lemma StarPrecisionPrintsText()
    ensures EngineText(42, false, 10, 3, 0, NO_FLAGS.(precision := true)) == "042"
  {
    hide EngineText, Repeat;
    Text42(3, 0, NO_FLAGS.(precision := true));
    ShortRuns(' ');
    ShortRuns('0');
    NoneRepeated(' ', 0);
    NoneRepeated('0', 0);
    NoneRepeated('0', 0 - 2);
    NoneRepeated(' ', 0 - 2);
    NoneRepeated(' ', 0 - 3);
  }

  lemma StarPrecisionPrintsShown()
    ensures ShowDirective(Directive(NO_FLAG_SET, Absent, FromArgument, Default, 'd')) == ".*d"
  {
    assert Digits(5, 10, false) == "5" && Digits(3, 10, false) == "3";
    hide Digits;
  }

  // ----- Characters, strings and the rest -----

  /** `%c`: the character itself. */
  lemma CharPrints(bits: Word32)
    requires bits < 0x100
    ensures Prints("%c", [Int(bits)], [bits as char])
  {
    hide Prints, SettingOf, ShowDirective, Repeat;
    var d := Directed('c', Default, Absent);
    SettingIs('c', [Int(bits)]);
    LetterShown('c');
    NoneRepeated(' ', 0 - 1);
    EmptyPrefix([bits as char]);
    DirectivePrints("%c", d, [Int(bits)], [bits as char], 1);
  }

  lemma SettingIs(c: char, args: seq<Arg>)
    ensures SettingOf(Directed(c, Default, Absent), args, 0) == Some((Setting(NO_FLAGS, 0, 0), 0))
  {
    hide SettingOf;
    ReadDirected(c, Default, args);
  }

  lemma LetterShown(c: char)
    ensures ShowDirective(Directed(c, Default, Absent)) == [c]
  {
  }

  /** `%s`: the whole string. */
  lemma StringPrints(text: CString)
    ensures Prints("%s", [Str(text)], text)
  {
    hide Prints, SettingOf, ShowDirective, Repeat;
    var d := Directed('s', Default, Absent);
    SettingIs('s', [Str(text)]);
    LetterShown('s');
    NoneRepeated(' ', 0 - |text| % UINT_RANGE);
    EmptyPrefix(text);
    DirectivePrints("%s", d, [Str(text)], text, 1);
  }

  /** `%.s`: a point without digits is precision 0, which lets nothing through. */
  lemma PointPrints(text: CString, format: CString)
    requires format == "%.s"
    ensures Prints(format, [Str(text)], "")
  {
    hide Prints, Parse, DirectiveText;
    PointParsed(format);
    var d := Directed('s', Default, Given(0));
    PointText(d, text);
    assert [Conversion(d)][1..] == [];
    assert Meaning([], [Str(text)], 1) == Some("");
    EmptyPrefix("");
    assert Meaning([Conversion(d)], [Str(text)], 0) == Some("");
    assert Prints(format, [Str(text)], "") by { PrintsMeaning(format, [Str(text)], [Conversion(d)], ""); }
  }

  lemma PrintsMeaning(format: CString, args: seq<Arg>, items: seq<Item>, text: string)
    requires Parse(format, 0) == Some(items) && Meaning(items, args, 0) == Some(text)
    ensures Prints(format, args, text)
  {
    hide Parse, Meaning;
  }

  lemma PointParsed(format: CString)
    requires format == "%.s"
    ensures Parse(format, 0) == Some([Conversion(Directed('s', Default, Given(0)))])
  {
    hide Value;
    assert FlagsEnd(format, 1) == 1;
    assert format[1..1] == "";
    assert FlagsIn("") == NO_FLAG_SET;
    assert ParseDirective(format, 1) == Some((Directed('s', Default, Given(0)), 3));
    assert Parse(format, 3) == Some([]);
    assert [Conversion(Directed('s', Default, Given(0)))] + [] == [Conversion(Directed('s', Default, Given(0)))];
  }

  lemma PointText(d: Directive, text: CString)
    requires d == Directed('s', Default, Given(0))
    ensures DirectiveText(d, [Str(text)], 0) == Some(("", 1))
  {
    hide BaseFlags, Repeat;
    assert BaseFlags(NO_FLAG_SET) == NO_FLAGS by { PlainFlags(); }
    NoneRepeated(' ', 0);
    assert text[..0] == "";
    EmptyPrefix("");
  }

  /** `%%`: a percent sign, and no argument. */
  lemma PercentPrints(args: seq<Arg>, format: CString)
    requires format == "%%"
    ensures Prints(format, args, "%")
  {
    hide Prints, SettingOf, ShowDirective;
    var d := Directed('%', Default, Absent);
    SettingIs('%', args);
    LetterShown('%');
    DirectivePrints(format, d, args, "%", 0);
  }

  /** `%#x`: a prefix. */
  lemma HashPrints()
    ensures Prints("%#x", [Int(42)], "0x2a")
  {
    hide EngineText, Prints, BaseFlags, ShowDirective, IntegerFlags;
    var d := Directive(NO_FLAG_SET.(hash := true), Absent, Absent, Default, 'x');
    var f := NO_FLAGS.(hash := true);
    assert BaseFlags(d.flags) == f && IntegerFlags('x', f) == f by { HashPasses(); }
    assert EngineText(42, false, 16, 0, 0, f) == "0x2a" by { HashText(); }
    assert ShowDirective(d) == "#x" by { HashShown(); }
    DirectivePrints("%#x", d, [Int(42)], "0x2a", 1);
  }

  lemma HashPasses()
    ensures var f := NO_FLAGS.(hash := true);
            BaseFlags(NO_FLAG_SET.(hash := true)) == f && IntegerFlags('x', f) == f
  {
    var f := NO_FLAGS.(hash := true);
    assert WithoutHash('x', f) == f && Capital('x', f) == f && WithoutSigns('x', f) == f;
  }

  lemma HashText()
    ensures EngineText(42, false, 16, 0, 0, NO_FLAGS.(hash := true)) == "0x2a"
  {
    assert Digits(2, 16, false) == "2";
    assert Quot(42, 16) == 2 && Rem(42, 16) == 10;
    assert Digits(42, 16, false) == "2a";
    hide Digits, Repeat;
    NoneInFront('0', 0 - 2, "2a");
    NoneRepeated(' ', 0 - 4);
    NoneRepeated(' ', 0);
  }

  lemma HashShown()
    ensures ShowDirective(Directive(NO_FLAG_SET.(hash := true), Absent, Absent, Default, 'x')) == "#x"
  {
  }

  /** The floating-point conversions are the letters f, e and g and their capitals. */
  lemma FloatsAreNotModelled(c: char, args: seq<Arg>)
    ensures c in {'f', 'F', 'e', 'E', 'g', 'G'} ==> DirectiveText(Directed(c, Default, Absent), args, 0) == None
    ensures c !in {'f', 'F', 'e', 'E', 'g', 'G', 'd', 'i', 'u', 'x', 'X', 'o', 'b', 'c', 's', 'p'} ==>
      DirectiveText(Directed(c, Default, Absent), args, 0) == Some(([c], 0))
  {
    hide SettingOf;
    SettingIs(c, args);
  }
}
