/** Single directives as _vsnprintf dispatches them: when their text is the standard's,
    and when it reads back as the argument. */
module Directives {
  import opened Text
  import opened Numerals
  import opened Format
  import opened Arguments
  import opened IntegerField
  import opened Standard
  import opened StandardFormat
  import opened Conformance
  import opened OmittedPrecision
  import opened PrefixedRoundTrip
  import opened RoundTrip
  import opened Denotation

  // ----- Flags -----

  lemma IntegerFlagsFields(c: char, f: Flags)
    ensures var g := IntegerFlags(c, f);
            && g.hash == (f.hash && BaseOf(c) != 10) && g.left == f.left
            && g.plus == (f.plus && IsSigned(c)) && g.space == (f.space && IsSigned(c))
            && g.uppercase == (f.uppercase || c == 'X') && g.precision == f.precision
            && g.zeropad == (f.zeropad && !f.precision)
    ensures var g := IntegerFlags(c, f);
            g.chr == f.chr && g.short == f.short && g.long == f.long && g.longLong == f.longLong
  {
    hide BaseOf, IsSigned;
    HashFields(c, f);
    var f1 := WithoutHash(c, f);
    CapitalFields(c, f1);
    var f2 := Capital(c, f1);
    SignFields(c, f2);
    ZeroFields(WithoutSigns(c, f2));
  }

  lemma HashFields(c: char, f: Flags)
    ensures WithoutHash(c, f) == f.(hash := WithoutHash(c, f).hash)
    ensures WithoutHash(c, f).hash == (f.hash && BaseOf(c) != 10)
  {
  }

  lemma CapitalFields(c: char, f: Flags)
    ensures Capital(c, f) == f.(uppercase := Capital(c, f).uppercase)
    ensures Capital(c, f).uppercase == (f.uppercase || c == 'X')
  {
    if c == 'X' {
      assert Capital(c, f) == f.(uppercase := true);
    } else {
      assert Capital(c, f) == f == f.(uppercase := f.uppercase);
    }
  }

  lemma SignFields(c: char, f: Flags)
    ensures var g := WithoutSigns(c, f); g == f.(plus := g.plus, space := g.space)
    ensures WithoutSigns(c, f).plus == (f.plus && IsSigned(c))
    ensures WithoutSigns(c, f).space == (f.space && IsSigned(c))
  {
    if IsSigned(c) {
      assert WithoutSigns(c, f) == f == f.(plus := f.plus, space := f.space);
    } else {
      assert WithoutSigns(c, f) == f.(plus := false, space := false);
    }
  }

  lemma ZeroFields(f: Flags)
    ensures WithoutZero(f) == f.(zeropad := WithoutZero(f).zeropad)
    ensures WithoutZero(f).zeropad == (f.zeropad && !f.precision)
  {
  }

  // ----- Directives without flags, width and precision -----

  const NO_FLAG_SET := FlagSet(false, false, false, false, false)

  function Directed(c: char, l: Length, precision: Amount): Directive {
    Directive(NO_FLAG_SET, Absent, precision, l, c)
  }

  lemma PlainFlags()
    ensures BaseFlags(NO_FLAG_SET) == NO_FLAGS
  {
  }

  lemma ReadDirected(c: char, l: Length, args: seq<Arg>)
    ensures SettingOf(Directed(c, l, Absent), args, 0) == Some((Setting(LengthFlags(NO_FLAGS, l), 0, 0), 0))
    ensures RequestOf(Directed(c, l, Absent), args, 0) == Some((Request(NO_FLAG_SET, 0, None), 0))
  {
    hide LengthFlags;
    assert BaseFlags(NO_FLAG_SET) == NO_FLAGS;
  }

  // ----- The two readings of a directive's parts -----

  /** What the scanner leaves behind, against what the standard makes of the same parts:
      numbers lose their high bits and a negative precision argument becomes 0. */
  predicate ReadAs(l: Length, st: Setting, r: Request) {
    && st.flags.hash == r.flags.hash && st.flags.left == r.flags.left && st.flags.zeropad == r.flags.zero
    && st.flags.plus == r.flags.plus && st.flags.space == r.flags.space && !st.flags.uppercase
    && st.width == r.width % UINT_RANGE
    && st.precision == (if r.prec.Some? then r.prec.value % UINT_RANGE else 0)
    && (r.prec.Some? ==> st.flags.precision)
    && ReadLength(l, st.flags)
  }

  predicate ReadLength(l: Length, f: Flags) {
    && WantsLong(f) == (TypeBits(l) == 64)
    && (!WantsLong(f) ==> f.chr == (TypeBits(l) == 8) && f.short == (TypeBits(l) <= 16))
  }

  /** The precision came from a negative argument. */
  predicate NegativePrecision(st: Setting, r: Request) {
    st.flags.precision && r.prec.None?
  }

  lemma ReadingsAgree(d: Directive, args: seq<Arg>, a: nat)
    ensures SettingOf(d, args, a).Some? <==> RequestOf(d, args, a).Some?
    ensures SettingOf(d, args, a).Some? ==>
      && SettingOf(d, args, a).value.1 == RequestOf(d, args, a).value.1
      && ReadAs(d.length, SettingOf(d, args, a).value.0, RequestOf(d, args, a).value.0)
  {
    hide LengthFlags, BaseFlags, WithWidth, WithPrecision, WidthOf, PrecisionOf, ReadAs, ReadLength;
    WidthsAgree(d, args, a);
    if WidthOf(d, args, a).Some? {
      var (r, b) := WidthOf(d, args, a).value;
      var (st, _) := WithWidth(BaseFlags(d.flags), d.width, args, a).value;
      PrecisionsAgree(st, r, d.precision, args, b);
      if WithPrecision(st, d.precision, args, b).Some? {
        LengthsAgree(WithPrecision(st, d.precision, args, b).value.0,
                     PrecisionOf(r, d.precision, args, b).value.0, d.length);
      }
    }
  }

  lemma WidthsAgree(d: Directive, args: seq<Arg>, a: nat)
    ensures var w := WithWidth(BaseFlags(d.flags), d.width, args, a);
            var q := WidthOf(d, args, a);
            && (w.Some? <==> q.Some?)
            && (w.Some? ==> w.value.1 == q.value.1 && ReadAs(Default, w.value.0, q.value.0) &&
                            !w.value.0.flags.precision && w.value.0.precision == 0 && q.value.0.prec.None? &&
                            NoLength(w.value.0.flags))
  {
    hide BaseFlags, StarArg;
    BaseFlagsFields(d.flags);
    var f := BaseFlags(d.flags);
    match d.width
    case Absent =>
    case Given(n) =>
    case FromArgument =>
      StarRange(args, a);
  }

  lemma BaseFlagsFields(f: FlagSet)
    ensures var g := BaseFlags(f);
            && g.hash == f.hash && g.left == f.left && g.zeropad == f.zero && g.plus == f.plus && g.space == f.space
            && !g.uppercase && !g.precision && NoLength(g)
  {
  }

  lemma StarRange(args: seq<Arg>, a: nat)
    ensures StarArg(args, a).Some? ==> Abs(StarArg(args, a).value) < UINT_RANGE
  {
  }

  predicate NoLength(f: Flags) {
    !f.chr && !f.short && !f.long && !f.longLong
  }

  lemma PrecisionsAgree(st: Setting, r: Request, precision: Amount, args: seq<Arg>, a: nat)
    requires ReadAs(Default, st, r) && NoLength(st.flags) && r.prec.None?
    ensures var w := WithPrecision(st, precision, args, a);
            var q := PrecisionOf(r, precision, args, a);
            && (w.Some? <==> q.Some?)
            && (w.Some? ==> w.value.1 == q.value.1 && ReadAs(Default, w.value.0, q.value.0) &&
                            NoLength(w.value.0.flags))
  {
    hide StarArg;
    match precision
    case Absent =>
    case Given(n) =>
    case FromArgument =>
      StarRange(args, a);
  }

  lemma LengthsAgree(st: Setting, r: Request, l: Length)
    requires ReadAs(Default, st, r) && NoLength(st.flags)
    ensures ReadAs(l, st.(flags := LengthFlags(st.flags, l)), r)
  {
    hide LengthFlags, ReadLength;
    LengthKeeps(st.flags, l);
    LengthReads(st.flags, l);
  }

  lemma LengthReads(f: Flags, l: Length)
    requires NoLength(f)
    ensures ReadLength(l, LengthFlags(f, l))
  {
    match l
    case Default =>
    case H =>
    case HH =>
    case L =>
    case LL =>
    case T =>
    case J =>
    case Z =>
  }

  // ----- Integer arguments -----

  /** A signed char argument that the engine, whose char is unsigned, takes as positive. */
  predicate MisreadChar(c: char, l: Length, arg: Arg) {
    IsSigned(c) && l == HH && arg.Int? && arg.bits % 0x100 >= 0x80
  }

  lemma FitsSuits(l: Length, f: Flags, arg: Arg)
    requires ReadLength(l, f)
    ensures ArgFits(f, arg) <==> Suits(l, arg)
  {
  }

  /** The number an integer conversion is given, as the engine reads it. */
  function ArgumentValue(c: char, f: Flags, arg: Arg): int
    requires ArgFits(f, arg)
  {
    if IsSigned(c) then SignedValue(f, arg) else UnsignedValue(f, arg)
  }

  /** Both sides take the argument alike, except for negative signed characters. */
  lemma ArgumentsAgree(c: char, l: Length, f: Flags, arg: Arg)
    requires ReadLength(l, f) && ArgFits(f, arg) && Suits(l, arg)
    ensures var v, v' := ArgumentValue(c, f, arg), IntegerArgument(IsSigned(c), l, arg);
            if MisreadChar(c, l, arg) then v' < 0 <= v else v == v'
  {
    hide IsSigned;
  }

  /** The value and sign that reach the digit generator. */
  lemma EngineArguments(c: char, st: Setting, arg: Arg)
    requires IsInteger(c) && ArgFits(st.flags, arg)
    ensures var v := ArgumentValue(c, st.flags, arg);
            && IntegerText(c, st, arg) ==
               EngineText(Abs(v), v < 0, BaseOf(c), st.precision, st.width, IntegerFlags(c, st.flags))
            && Abs(v) < 0x1_0000_0000_0000_0000
            && (v < 0 ==> IsSigned(c))
  {
    hide EngineText, IntegerFlags, BaseOf, Signed, Magnitude;
    IntegerFlagsFields(c, st.flags);
    var f := IntegerFlags(c, st.flags);
    assert ArgFits(f, arg);
    MagnitudeIsAbs(f, arg);
    ValueRange(f, arg);
  }

  lemma ValueRange(f: Flags, arg: Arg)
    requires ArgFits(f, arg)
    ensures Abs(SignedValue(f, arg)) < 0x1_0000_0000_0000_0000
    ensures UnsignedValue(f, arg) < 0x1_0000_0000_0000_0000
  {
  }

  // ----- Integer directives -----

  /** The condition on an integer directive. */
  predicate IntegerConforms(d: Directive, st: Setting, r: Request, arg: Arg)
    requires Suits(d.length, arg)
  {
    var c := d.conversion;
    var v := IntegerArgument(IsSigned(c), d.length, arg);
    var f := IntegerFlags(c, st.flags);
    && !MisreadChar(c, d.length, arg)
    && r.width < UINT_RANGE && (r.prec.Some? ==> r.prec.value < UINT_RANGE)
    && Conforms(Abs(v), v < 0, BaseOf(c), st.precision, r.width, f)
    && (NegativePrecision(st, r) ==> v != 0 && NoFill(Abs(v), v < 0, BaseOf(c), r.width, f, r.flags.zero))
  }

  /** An integer directive produces the standard's field exactly under its condition. */
  lemma IntegerDirectiveIff(d: Directive, st: Setting, r: Request, arg: Arg)
    requires IsInteger(d.conversion) && Defined(d) && d.flags.hash == r.flags.hash
    requires ReadAs(d.length, st, r) && ArgFits(st.flags, arg) && Suits(d.length, arg)
    ensures var v := IntegerArgument(IsSigned(d.conversion), d.length, arg);
            IntegerText(d.conversion, st, arg) ==
            StdField(Abs(v), v < 0, BaseOf(d.conversion), SpecFor(d.conversion, r))
            <==> IntegerConforms(d, st, r, arg)
  {
    hide EngineText, IntegerFlags, Conforms, StdField, ArgumentValue, IntegerArgument, IntegerText, ArgFits, Suits,
         IsInteger, IsSigned, BaseOf, SpecFor, NoFill, MisreadChar, ReadLength;
    var c := d.conversion;
    var v := IntegerArgument(IsSigned(c), d.length, arg);
    var f := IntegerFlags(c, st.flags);
    ArgumentsAgree(c, d.length, st.flags, arg);
    EngineArguments(c, st, arg);
    if MisreadChar(c, d.length, arg) {
      var v' := ArgumentValue(c, st.flags, arg);
      NoMinus(Abs(v'), BaseOf(c), st.precision, st.width, f);
      HasMinus(Abs(v), BaseOf(c), SpecFor(c, r));
    } else if r.width >= UINT_RANGE || (r.prec.Some? && r.prec.value >= UINT_RANGE) {
      EngineLength(Abs(v), v < 0, BaseOf(c), st.precision, st.width, f);
      StdLength(Abs(v), v < 0, BaseOf(c), SpecFor(c, r));
      SpecAmounts(c, r);
    } else {
      FieldIff(d, st, r, v, f);
    }
  }

  lemma SpecAmounts(c: char, r: Request)
    ensures SpecFor(c, r).width == r.width && SpecFor(c, r).prec == r.prec
  {
  }

  /** Where nothing is misread, the fields are compared as integer texts. */
  lemma FieldIff(d: Directive, st: Setting, r: Request, v: int, f: Flags)
    requires IsInteger(d.conversion) && Defined(d) && d.flags.hash == r.flags.hash && ReadAs(d.length, st, r)
    requires f == IntegerFlags(d.conversion, st.flags)
    requires Abs(v) < 0x1_0000_0000_0000_0000 && (v < 0 ==> IsSigned(d.conversion))
    requires r.width < UINT_RANGE && (r.prec.Some? ==> r.prec.value < UINT_RANGE)
    ensures var base := BaseOf(d.conversion);
            EngineText(Abs(v), v < 0, base, st.precision, st.width, f) ==
            StdField(Abs(v), v < 0, base, SpecFor(d.conversion, r))
            <==> Conforms(Abs(v), v < 0, base, st.precision, r.width, f) &&
                 (NegativePrecision(st, r) ==> v != 0 && NoFill(Abs(v), v < 0, base, r.width, f, r.flags.zero))
  {
    hide EngineText, IntegerFlags, Conforms, StdField, NoFill, Dispatched, SpecFor, SpecOf, Omitted, BaseOf,
         ReadLength, IsInteger;
    var c := d.conversion;
    SpecsAgree(d, st, r, f);
    IsDispatched(d, st, r, v, f);
    if NegativePrecision(st, r) {
      NegativePrecisionIff(Abs(v), v < 0, BaseOf(c), r.width, f, r.flags.zero);
    } else {
      ZeroFlagIgnored(Abs(v), v < 0, BaseOf(c), SpecFor(c, r), SpecOf(f, st.precision, st.width));
      IntegerConformsIff(Abs(v), v < 0, BaseOf(c), st.precision, st.width, f);
    }
  }

  lemma SpecsAgree(d: Directive, st: Setting, r: Request, f: Flags)
    requires IsInteger(d.conversion) && Defined(d) && d.flags.hash == r.flags.hash && ReadAs(d.length, st, r)
    requires f == IntegerFlags(d.conversion, st.flags)
    requires r.width < UINT_RANGE && (r.prec.Some? ==> r.prec.value < UINT_RANGE)
    ensures var s, s' := SpecFor(d.conversion, r), SpecOf(f, st.precision, st.width);
            if NegativePrecision(st, r) then s == Omitted(f, r.width, r.flags.zero)
            else s' == s.(zero := s'.zero) && (s.prec.None? ==> s == s')
  {
    hide IntegerFlags;
    IntegerFlagsFields(d.conversion, st.flags);
  }

  lemma IsDispatched(d: Directive, st: Setting, r: Request, v: int, f: Flags)
    requires IsInteger(d.conversion) && ReadAs(d.length, st, r)
    requires f == IntegerFlags(d.conversion, st.flags)
    requires Abs(v) < 0x1_0000_0000_0000_0000 && (v < 0 ==> IsSigned(d.conversion))
    ensures Dispatched(Abs(v), v < 0, BaseOf(d.conversion), st.precision, f)
    ensures f.precision == st.flags.precision
  {
    hide IntegerFlags;
    IntegerFlagsFields(d.conversion, st.flags);
  }

  /** The zero flag next to a precision makes no difference to the standard's field. */
  lemma ZeroFlagIgnored(value: nat, negative: bool, base: nat, s: Spec, s': Spec)
    requires 2 <= base <= 16
    requires s' == s.(zero := s'.zero) && (s.prec.None? ==> s == s')
    ensures StdField(value, negative, base, s) == StdField(value, negative, base, s')
  {
    hide Arrange, Digits, Repeat;
  }

  lemma NoMinus(value: nat, base: nat, prec: nat, width: nat, f: Flags)
    requires 2 <= base <= 16
    ensures '-' !in EngineText(value, false, base, prec, width, f)
  {
    hide EngineText, Body, Significant, Last, AddSign, Repeat, Sign;
    var d := Significant(value, base, f);
    var f' := f.(hash := f.hash && value != 0);
    SignificantFacts(value, base, f);
    assert Plain(Last(d, NTOA_BUFFER)) by { LastPlain(d); }
    BodyPlain(Last(d, NTOA_BUFFER), false, base, prec, width, f');
    EngineIsJustified(value, false, base, prec, width, f);
    SignedPlain(Body(Last(d, NTOA_BUFFER), false, base, prec, width, f'), f);
  }

  lemma LastPlain(d: string)
    requires Plain(d)
    ensures Plain(Last(d, NTOA_BUFFER))
  {
  }

  lemma SignedPlain(b: string, f: Flags)
    requires Plain(b)
    ensures '-' !in AddSign(b, false, f)
  {
  }

  lemma HasMinus(value: nat, base: nat, s: Spec)
    requires 2 <= base <= 16
    ensures '-' in StdField(value, true, base, s)
  {
    hide Altered, Prefix, Repeat;
    var lead := SignText(true, s) + Prefix(value, base, s);
    var digits := Altered(value, base, s);
    assert lead[0] == '-';
    LeadStays(lead, digits, s.width, s.left, s.zero && s.prec.None?);
  }

  lemma LeadStays(lead: string, digits: string, width: nat, left: bool, zero: bool)
    requires lead != ""
    ensures lead[0] in Arrange(lead, digits, width, left, zero)
  {
    hide Repeat;
    var fill := Repeat(' ', width - |lead| - |digits|);
    assert (fill + lead + digits)[|fill|] == lead[0];
  }

  lemma EngineLength(value: nat, negative: bool, base: nat, prec: nat, width: nat, f: Flags)
    requires 2 <= base <= 16
    ensures |EngineText(value, negative, base, prec, width, f)| <= Max(width, NTOA_BUFFER)
  {
    hide EngineText, Body, Significant, Last, AddSign, Repeat;
    EngineIsJustified(value, negative, base, prec, width, f);
    var b := Body(Last(Significant(value, base, f), NTOA_BUFFER), negative, base, prec, width,
                  f.(hash := f.hash && value != 0));
    assert |AddSign(b, negative, f)| <= NTOA_BUFFER;
  }

  lemma StdLength(value: nat, negative: bool, base: nat, s: Spec)
    requires 2 <= base <= 16
    ensures |StdField(value, negative, base, s)| >= s.width
    ensures s.prec.Some? ==> |StdField(value, negative, base, s)| >= s.prec.value
  {
    hide Altered, Prefix, Arrange, Repeat, OwnDigits;
    AlteredShape(value, base, s);
    ArrangedLength(SignText(negative, s) + Prefix(value, base, s), Altered(value, base, s), s.width, s.left,
                   s.zero && s.prec.None?);
  }

  /** An integer directive reads back as its argument, whatever its length modifier and
      flags, exactly when no signed char is misread and the field survives. */
  lemma DirectiveReadsBackIff(d: Directive, st: Setting, r: Request, arg: Arg)
    requires IsInteger(d.conversion) && ReadAs(d.length, st, r)
    requires ArgFits(st.flags, arg) && Suits(d.length, arg)
    ensures var v := IntegerArgument(IsSigned(d.conversion), d.length, arg);
            var f := IntegerFlags(d.conversion, st.flags);
            var base := BaseOf(d.conversion);
            ReadPrefixed(IntegerText(d.conversion, st, arg), base) == (v < 0, Abs(v))
            <==> !MisreadChar(d.conversion, d.length, arg) &&
                 Survives(Abs(v), v < 0, base, st.precision, st.width, f)
  {
    hide EngineText, IntegerFlags, ArgumentValue, IntegerArgument, IntegerText, ArgFits, Suits, ReadPrefixed, Survives,
         MisreadChar, ReadLength, IsInteger, IsSigned, BaseOf, Dispatched;
    var c := d.conversion;
    var v := ArgumentValue(c, st.flags, arg);
    var f := IntegerFlags(c, st.flags);
    ArgumentsAgree(c, d.length, st.flags, arg);
    EngineArguments(c, st, arg);
    IsDispatched(d, st, r, v, f);
    if v >= 0 {
      ReadsPositive(Abs(v), BaseOf(c), st.precision, st.width, f);
    }
    AnyRoundTripIff(Abs(v), v < 0, BaseOf(c), st.precision, st.width, f);
  }

  /** No number that is not negative reads back as negative. */
  lemma ReadsPositive(value: nat, base: nat, prec: nat, width: nat, f: Flags)
    requires 2 <= base <= 16
    ensures !ReadPrefixed(EngineText(value, false, base, prec, width, f), base).0
  {
    hide EngineText, DigitRun, Value, SkipPrefix, SkipBlanks;
    NoMinus(value, base, prec, width, f);
    SkippedChars(EngineText(value, false, base, prec, width, f));
  }

  // ----- Strings and characters -----

  predicate AllBlank(s: string) {
    forall i :: 0 <= i < |s| ==> s[i] == ' '
  }

  /** The condition on a string directive. Where both sides let the same characters
      through, the width and the 32-bit length must lose the same high part, or neither
      side pads. Where the engine lets fewer through, the missing ones must be blanks
      that its padding restores; on the right of blanks this takes blanks throughout. */
  predicate StringConforms(st: Setting, r: Request, text: string) {
    var m := |Clipped(st, text)|;
    var std := StdClip(text, r.prec);
    var n := |std|;
    if m == n then
      || r.width / UINT_RANGE == n / UINT_RANGE
      || (r.width <= n && r.width % UINT_RANGE <= n % UINT_RANGE)
    else
      r.width < UINT_RANGE && n <= r.width && AllBlank(if st.flags.left then std[Min(m, n)..] else std)
  }

  /** A string directive produces the standard's field exactly under its condition. */
  lemma StringDirectiveIff(l: Length, st: Setting, r: Request, text: string)
    requires ReadAs(l, st, r)
    ensures StringText(st, text) == Arrange("", StdClip(text, r.prec), r.width, r.flags.left, false)
            <==> StringConforms(st, r, text)
  {
    hide Repeat, Clipped, StdClip, StringText, Arrange, AllBlank, ReadLength;
    ClipsNest(l, st, r, text);
    var std := StdClip(text, r.prec);
    var m, n := |Clipped(st, text)|, |std|;
    var a, b := Max(r.width % UINT_RANGE - m % UINT_RANGE, 0), Max(r.width - n, 0);
    EngineString(st, text, a);
    StdString(std, r.width, r.flags.left, b);
    if st.flags.left {
      LeftBlanks(std, m, a, b);
    } else {
      RightBlanks(std, m, a, b);
    }
    PaddingArithmetic(m, n, r.width);
    NothingBlank(std);
  }

  lemma NothingBlank(t: string)
    ensures AllBlank(t[|t|..])
  {
  }

  lemma EngineString(st: Setting, text: string, a: nat)
    requires a == Max(st.width - |Clipped(st, text)| % UINT_RANGE, 0)
    ensures StringText(st, text) ==
            if st.flags.left then Clipped(st, text) + Repeat(' ', a) else Repeat(' ', a) + Clipped(st, text)
  {
    hide Repeat, Clipped;
    SameRepeat(' ', st.width - |Clipped(st, text)| % UINT_RANGE, a);
  }

  lemma StdString(t: string, width: nat, left: bool, b: nat)
    requires b == Max(width - |t|, 0)
    ensures Arrange("", t, width, left, false) == if left then t + Repeat(' ', b) else Repeat(' ', b) + t
  {
    hide Repeat;
    SameRepeat(' ', width - |t|, b);
    EmptyLead(t, Repeat(' ', b));
  }

  lemma EmptyLead(t: string, blanks: string)
    ensures "" + t + blanks == t + blanks && blanks + "" + t == blanks + t
  {
  }

  /** What the engine lets through is a prefix of what the standard does, and shorter
      only where it fits 32 bits. */
  lemma ClipsNest(l: Length, st: Setting, r: Request, text: string)
    requires ReadAs(l, st, r)
    ensures var std := StdClip(text, r.prec);
            var m := |Clipped(st, text)|;
            m <= |std| && Clipped(st, text) == std[..m] && (m < |std| ==> m < UINT_RANGE)
  {
  }

  lemma LeftBlanks(std: string, m: nat, a: nat, b: nat)
    requires m <= |std|
    ensures std[..m] + Repeat(' ', a) == std + Repeat(' ', b) <==> m + a == |std| + b && AllBlank(std[m..])
  {
    var x, y := std[..m] + Repeat(' ', a), std + Repeat(' ', b);
    if x == y {
      forall i | 0 <= i < |std[m..]| ensures std[m..][i] == ' ' {
        assert y[m + i] == x[m + i];
      }
    } else if m + a == |std| + b && AllBlank(std[m..]) {
      forall i | 0 <= i < |x| ensures x[i] == y[i] {
        if m <= i < |std| {
          assert std[m..][i - m] == ' ';
        }
      }
    }
  }

  lemma RightBlanks(std: string, m: nat, a: nat, b: nat)
    requires m <= |std|
    ensures Repeat(' ', a) + std[..m] == Repeat(' ', b) + std <==>
            m + a == |std| + b && (m == |std| || AllBlank(std))
  {
    var x, y := Repeat(' ', a) + std[..m], Repeat(' ', b) + std;
    if x == y && m < |std| {
      assert |x| == |y|;
      Shifted(std, m, a, b, |std|);
    } else if m + a == |std| + b && (m == |std| || AllBlank(std)) {
      assert m == |std| ==> std[..m] == std;
    }
  }

  /** A string equal to itself shifted behind blanks is blank. */
  lemma {:induction false} Shifted(std: string, m: nat, a: nat, b: nat, k: nat)
    requires m < |std| && m + a == |std| + b && k <= |std|
    requires Repeat(' ', a) + std[..m] == Repeat(' ', b) + std
    ensures forall i :: 0 <= i < k ==> std[i] == ' '
  {
    if k > 0 {
      Shifted(std, m, a, b, k - 1);
      var x, y := Repeat(' ', a) + std[..m], Repeat(' ', b) + std;
      assert y[b + (k - 1)] == std[k - 1] == x[b + (k - 1)];
    }
  }

  lemma PaddingArithmetic(m: nat, n: nat, w: nat)
    requires m <= n && (m < n ==> m < UINT_RANGE)
    ensures var same := m + Max(w % UINT_RANGE - m % UINT_RANGE, 0) == n + Max(w - n, 0);
            && (m == n ==> (same <==> w / UINT_RANGE == n / UINT_RANGE || (w <= n && w % UINT_RANGE <= n % UINT_RANGE)))
            && (m < n ==> (same <==> w < UINT_RANGE && n <= w))
  {
  }

  /** A character directive produces the standard's field exactly for widths of 32 bits. */
  lemma CharDirectiveIff(l: Length, st: Setting, r: Request, bits: nat)
    requires ReadAs(l, st, r)
    ensures CharText(st, bits) == Arrange("", [(bits % 0x100) as char], r.width, r.flags.left, false)
            <==> r.width < UINT_RANGE
  {
    hide Repeat;
    var c := [(bits % 0x100) as char];
    EmptyLead(c, Repeat(' ', r.width - 1));
    assert |CharText(st, bits)| == Max(st.width, 1);
    assert |Arrange("", c, r.width, r.flags.left, false)| == Max(r.width, 1);
  }
}
