/** A negative `*` precision: the standard takes it as omitted, the engine as 0. */
module OmittedPrecision {
  import opened Text
  import opened Numerals
  import opened IntegerField
  import opened Standard
  import opened Conformance

  /** The standard's reading of a directive whose precision argument is negative. */
  function Omitted(f: Flags, width: nat, zero: bool): Spec {
    SpecOf(f, 0, width).(prec := None, zero := zero)
  }

  /** Without a precision, zero padding has nothing to do in this field. */
  predicate NoFill(value: nat, negative: bool, base: nat, width: nat, f: Flags, zero: bool)
    requires 2 <= base <= 16
  {
    var s := Omitted(f, width, zero);
    zero && !f.left ==> width <= |Sign(negative, f)| + |Prefix(value, base, s)| + |Altered(value, base, s)|
  }

  lemma SameDigits(value: nat, base: nat, width: nat, f: Flags, zero: bool)
    requires 2 <= base <= 16 && value != 0 && f.precision
    ensures Altered(value, base, Omitted(f, width, zero)) == Altered(value, base, SpecOf(f, 0, width))
    ensures Prefix(value, base, Omitted(f, width, zero)) == Prefix(value, base, SpecOf(f, 0, width))
  {
    hide Digits, Repeat;
    var d := Digits(value, base, f.uppercase);
    SameRepeat('0', 1 - |d|, 0 - |d|);
  }

  lemma NoFillArranges(lead: string, digits: string, width: nat, left: bool, zero: bool)
    requires zero && !left ==> width <= |lead| + |digits|
    ensures Arrange(lead, digits, width, left, zero) == Arrange(lead, digits, width, left, false)
  {
    hide Repeat;
    var fill := width - |lead| - |digits|;
    if zero && !left {
      SameRepeat('0', fill, 0);
      SameRepeat(' ', fill, 0);
      NoneRepeated('0', 0);
      NoneRepeated(' ', 0);
      assert lead + "" + digits == "" + lead + digits;
    }
  }

  /** Where nothing is filled, omitting the precision and giving 0 mean the same. */
  lemma OmittedIsZero(value: nat, negative: bool, base: nat, width: nat, f: Flags, zero: bool)
    requires Dispatched(value, negative, base, 0, f) && f.precision && value != 0
    requires NoFill(value, negative, base, width, f, zero)
    ensures StdField(value, negative, base, Omitted(f, width, zero)) ==
            StdField(value, negative, base, SpecOf(f, 0, width))
  {
    hide Altered, Prefix, Arrange;
    SameDigits(value, base, width, f, zero);
    var s := Omitted(f, width, zero);
    NoFillArranges(SignText(negative, s) + Prefix(value, base, s), Altered(value, base, s), width, f.left, zero);
  }

  // ----- Otherwise the standard writes more characters that are not blanks -----

  lemma EngineIsShort(value: nat, negative: bool, base: nat, width: nat, f: Flags, zero: bool)
    requires Dispatched(value, negative, base, 0, f) && f.precision
    ensures var s := Omitted(f, width, zero);
            |NoSpaces(EngineText(value, negative, base, 0, width, f))| <=
            |NoSpaces(Sign(negative, f))| +
            if value == 0 then 0 else |Prefix(value, base, s)| + |Altered(value, base, s)|
  {
    hide Justify, Body, EngineText, NoSpaces, Sign, Altered, Significant, Prefix;
    var f' := f.(hash := f.hash && value != 0);
    var be := Body(Last(Significant(value, base, f), NTOA_BUFFER), negative, base, 0, width, f');
    EngineIsJustified(value, negative, base, 0, width, f);
    JustifyNoSpaces(AddSign(be, negative, f), width, f);
    NoSpacesJoin(Sign(negative, f), be);
    NoSpacesShorter(be);
    BodyIsShort(value, negative, base, width, f, f', zero);
  }

  lemma {:induction false} NoSpacesShorter(s: string)
    ensures |NoSpaces(s)| <= |s|
  {
    if s != "" {
      NoSpacesShorter(s[1..]);
    }
  }

  lemma BodyIsShort(value: nat, negative: bool, base: nat, width: nat, f: Flags, f': Flags, zero: bool)
    requires Dispatched(value, negative, base, 0, f) && f.precision
    requires f' == f.(hash := f.hash && value != 0)
    ensures var s := Omitted(f, width, zero);
            |Body(Last(Significant(value, base, f), NTOA_BUFFER), negative, base, 0, width, f')| <=
            if value == 0 then 0 else |Prefix(value, base, s)| + |Altered(value, base, s)|
  {
    hide Digits, Repeat, Altered, Significant;
    var d := Significant(value, base, f);
    OwnDigitsLength(value, base, 0, width, f);
    AlteredShape(value, base, Omitted(f, width, zero));
    assert |ZeroPad(Last(d, NTOA_BUFFER), 0)| == Min(|d|, NTOA_BUFFER);
  }

  lemma StdIsLong(value: nat, negative: bool, base: nat, width: nat, f: Flags, zero: bool)
    requires Dispatched(value, negative, base, 0, f) && f.precision
    requires value == 0 || !NoFill(value, negative, base, width, f, zero)
    ensures var s := Omitted(f, width, zero);
            |NoSpaces(StdField(value, negative, base, s))| >
            |NoSpaces(Sign(negative, f))| +
            if value == 0 then 0 else |Prefix(value, base, s)| + |Altered(value, base, s)|
  {
    hide Altered, Repeat, NoSpaces, Prefix;
    var s := Omitted(f, width, zero);
    var sign, prefix, digits := Sign(negative, f), Prefix(value, base, s), Altered(value, base, s);
    assert SignText(negative, s) == sign;
    AlteredPlain(value, base, s);
    PrefixPlain(value, base, s);
    NoSpacesJoin(sign, prefix);
    NoSpacesId(prefix);
    NoSpacesId(digits);
    ArrangedNoSpaces(sign + prefix, digits, width, f.left, zero);
  }

  lemma AlteredPlain(value: nat, base: nat, s: Spec)
    requires 2 <= base <= 16
    ensures ' ' !in Altered(value, base, s)
    ensures value == 0 && s.prec.None? ==> |Altered(value, base, s)| > 0
  {
    hide Digits, Repeat, Altered, OwnDigits;
    OwnDigitsFacts(value, base, s.upper);
    AlteredShape(value, base, s);
  }

  lemma PrefixPlain(value: nat, base: nat, s: Spec)
    ensures ' ' !in Prefix(value, base, s)
    ensures value == 0 ==> Prefix(value, base, s) == ""
  {
  }

  /** Arranging keeps everything that is not a blank, and filling with zeros adds to it. */
  lemma ArrangedNoSpaces(lead: string, digits: string, width: nat, left: bool, zero: bool)
    requires ' ' !in digits
    ensures |NoSpaces(Arrange(lead, digits, width, left, zero))| ==
            |NoSpaces(lead)| + |digits| +
            if zero && !left then Max(width - |lead| - |digits|, 0) else 0
  {
    hide NoSpaces, Repeat;
    var fill := width - |lead| - |digits|;
    var blanks, zeros := Repeat(' ', fill), Repeat('0', fill);
    NoSpacesBlank(fill);
    NoSpacesId(digits);
    NoSpacesId(zeros);
    NoSpacesJoin(lead, digits);
    NoSpacesJoin(lead + digits, blanks);
    NoSpacesJoin(lead, zeros);
    NoSpacesJoin(lead + zeros, digits);
    NoSpacesJoin(blanks, lead);
    NoSpacesJoin(blanks + lead, digits);
  }

  /** Taking a negative precision argument as 0 gives the standard's field exactly for
      nonzero values that conform and that zero padding would not have widened. */
  lemma NegativePrecisionIff(value: nat, negative: bool, base: nat, width: nat, f: Flags, zero: bool)
    requires Dispatched(value, negative, base, 0, f) && f.precision
    ensures EngineText(value, negative, base, 0, width, f) ==
            StdField(value, negative, base, Omitted(f, width, zero))
            <==> value != 0 && NoFill(value, negative, base, width, f, zero) &&
                 Conforms(value, negative, base, 0, width, f)
  {
    hide EngineText, StdField, Conforms, NoFill, NoSpaces, Omitted;
    IntegerConformsIff(value, negative, base, 0, width, f);
    if value != 0 && NoFill(value, negative, base, width, f, zero) {
      OmittedIsZero(value, negative, base, width, f, zero);
    } else {
      EngineIsShort(value, negative, base, width, f, zero);
      StdIsLong(value, negative, base, width, f, zero);
    }
  }
}
