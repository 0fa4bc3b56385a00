/** Directives and whole formats against the standard: each directive's output is the
    standard's exactly under its condition, and a format's output is the concatenation of
    the standard's fields when no directive departs from it. */
module FormatConformance {
  import opened Text
  import opened Format
  import opened Arguments
  import opened Standard
  import opened StandardFormat
  import opened Denotation
  import opened Directives

  // ----- One directive -----

  /** The condition on one conversion: the engine's limits for integers, lengths and
      blanks for strings, and nothing but what the standard defines. */
  predicate ConversionConforms(d: Directive, st: Setting, r: Request, args: seq<Arg>, a: nat) {
    Defined(d) &&
    if d.conversion == '%' then true
    else
      a < |args| &&
      if d.conversion == 'c' then args[a].Int? && r.width < UINT_RANGE
      else if d.conversion == 's' then args[a].Str? && StringConforms(st, r, args[a].text)
      else Suits(d.length, args[a]) && IntegerConforms(d, st, r, args[a])
  }

  predicate DirectiveConforms(d: Directive, args: seq<Arg>, a: nat) {
    match SettingOf(d, args, a)
    case None => false
    case Some((st, _)) =>
      match RequestOf(d, args, a)
      case None => false
      case Some((r, b)) => ConversionConforms(d, st, r, args, b)
  }

  lemma HashStays(d: Directive, args: seq<Arg>, a: nat)
    requires RequestOf(d, args, a).Some?
    ensures RequestOf(d, args, a).value.0.flags.hash == d.flags.hash
  {
    hide StarArg;
  }

  /** One conversion, given both readings of its directive. */
  lemma ConversionIff(d: Directive, st: Setting, r: Request, args: seq<Arg>, a: nat)
    requires ReadAs(d.length, st, r) && r.flags.hash == d.flags.hash
    ensures ConversionConforms(d, st, r, args, a) <==>
            StdConvert(d, r, args, a).Some? && Convert(d.conversion, st, args, a) == StdConvert(d, r, args, a)
  {
    hide StdField, Arrange, IntegerText, StringText, CharText, StdClip, ArgFits, Suits, IntegerArgument,
         IntegerConforms, StringConforms, BaseOf, SpecFor, ReadAs;
    var c := d.conversion;
    if Defined(d) && a < |args| {
      if c == 'c' && args[a].Int? {
        CharDirectiveIff(d.length, st, r, args[a].bits);
      } else if c == 's' && args[a].Str? {
        StringDirectiveIff(d.length, st, r, args[a].text);
      } else if IsInteger(c) {
        LengthRead(d.length, st, r, args[a]);
        if Suits(d.length, args[a]) {
          IntegerDirectiveIff(d, st, r, args[a]);
        }
      }
    }
  }

  lemma LengthRead(l: Length, st: Setting, r: Request, arg: Arg)
    requires ReadAs(l, st, r)
    ensures ArgFits(st.flags, arg) <==> Suits(l, arg)
  {
    FitsSuits(l, st.flags, arg);
  }

  /** A directive's text is the one the standard gives it exactly under its condition. */
  lemma DirectiveIff(d: Directive, args: seq<Arg>, a: nat)
    ensures DirectiveConforms(d, args, a) <==>
            StdDirective(d, args, a).Some? && DirectiveText(d, args, a) == StdDirective(d, args, a)
  {
    hide ConversionConforms, Convert, StdConvert, SettingOf, RequestOf, ReadAs;
    ReadingsAgree(d, args, a);
    if RequestOf(d, args, a).Some? {
      HashStays(d, args, a);
      var (r, b) := RequestOf(d, args, a).value;
      ConversionIff(d, SettingOf(d, args, a).value.0, r, args, b);
    }
  }

  /** Right or wrong, a directive takes the arguments that the standard says it takes. */
  lemma SameArguments(d: Directive, args: seq<Arg>, a: nat)
    requires DirectiveText(d, args, a).Some? && StdDirective(d, args, a).Some?
    ensures DirectiveText(d, args, a).value.1 == StdDirective(d, args, a).value.1
  {
    hide StdField, Arrange, IntegerText, StringText, CharText, StdClip, ArgFits, Suits, IntegerArgument,
         BaseOf, SpecFor, ReadAs, SettingOf, RequestOf;
    ReadingsAgree(d, args, a);
  }

  // ----- Whole formats -----

  /** How many directives, with the arguments they get, do not meet their condition. */
  function Departing(items: seq<Item>, args: seq<Arg>, a: nat): nat {
    if items == [] then 0
    else
      match items[0]
      case Literal(c) => Departing(items[1..], args, a)
      case Conversion(d) =>
        match DirectiveText(d, args, a)
        case None => 0
        case Some((_, b)) =>
          (if DirectiveConforms(d, args, a) then 0 else 1) + Departing(items[1..], args, b)
  }

  lemma AppendCancels(text: string, x: Option<string>, y: Option<string>)
    ensures Append(text, x) == Append(text, y) <==> x == y
  {
    if x.Some? && y.Some? {
      assert (text + x.value)[|text|..] == x.value;
      assert (text + y.value)[|text|..] == y.value;
    }
  }

  lemma AppendSame(x: string, y: string, rest: Option<string>)
    requires rest.Some?
    ensures Append(x, rest) == Append(y, rest) <==> x == y
  {
    if x + rest.value == y + rest.value {
      assert |x| == |y|;
      assert (x + rest.value)[..|x|] == x;
      assert (y + rest.value)[..|y|] == y;
    }
  }

  lemma {:induction false} MeaningConforms(items: seq<Item>, args: seq<Arg>, a: nat)
    requires Meaning(items, args, a).Some?
    ensures Departing(items, args, a) == 0 ==> StdMeaning(items, args, a) == Meaning(items, args, a)
    ensures Departing(items, args, a) == 1 ==> StdMeaning(items, args, a) != Meaning(items, args, a)
  {
    hide DirectiveText, StdDirective, DirectiveConforms, Append;
    if items != [] {
      match items[0]
      case Literal(c) =>
        SomeRest([c], Meaning(items[1..], args, a));
        MeaningConforms(items[1..], args, a);
        AppendCancels([c], StdMeaning(items[1..], args, a), Meaning(items[1..], args, a));
      case Conversion(d) =>
        var (text, b) := DirectiveText(d, args, a).value;
        var rest := Meaning(items[1..], args, b);
        SomeRest(text, rest);
        MeaningConforms(items[1..], args, b);
        DirectiveIff(d, args, a);
        if DirectiveConforms(d, args, a) {
          AppendCancels(text, StdMeaning(items[1..], args, b), rest);
        } else if StdDirective(d, args, a).Some? {
          SameArguments(d, args, a);
          var (std, _) := StdDirective(d, args, a).value;
          AppendSame(std, text, rest);
        }
    }
  }

  lemma SomeRest(text: string, rest: Option<string>)
    ensures Append(text, rest).Some? <==> rest.Some?
  {
  }

  /** The output of a format is the concatenation of the standard's fields if no directive
      departs from the standard, and is not if exactly one does. */
  lemma OutputIsStandard(format: CString, args: seq<Arg>)
    requires Matches(format, args)
    ensures var items := Parse(format, 0).value;
            && (Departing(items, args, 0) == 0 ==> StdMeaning(items, args, 0) == Some(Denote(format, args)))
            && (Departing(items, args, 0) == 1 ==> StdMeaning(items, args, 0) != Some(Denote(format, args)))
  {
    hide Parse, Meaning, StdMeaning, Departing;
    MeaningConforms(Parse(format, 0).value, args, 0);
  }

}
