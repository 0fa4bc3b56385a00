/** What %p prints. */
module Pointers {
  import opened Text
  import opened Numerals
  import opened Format
  import opened Arguments
  import opened IntegerField
  import opened Conformance
  import opened RoundTrip
  import opened PrefixedRoundTrip
  import opened Denotation
  import opened Directives

  /** Digits as `%X` and `%p` write them. */
  predicate UpperHex(s: string) {
    forall i :: 0 <= i < |s| ==> '0' <= s[i] <= '9' || 'A' <= s[i] <= 'F'
  }

  predicate LowerHex(s: string) {
    forall i :: 0 <= i < |s| ==> '0' <= s[i] <= '9' || 'a' <= s[i] <= 'f'
  }

  lemma {:induction false} CaseOfDigits(v: nat, base: nat)
    requires 2 <= base <= 16
    ensures UpperHex(Digits(v, base, true)) && LowerHex(Digits(v, base, false))
    decreases v
  {
    hide Quot, Rem;
    QuotRem(v, base);
    if v >= base {
      CaseOfDigits(Quot(v, base), base);
    }
  }

  /** Sixteen capital hexadecimal digits that denote the pointer, for every width; a
      precision up to 16 makes no difference either. */
  lemma PointerDigits(st: Setting, bits: Word64)
    requires !st.flags.left && !st.flags.plus && !st.flags.space && !st.flags.hash
    requires st.precision <= 16
    ensures var t := PointerText(st, bits);
            |t| == 16 && UpperHex(t) && Value(t, 16) == bits
  {
    hide EngineText, Significant, Value, Repeat, UpperHex;
    var f := st.flags.(zeropad := true, uppercase := true);
    var d := Significant(bits, 16, f);
    SignificantFacts(bits, 16, f);
    PointerDigitCount(bits, f);
    UnprefixedShape(bits, false, 16, st.precision, 16, f);
    PointerCase(bits, f);
    var b := ZeroPad(d, 16);
    PointerJustify(b, f);
    EmptyPrefix(b);
    ZeroPadDigits(d, 16, 16);
    PaddedCase(d);
  }

  lemma PointerDigitCount(bits: Word64, f: Flags)
    ensures |Significant(bits, 16, f)| <= 16
  {
    hide Digits;
    Sizes(bits, 16, f);
  }

  lemma PointerCase(bits: Word64, f: Flags)
    requires f.uppercase
    ensures UpperHex(Significant(bits, 16, f))
  {
    hide Digits;
    CaseOfDigits(bits, 16);
  }

  lemma PaddedCase(d: string)
    requires UpperHex(d)
    ensures UpperHex(ZeroPad(d, 16))
  {
  }

  lemma PointerJustify(b: string, f: Flags)
    requires f.zeropad && !f.left
    ensures Justify(b, 16, f) == b
  {
  }

  /** With any flags but `#`, the digits read back as the pointer. */
  lemma PointerReadsBack(st: Setting, bits: Word64)
    requires !st.flags.hash
    ensures Read(PointerText(st, bits), 16) == (false, bits)
  {
    hide EngineText, Significant, Read;
    var f := st.flags.(zeropad := true, uppercase := true);
    PointerDigitCount(bits, f);
    RoundTripIff(bits, false, 16, st.precision, 16, f);
  }

  /** With `#` the field reads back exactly when its first two digits are zeros, because
      they are taken for padding and give way to the prefix. */
  lemma HashPointerIff(st: Setting, bits: Word64)
    requires !st.flags.left && !st.flags.plus && !st.flags.space && st.flags.hash
    requires !st.flags.precision && st.precision == 0
    ensures ReadPrefixed(PointerText(st, bits), 16) == (false, bits) <==> |Digits(bits, 16, true)| <= 14
  {
    hide EngineText, ReadPrefixed, Digits;
    var f := st.flags.(zeropad := true, uppercase := true);
    Sizes(bits, 16, f);
    assert bits == 0 ==> |Digits(bits, 16, true)| == 1 by { ZeroDigits(16, f); }
    AnyRoundTripIff(bits, false, 16, 0, 16, f);
  }

  /** `%p`: sixteen capital hexadecimal digits that denote the argument. */
  lemma PointerFormat(v: Word64)
    ensures Matches("%p", [Long(v)])
    ensures var t := Denote("%p", [Long(v)]);
            |t| == 16 && UpperHex(t) && Value(t, 16) == v
  {
    hide ShowDirective, DirectiveText, Matches, Denote, PointerText, Value, UpperHex;
    var d := Directed('p', Default, Absent);
    PointerShown(d);
    PointerDirective(d, v);
    OneDirective("%p", d, [Long(v)]);
    PointerDigits(Setting(NO_FLAGS, 0, 0), v);
  }

  lemma PointerShown(d: Directive)
    requires d == Directed('p', Default, Absent)
    ensures ShowDirective(d) == "p"
  {
  }

  lemma PointerDirective(d: Directive, v: Word64)
    requires d == Directed('p', Default, Absent)
    ensures DirectiveText(d, [Long(v)], 0) == Some((PointerText(Setting(NO_FLAGS, 0, 0), v), 1))
  {
    hide SettingOf, PointerText;
    ReadDirected('p', Default, [Long(v)]);
  }

  /** `%<n>p`: a width makes no difference. */
  lemma PointerWidthIgnored(n: nat, v: Word64, format: CString, plain: CString)
    requires n > 0 && format == "%" + (Digits(n, 10, false) + "p") && plain == "%p"
    ensures Matches(format, [Long(v)]) && Matches(plain, [Long(v)])
    ensures Denote(format, [Long(v)]) == Denote(plain, [Long(v)])
  {
    hide *;
    var d0 := Directed('p', Default, Absent);
    var d := d0.(width := Given(n));
    PointerShown(d0);
    PointerDirective(d0, v);
    WideShown(d, n);
    WidePointer(d, n, v);
    ArePrintable(d0, d, n);
    OneDirective(plain, d0, [Long(v)]);
    OneDirective(format, d, [Long(v)]);
  }

  lemma ArePrintable(d0: Directive, d: Directive, n: nat)
    requires d0 == Directed('p', Default, Absent) && d == d0.(width := Given(n)) && n > 0
    ensures Expressible(Conversion(d0)) && Expressible(Conversion(d))
  {
  }

  lemma WideShown(d: Directive, n: nat)
    requires d == Directed('p', Default, Absent).(width := Given(n))
    ensures ShowDirective(d) == Digits(n, 10, false) + "p"
  {
    hide Digits;
    var t := Digits(n, 10, false);
    assert "" + "" + "" + "" + "" + t + "" + "" + "p" == t + "p";
  }

  lemma WidePointer(d: Directive, n: nat, v: Word64)
    requires d == Directed('p', Default, Absent).(width := Given(n))
    ensures DirectiveText(d, [Long(v)], 0) == Some((PointerText(Setting(NO_FLAGS, 0, 0), v), 1))
  {
    hide BaseFlags, EngineText;
    assert BaseFlags(NO_FLAG_SET) == NO_FLAGS by { PlainFlags(); }
  }
}
