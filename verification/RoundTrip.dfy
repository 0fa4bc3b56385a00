/** Reading the engine's integers back: what number and sign a formatted field denotes. */
module RoundTrip {
  import opened Text
  import opened Numerals
  import opened IntegerField
  import opened Standard
  import opened Conformance

  /** The longest prefix of digits. */
  function DigitRun(s: string, base: nat): string {
    if s != "" && IsDigitIn(s[0], base) then [s[0]] + DigitRun(s[1..], base) else ""
  }

  function SkipBlanks(s: string): string {
    if s != "" && s[0] == ' ' then SkipBlanks(s[1..]) else s
  }

  /** The reader of strtol: blanks, an optional sign, digits; no digits read as zero. */
  function Read(s: string, base: nat): (bool, nat) {
    var t := SkipBlanks(s);
    if t != "" && (t[0] == '-' || t[0] == '+') then (t[0] == '-', Value(DigitRun(t[1..], base), base))
    else (false, Value(DigitRun(t, base), base))
  }

  lemma {:induction false} DigitRunStops(d: string, rest: string, base: nat)
    requires AllDigits(d, base)
    requires rest == "" || !IsDigitIn(rest[0], base)
    ensures DigitRun(d + rest, base) == d
  {
    if d == "" {
      assert d + rest == rest;
    } else {
      assert (d + rest)[0] == d[0] && (d + rest)[1..] == d[1..] + rest;
      DigitRunStops(d[1..], rest, base);
      assert [d[0]] + d[1..] == d;
    }
  }

  lemma {:induction false} SkipBlanksStops(k: int, t: string)
    requires t == "" || t[0] != ' '
    ensures SkipBlanks(Repeat(' ', k) + t) == t
  {
    if k <= 0 {
      assert Repeat(' ', k) + t == t;
    } else {
      assert (Repeat(' ', k) + t)[1..] == Repeat(' ', k - 1) + t by {
        assert Repeat(' ', k)[1..] == Repeat(' ', k - 1);
      }
      SkipBlanksStops(k - 1, t);
    }
  }

  lemma {:induction false} SkipBlanksAll(k: int)
    ensures SkipBlanks(Repeat(' ', k)) == ""
  {
    assert Repeat(' ', k) + "" == Repeat(' ', k);
    SkipBlanksStops(k, "");
  }

  /** A sign, digits and trailing blanks read as that sign and number. */
  lemma ReadSigned(a: int, sign: string, digits: string, b: int, base: nat)
    requires 2 <= base <= 16 && AllDigits(digits, base)
    requires sign in {"", "-", "+", " "}
    requires a <= 0 || b <= 0
    ensures Read(Repeat(' ', a) + (sign + digits) + Repeat(' ', b), base) == (sign == "-", Value(digits, base))
  {
    hide Value, Repeat, SkipBlanks, DigitRun, IsDigitIn, DigitValue;
    BlankIsNoDigit(base);
    var tail := Repeat(' ', b);
    DigitRunStops(digits, tail, base);
    if sign == "-" || sign == "+" {
      var t := sign + digits + tail;
      assert Repeat(' ', a) + (sign + digits) + tail == Repeat(' ', a) + t;
      SkipBlanksStops(a, t);
      assert t[1..] == digits + tail;
    } else {
      var k := Max(a, 0) + |sign|;
      assert Repeat(' ', a) + sign == Repeat(' ', k) by { BlankSignJoins(a, sign); }
      assert Repeat(' ', a) + (sign + digits) + tail == Repeat(' ', k) + (digits + tail);
      if digits == "" {
        assert digits + tail == tail;
        OnlyBlanks(k, b, base);
      } else {
        assert (digits + tail)[0] == digits[0];
        assert IsDigitIn(digits[0], base);
        SkipBlanksStops(k, digits + tail);
      }
    }
  }

  lemma BlankIsNoDigit(base: nat)
    requires base <= 16
    ensures !IsDigitIn(' ', base) && !IsDigitIn('-', base) && !IsDigitIn('+', base)
  {
  }

  lemma BlankSignJoins(a: int, sign: string)
    requires sign == "" || sign == " "
    ensures Repeat(' ', a) + sign == Repeat(' ', Max(a, 0) + |sign|)
  {
    var k := Max(a, 0) + |sign|;
    assert forall i :: 0 <= i < k ==> (Repeat(' ', a) + sign)[i] == Repeat(' ', k)[i];
  }

  lemma OnlyBlanks(k: int, b: int, base: nat)
    requires k >= 0
    ensures Read(Repeat(' ', k) + Repeat(' ', b), base) == (false, Value("", base))
    ensures DigitRun("", base) == ""
  {
    RepeatJoin(' ', k, Max(b, 0));
    SameRepeat(' ', b, Max(b, 0));
    SkipBlanksAll(k + Max(b, 0));
  }

  // ----- Every field without a prefix -----

  /** What any unprefixed integer field reads back as: the sign if it found room, and the
      number denoted by the digits the scratch array kept. */
  lemma FieldReadsBack(value: nat, negative: bool, base: nat, prec: nat, width: nat, f: Flags)
    requires 2 <= base <= 16 && !f.hash
    ensures var d := Significant(value, base, f);
            var kept := Max(Min(|d|, NTOA_BUFFER), PadTarget(prec, FieldWidth(width, negative, f), f));
            Read(EngineText(value, negative, base, prec, width, f), base) ==
            (negative && kept < NTOA_BUFFER, Value(Last(d, NTOA_BUFFER), base))
  {
    hide Significant, Value, Read, EngineText, PadTarget, FieldWidth, ZeroPad, Last, Justify;
    var d := Last(Significant(value, base, f), NTOA_BUFFER);
    var w := FieldWidth(width, negative, f);
    var b := ZeroPad(d, PadTarget(prec, w, f));
    assert AllDigits(d, base) by { LastDigits(value, base, f); }
    ZeroPadDigits(d, PadTarget(prec, w, f), base);
    var sign := if |b| < NTOA_BUFFER then Sign(negative, f) else "";
    SignShape(negative, f);
    SignIsMinus(negative, f);
    UnprefixedShape(value, negative, base, prec, width, f);
    JustifiedReads(sign, b, w, base, f);
  }

  lemma LastDigits(value: nat, base: nat, f: Flags)
    requires 2 <= base <= 16
    ensures AllDigits(Last(Significant(value, base, f), NTOA_BUFFER), base)
  {
    hide Significant;
    SignificantFacts(value, base, f);
  }

  /** Without `#` the engine writes a sign, zeros and digits. */
  lemma UnprefixedShape(value: nat, negative: bool, base: nat, prec: nat, width: nat, f: Flags)
    requires 2 <= base <= 16 && !f.hash
    ensures var d := Last(Significant(value, base, f), NTOA_BUFFER);
            var w := FieldWidth(width, negative, f);
            var b := ZeroPad(d, PadTarget(prec, w, f));
            EngineText(value, negative, base, prec, width, f) ==
            Justify((if |b| < NTOA_BUFFER then Sign(negative, f) else "") + b, w, f)
  {
    hide Significant, Body, PadTarget, FieldWidth, Justify, ZeroPad, Sign, Last, FormatText;
    var d := Last(Significant(value, base, f), NTOA_BUFFER);
    HashOff(value, f);
    FormatUnprefixed(d, negative, base, prec, width, f);
  }

  lemma HashOff(value: nat, f: Flags)
    requires !f.hash
    ensures f.(hash := f.hash && value != 0) == f
  {
  }

  lemma FormatUnprefixed(d: string, negative: bool, base: nat, prec: nat, width: nat, f: Flags)
    requires !f.hash
    ensures var w := FieldWidth(width, negative, f);
            var b := ZeroPad(d, PadTarget(prec, w, f));
            FormatText(d, negative, base, prec, width, f) ==
            Justify((if |b| < NTOA_BUFFER then Sign(negative, f) else "") + b, w, f)
  {
    hide Body, PadTarget, FieldWidth, Justify, ZeroPad, Sign;
    BodyUnprefixed(d, negative, base, prec, width, f);
    EmptyPrefix(ZeroPad(d, PadTarget(prec, FieldWidth(width, negative, f), f)));
  }

  lemma BodyUnprefixed(d: string, negative: bool, base: nat, prec: nat, width: nat, f: Flags)
    requires !f.hash
    ensures Body(d, negative, base, prec, width, f) == ZeroPad(d, PadTarget(prec, FieldWidth(width, negative, f), f))
  {
  }

  lemma JustifiedReads(sign: string, b: string, w: nat, base: nat, f: Flags)
    requires 2 <= base <= 16 && AllDigits(b, base) && sign in {"", "-", "+", " "}
    ensures Read(Justify(sign + b, w, f), base) == (sign == "-", Value(b, base))
  {
    hide Value, Repeat, Read;
    ReadSigned(if !f.left && !f.zeropad then w - |sign + b| else 0, sign, b,
               if f.left then w - |sign + b| else 0, base);
  }

  lemma SignIsMinus(negative: bool, f: Flags)
    ensures Sign(negative, f) == "-" <==> negative
  {
  }

  lemma ZeroPadDigits(d: string, target: nat, base: nat)
    requires 2 <= base && AllDigits(d, base)
    ensures AllDigits(ZeroPad(d, target), base)
    ensures Value(ZeroPad(d, target), base) == Value(d, base)
  {
    hide Value;
    ValueZeros(target - |d|, d, base);
  }

  /** Digits beyond the scratch array are lost from the top: the number kept is the
      value modulo base^32. */
  lemma KeptDigits(value: nat, base: nat, f: Flags)
    requires 2 <= base <= 16
    ensures var d := Significant(value, base, f);
            var kept := Value(Last(d, NTOA_BUFFER), base);
            && kept < Power(base, NTOA_BUFFER)
            && (exists q: nat :: value == Times(q, Power(base, NTOA_BUFFER)) + kept)
            && (kept == value <==> |d| <= NTOA_BUFFER)
  {
    hide Significant, Value, Power, Times;
    var d := Significant(value, base, f);
    var k := Last(d, NTOA_BUFFER);
    SignificantFacts(value, base, f);
    assert AllDigits(k, base);
    ValueBound(k, base);
    PowerMonotone(base, |k|, NTOA_BUFFER);
    if |d| <= NTOA_BUFFER {
      ZeroTimes(Power(base, NTOA_BUFFER));
      assert value == Times(0, Power(base, NTOA_BUFFER)) + Value(k, base);
    } else {
      var top := d[..|d| - NTOA_BUFFER];
      assert top + k == d;
      ValueJoin(top, k, base);
      TopIsPositive(top, base);
      PositiveTimes(Value(top, base), Power(base, NTOA_BUFFER));
      assert value != 0 by { ShortZero(value, base, f); }
      assert top[0] == d[0];
    }
  }

  lemma ShortZero(value: nat, base: nat, f: Flags)
    requires 2 <= base <= 16
    ensures value == 0 ==> |Significant(value, base, f)| <= 1
  {
  }

  lemma ZeroTimes(p: nat)
    ensures Times(0, p) == 0
  {
  }

  lemma PositiveTimes(q: nat, p: nat)
    ensures q > 0 ==> Times(q, p) >= p
  {
    ProductMonotone(1, q, p);
  }

  lemma {:induction false} PowerMonotone(base: nat, a: nat, b: nat)
    requires base >= 1 && a <= b
    ensures 0 < Power(base, a) <= Power(base, b)
    decreases b
  {
    hide Times;
    if b > 0 {
      if a < b {
        PowerMonotone(base, a, b - 1);
      } else {
        PowerMonotone(base, a - 1, b - 1);
      }
      TimesSwap(Power(base, b - 1), base);
      PositiveTimes(base, Power(base, b - 1));
    }
  }

  lemma {:induction false} TopIsPositive(s: string, base: nat)
    requires AllDigits(s, base) && s != "" && base >= 2
    ensures s[0] != '0' ==> Value(s, base) > 0
  {
    hide Times;
    if |s| == 1 {
      assert s == [s[0]];
      OneDigit(s[0], base);
      assert IsDigitIn(s[0], base);
      ZeroDigit(s[0]);
    } else {
      var front := s[..|s| - 1];
      TopIsPositive(front, base);
      TimesSwap(Value(front, base), base);
      PositiveTimes(Value(front, base), base);
      TimesSwap(base, Value(front, base));
    }
  }

  lemma ZeroDigit(c: char)
    ensures DigitValue(c) == 0 <==> c == '0'
  {
  }

  /** An integer survives formatting exactly when its digits fit the scratch array and a
      minus sign, if there is one, finds room beside them. */
  lemma RoundTripIff(value: nat, negative: bool, base: nat, prec: nat, width: nat, f: Flags)
    requires 2 <= base <= 16 && !f.hash
    ensures var n := |Significant(value, base, f)|;
            Read(EngineText(value, negative, base, prec, width, f), base) == (negative, value)
            <==> n <= NTOA_BUFFER &&
                 (negative ==> Max(n, PadTarget(prec, FieldWidth(width, negative, f), f)) < NTOA_BUFFER)
  {
    hide Significant, Value, Power, Times, EngineText, Read, PadTarget;
    FieldReadsBack(value, negative, base, prec, width, f);
    KeptDigits(value, base, f);
  }

  // ----- The alternate form -----

  /** A nonzero number under `#0` with room for its prefix fills its width exactly, with
      the prefix first and only zeros between it and the digits. */
  lemma AlternateForm(value: nat, base: nat, width: nat, f: Flags)
    requires Dispatched(value, false, base, 0, f) && value != 0 && (base == 8 || base == 16)
    requires f.hash && f.zeropad && !f.left
    requires var n := |Digits(value, base, f.uppercase)|;
             n + (if base == 16 then 2 else 1) <= width <= NTOA_BUFFER
    ensures var prefix := "0" + Letter(base, f);
            var rest := EngineText(value, false, base, 0, width, f)[|prefix|..];
            && |EngineText(value, false, base, 0, width, f)| == width
            && EngineText(value, false, base, 0, width, f) == prefix + rest
            && AllDigits(rest, base) && Value(rest, base) == value
  {
    hide EngineText, Digits, Value, Repeat, StdField;
    IntegerConformsIff(value, false, base, 0, width, f);
    assert Conforms(value, false, base, 0, width, f);
    var d := Digits(value, base, f.uppercase);
    DigitsDenote(value, base, f.uppercase);
    AlternateText(value, base, width, f);
    ValueZeros(width - (if base == 16 then 2 else 1) - |d|, d, base);
  }

  lemma AlternateText(value: nat, base: nat, width: nat, f: Flags)
    requires Dispatched(value, false, base, 0, f) && value != 0 && (base == 8 || base == 16)
    requires f.hash && f.zeropad && !f.left
    ensures var d := Digits(value, base, f.uppercase);
            StdField(value, false, base, SpecOf(f, 0, width)) ==
            ("0" + Letter(base, f)) + (Repeat('0', width - (if base == 16 then 2 else 1) - |d|) + d)
  {
    hide Digits, Repeat, Precise, Altered, Prefix, Arrange;
    var s := SpecOf(f, 0, width);
    var d := Digits(value, base, f.uppercase);
    AlteredText(value, base, width, f);
    if base == 8 {
      OctalField(d, width);
    } else {
      PrefixIsLetter(value, base, 0, width, f);
      HexField("0" + Letter(base, f), d, width);
    }
  }

  lemma AlteredText(value: nat, base: nat, width: nat, f: Flags)
    requires value != 0 && (base == 8 || base == 16) && f.hash && !f.precision
    ensures Altered(value, base, SpecOf(f, 0, width)) ==
            (if base == 8 then "0" else "") + Digits(value, base, f.uppercase)
    ensures base == 8 ==> Prefix(value, base, SpecOf(f, 0, width)) == ""
  {
    hide Digits, Repeat, Altered;
    var d := Digits(value, base, f.uppercase);
    AlteredShape(value, base, SpecOf(f, 0, width));
    NoneInFront('0', 0, d);
    OneRepeated('0');
    EmptyPrefix(d);
  }

  lemma HexField(prefix: string, d: string, width: nat)
    requires |prefix| == 2
    ensures Arrange("" + prefix, "" + d, width, false, true) == prefix + (Repeat('0', width - 2 - |d|) + d)
  {
    hide Repeat;
    EmptyPrefix(d);
    EmptyPrefix(prefix);
    assert prefix + Repeat('0', width - 2 - |d|) + d == prefix + (Repeat('0', width - 2 - |d|) + d);
  }

  lemma OctalField(d: string, width: nat)
    ensures Arrange("" + "", "0" + d, width, false, true) == ("0" + "") + (Repeat('0', width - 1 - |d|) + d)
  {
    hide Repeat;
    OctalZeros(width - 1 - |d|, d);
  }

  lemma OctalZeros(k: int, d: string)
    ensures ("" + "") + Repeat('0', k) + ("0" + d) == ("0" + "") + (Repeat('0', k) + d)
  {
    assert ("" + "") + Repeat('0', k) + ("0" + d) == (Repeat('0', k) + "0") + d;
    assert forall i :: 0 <= i < Max(k, 0) + 1 ==> (Repeat('0', k) + "0")[i] == ("0" + Repeat('0', k))[i];
  }
}
