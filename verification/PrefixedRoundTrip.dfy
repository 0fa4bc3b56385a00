/** Reading every integer field back, also those that `#` gives a prefix. */
module PrefixedRoundTrip {
  import opened Text
  import opened Numerals
  import opened IntegerField
  import opened Conformance
  import opened RoundTrip

  /** The prefix of the base, if it stands in front; an octal prefix is a digit. */
  function SkipPrefix(s: string, base: nat): string {
    if |s| >= 2 && s[0] == '0' && IsLetter(s[1], base) then s[2..] else s
  }

  predicate IsLetter(c: char, base: nat) {
    (base == 16 && (c == 'x' || c == 'X')) || (base == 2 && c == 'b')
  }

  /** The reader of strtol with a base: blanks, an optional sign, an optional prefix,
      digits. */
  function ReadPrefixed(s: string, base: nat): (bool, nat) {
    var t := SkipBlanks(s);
    if t != "" && (t[0] == '-' || t[0] == '+') then
      (t[0] == '-', Value(DigitRun(SkipPrefix(t[1..], base), base), base))
    else (false, Value(DigitRun(SkipPrefix(t, base), base), base))
  }

  // ----- Without a prefix both readers agree -----

  lemma SameReading(s: string, base: nat)
    requires forall c :: c in s ==> !IsLetter(c, base)
    ensures ReadPrefixed(s, base) == Read(s, base)
  {
    hide Value, DigitRun, IsLetter, SkipBlanks;
    SkippedChars(s);
  }

  lemma {:induction false} SkippedChars(s: string)
    ensures forall c :: c in SkipBlanks(s) ==> c in s
  {
    if s != "" && s[0] == ' ' {
      SkippedChars(s[1..]);
    }
  }

  lemma UnprefixedReads(value: nat, negative: bool, base: nat, prec: nat, width: nat, f: Flags)
    requires 2 <= base <= 16 && !f.hash
    ensures ReadPrefixed(EngineText(value, negative, base, prec, width, f), base) ==
            Read(EngineText(value, negative, base, prec, width, f), base)
  {
    hide EngineText, ReadPrefixed, Read, Significant, Last, PadTarget, FieldWidth, ZeroPad, Justify, Sign, IsLetter;
    var d := Last(Significant(value, base, f), NTOA_BUFFER);
    var w := FieldWidth(width, negative, f);
    var b := ZeroPad(d, PadTarget(prec, w, f));
    LastDigits(value, base, f);
    ZeroPadDigits(d, PadTarget(prec, w, f), base);
    UnprefixedShape(value, negative, base, prec, width, f);
    var sign := if |b| < NTOA_BUFFER then Sign(negative, f) else "";
    SignShape(negative, f);
    NoLetters(sign, b, w, base, f);
    SameReading(Justify(sign + b, w, f), base);
  }

  lemma NoLetters(sign: string, b: string, w: nat, base: nat, f: Flags)
    requires 2 <= base <= 16 && AllDigits(b, base) && sign in {"", "-", "+", " "}
    ensures forall c :: c in Justify(sign + b, w, f) ==> !IsLetter(c, base)
  {
    hide Repeat, IsLetter, IsDigitIn;
    LetterIsNoDigit(base);
    forall c | c in Justify(sign + b, w, f) ensures !IsLetter(c, base) {
      JustifyChars(sign + b, w, f, c);
      if c in b {
        assert IsDigitIn(c, base);
      }
    }
  }

  lemma JustifyChars(t: string, w: nat, f: Flags, c: char)
    requires c in Justify(t, w, f)
    ensures c == ' ' || c in t
  {
    hide Repeat;
  }

  lemma LetterIsNoDigit(base: nat)
    ensures forall c :: IsLetter(c, base) ==> !IsDigitIn(c, base) && c != ' ' && c != '-' && c != '+'
  {
  }

  // ----- Fields with a prefix -----

  /** The characters that `#` takes from a body of length l. */
  function Cut(l: nat, base: nat, prec: nat, width: nat, f: Flags): nat {
    if f.hash && !f.precision && (l == prec || l == width) then (if l > 1 && base == 16 then 2 else 1) else 0
  }

  /** Digits between blanks, behind a prefix or none, read as their number. */
  lemma ReadBetween(prefix: string, digits: string, a: int, b: int, base: nat)
    requires 2 <= base <= 16 && AllDigits(digits, base) && prefix + digits != ""
    requires prefix == "" || (|prefix| == 2 && prefix[0] == '0' && IsLetter(prefix[1], base))
    ensures ReadPrefixed(Repeat(' ', a) + (prefix + digits) + Repeat(' ', b), base) == (false, Value(digits, base))
  {
    hide Value, Repeat, SkipBlanks, DigitRun, IsDigitIn, IsLetter;
    BlankIsNoDigit(base);
    LetterIsNoDigit(base);
    var tail := Repeat(' ', b);
    var t := prefix + digits + tail;
    assert Repeat(' ', a) + (prefix + digits) + tail == Repeat(' ', a) + t;
    assert digits != "" ==> IsDigitIn(digits[0], base);
    assert t[0] == (prefix + digits)[0];
    SkipBlanksStops(a, t);
    DigitRunStops(digits, tail, base);
    if prefix != "" {
      assert t[2..] == digits + tail;
    } else {
      assert t == digits + tail;
      SecondIsNoLetter(digits, tail, base);
    }
  }

  lemma SecondIsNoLetter(digits: string, tail: string, base: nat)
    requires AllDigits(digits, base) && forall i :: 0 <= i < |tail| ==> tail[i] == ' '
    ensures SkipPrefix(digits + tail, base) == digits + tail
  {
    hide IsDigitIn, IsLetter;
    LetterIsNoDigit(base);
    var t := digits + tail;
    if |t| >= 2 {
      assert if |digits| >= 2 then t[1] == digits[1] && IsDigitIn(t[1], base) else t[1] == ' ';
    }
  }

  /** A letter without its zero stops the reader at once. */
  lemma ReadLetter(letter: string, digits: string, a: int, b: int, base: nat)
    requires |letter| == 1 && IsLetter(letter[0], base)
    ensures ReadPrefixed(Repeat(' ', a) + (letter + digits) + Repeat(' ', b), base) == (false, 0)
  {
    hide Value, Repeat, SkipBlanks, IsDigitIn, IsLetter;
    LetterIsNoDigit(base);
    EmptyValue(base);
    var t := letter + digits + Repeat(' ', b);
    assert Repeat(' ', a) + (letter + digits) + Repeat(' ', b) == Repeat(' ', a) + t;
    assert t[0] == letter[0];
    SkipBlanksStops(a, t);
    assert !IsLetter('0', base) by { ZeroIsNoLetter(base); }
    assert t[0] != '0';
  }

  lemma ZeroIsNoLetter(base: nat)
    ensures !IsLetter('0', base)
  {
  }

  /** What a prefixed field is made of. */
  function Stripped(value: nat, base: nat, prec: nat, width: nat, f: Flags): string
    requires 2 <= base <= 16
  {
    Strip(ZeroPad(Last(Digits(value, base, f.uppercase), NTOA_BUFFER), PadTarget(prec, width, f)),
          base, prec, width, f)
  }

  lemma PrefixedText(value: nat, base: nat, prec: nat, width: nat, f: Flags)
    requires Dispatched(value, false, base, prec, f) && value != 0 && f.hash
    ensures EngineText(value, false, base, prec, width, f) ==
            Justify(AddPrefix(Stripped(value, base, prec, width, f), base, f), width, f)
  {
    hide EngineText, Justify, AddPrefix, Strip, ZeroPad, PadTarget, Last, Digits;
    EngineIsJustified(value, false, base, prec, width, f);
    UnsignedWidth(width, f);
    var b := AddPrefix(Stripped(value, base, prec, width, f), base, f);
    EmptyPrefix(b);
  }

  /** The number that is left after stripping is the value exactly when all digits were
      kept and only zeros were taken. */
  lemma StrippedValue(value: nat, base: nat, prec: nat, width: nat, f: Flags)
    requires Dispatched(value, false, base, prec, f) && value != 0 && f.hash
    ensures var s := Stripped(value, base, prec, width, f);
            var n := |Digits(value, base, f.uppercase)|;
            var l := Max(Min(n, NTOA_BUFFER), PadTarget(prec, width, f));
            && AllDigits(s, base) && |s| == l - Cut(l, base, prec, width, f) && l <= NTOA_BUFFER
            && (Value(s, base) == value <==> n <= NTOA_BUFFER && Cut(l, base, prec, width, f) <= l - n)
  {
    hide Digits, Value, Strip, PadTarget, Repeat, Power, Times, IsDigitIn;
    var d := Digits(value, base, f.uppercase);
    var de := Last(d, NTOA_BUFFER);
    var target := PadTarget(prec, width, f);
    var padded := ZeroPad(de, target);
    TargetBound(prec, width, f);
    DigitsDenote(value, base, f.uppercase);
    LastDigits(value, base, f);
    ZeroPadShape(de, target);
    ZeroPadDigits(de, target, base);
    var j := Max(target - |de|, 0);
    var cut := Cut(|padded|, base, prec, width, f);
    StripIsCut(padded, base, prec, width, f);
    var s := Stripped(value, base, prec, width, f);
    SuffixValue(padded[..cut], s, base);
    assert padded == padded[..cut] + s;
    KeptDigits(value, base, f);
    if cut <= j {
      StripZeros(j, de, base, prec, width, f);
      ValueZeros(j - cut, de, base);
    } else {
      CutDigits(de, j, cut, base);
    }
  }

  lemma TargetBound(prec: nat, width: nat, f: Flags)
    ensures PadTarget(prec, width, f) <= NTOA_BUFFER
  {
  }

  lemma StripIsCut(b: string, base: nat, prec: nat, width: nat, f: Flags)
    requires b != ""
    ensures Cut(|b|, base, prec, width, f) <= |b|
    ensures Strip(b, base, prec, width, f) == b[Cut(|b|, base, prec, width, f)..]
  {
  }

  lemma SuffixValue(front: string, s: string, base: nat)
    ensures Value(s, base) <= Value(front + s, base)
  {
    hide Value, Power, Times;
    ValueJoin(front, s, base);
  }

  /** Taking a leading digit that is not zero makes the number smaller. */
  lemma CutDigits(d: string, j: nat, cut: nat, base: nat)
    requires 2 <= base && AllDigits(d, base) && d != "" && j < cut <= j + |d|
    ensures d[0] != '0' ==> Value((Repeat('0', j) + d)[cut..], base) < Value(d, base)
  {
    hide Value, Power, Times, Repeat, IsDigitIn;
    var top, s := d[..cut - j], d[cut - j..];
    assert (Repeat('0', j) + d)[cut..] == s;
    assert top + s == d;
    ValueJoin(top, s, base);
    TopIsPositive(top, base);
    PositiveTimes(Value(top, base), Power(base, |s|));
    PowerMonotone(base, 0, |s|);
  }

  /** A prefixed field reads back exactly when all digits were kept, `#` took nothing but
      zeros, and the prefix was written as a whole or not at all. */
  lemma HashRoundTripIff(value: nat, base: nat, prec: nat, width: nat, f: Flags)
    requires Dispatched(value, false, base, prec, f) && value != 0 && f.hash
    ensures ReadPrefixed(EngineText(value, false, base, prec, width, f), base) == (false, value)
            <==> Survives(value, false, base, prec, width, f)
  {
    hide EngineText, ReadPrefixed, AddPrefix, PadTarget, Digits, Value, Repeat, Stripped, IsDigitIn, IsLetter, Letter,
         Cut;
    PrefixedText(value, base, prec, width, f);
    StrippedValue(value, base, prec, width, f);
    var s := Stripped(value, base, prec, width, f);
    var t := AddPrefix(s, base, f);
    var a := if !f.left && !f.zeropad then width - |t| else 0;
    var b := if f.left then width - |t| else 0;
    if base == 8 {
      OctalReads(s, a, b, f);
    } else {
      LetterPrefix(s, base, f);
      LetterOfBase(base, f);
      EmptyPrefix(s);
      if |s| <= NTOA_BUFFER - 2 {
        ReadBetween("0" + Letter(base, f), s, a, b, base);
      } else if |s| == NTOA_BUFFER - 1 {
        ReadLetter(Letter(base, f), s, a, b, base);
      } else {
        ReadBetween("", s, a, b, base);
      }
    }
  }

  lemma LetterOfBase(base: nat, f: Flags)
    requires LetterBase(base)
    ensures |Letter(base, f)| == 1 && IsLetter(Letter(base, f)[0], base)
  {
  }

  lemma OctalReads(s: string, a: int, b: int, f: Flags)
    requires AllDigits(s, 8) && f.hash && |s| <= NTOA_BUFFER
    ensures ReadPrefixed(Repeat(' ', a) + AddPrefix(s, 8, f) + Repeat(' ', b), 8) == (false, Value(s, 8))
  {
    hide ReadPrefixed, AddPrefix, Value, Repeat;
    OctalPrefixed(s, f);
    var t := AddPrefix(s, 8, f);
    assert AllDigits(t, 8);
    EmptyPrefix(t);
    ReadBetween("", t, a, b, 8);
    assert Repeat('0', 1) == "0" by { OneRepeated('0'); }
    ValueZeros(1, s, 8);
  }

  // ----- Every field -----

  /** The condition under which value and sign survive formatting. */
  predicate Survives(value: nat, negative: bool, base: nat, prec: nat, width: nat, f: Flags)
    requires 2 <= base <= 16
  {
    var n := |Significant(value, base, f)|;
    if f.hash && value != 0 then
      var l := Max(Min(n, NTOA_BUFFER), PadTarget(prec, width, f));
      var left := l - Cut(l, base, prec, width, f);
      n <= NTOA_BUFFER && n <= left && (base != 8 ==> left != NTOA_BUFFER - 1)
    else
      n <= NTOA_BUFFER && (negative ==> Max(n, PadTarget(prec, FieldWidth(width, negative, f), f)) < NTOA_BUFFER)
  }

  /** Every integer field reads back as its value and sign exactly under Survives. */
  lemma AnyRoundTripIff(value: nat, negative: bool, base: nat, prec: nat, width: nat, f: Flags)
    requires Dispatched(value, negative, base, prec, f)
    ensures ReadPrefixed(EngineText(value, negative, base, prec, width, f), base) == (negative, value)
            <==> Survives(value, negative, base, prec, width, f)
  {
    hide EngineText, ReadPrefixed, Read, Significant, PadTarget, Cut;
    if f.hash && value != 0 {
      HashRoundTripIff(value, base, prec, width, f);
    } else {
      var f' := f.(hash := false);
      HashForgotten(value, negative, base, prec, width, f);
      UnprefixedReads(value, negative, base, prec, width, f');
      RoundTripIff(value, negative, base, prec, width, f');
    }
  }

  lemma HashForgotten(value: nat, negative: bool, base: nat, prec: nat, width: nat, f: Flags)
    requires 2 <= base <= 16 && (f.hash ==> value == 0)
    ensures var f' := f.(hash := false);
            && EngineText(value, negative, base, prec, width, f) == EngineText(value, negative, base, prec, width, f')
            && Significant(value, base, f) == Significant(value, base, f')
            && PadTarget(prec, FieldWidth(width, negative, f), f) ==
               PadTarget(prec, FieldWidth(width, negative, f'), f')
  {
    hide FormatText, Digits;
  }

  /** `%#4x` of 0x1234 reads back as 0x34, and `%#.31x` of 1 as 0. */
  lemma PrefixTakesDigits()
    ensures ReadPrefixed("0x34", 16) == (false, 0x34)
    ensures ReadPrefixed("x" + (Repeat('0', 30) + "1"), 16) == (false, 0)
  {
    hide ReadPrefixed, Repeat, Value;
    NoneRepeated(' ', 0);
    assert "" + ("0x" + "34") + "" == "0x34";
    ReadBetween("0x", "34", 0, 0, 16);
    ReadLetter("x", Repeat('0', 30) + "1", 0, 0, 16);
    var t := "x" + (Repeat('0', 30) + "1");
    assert "" + t + "" == t;
    ValueOf34();
  }

  lemma ValueOf34()
    ensures Value("34", 16) == 0x34
  {
    hide Value;
    OneDigit('3', 16);
    OneDigit('4', 16);
    assert "3" + "4" == "34";
    ValueJoin("3", "4", 16);
    PowerNext(16, 0);
  }
}
