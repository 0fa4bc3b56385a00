/** Exactly when the engine's integer text is the standard's. */
module Conformance {
  import opened Text
  import opened Numerals
  import opened IntegerField
  import opened Standard

  /** The conversion specification that a set of flags expresses. */
  function SpecOf(f: Flags, prec: nat, width: nat): Spec {
    Spec(f.hash, f.left, f.zeropad, f.plus, f.space, f.uppercase, if f.precision then Some(prec) else None, width)
  }

  /** What the dispatcher guarantees before it converts an integer: signs only in
      decimal, no `#` in decimal, capital letters only in hexadecimal, no zero padding
      beside a precision. */
  predicate Dispatched(value: nat, negative: bool, base: nat, prec: nat, f: Flags) {
    && (base == 2 || base == 8 || base == 10 || base == 16)
    && value < 0x1_0000_0000_0000_0000
    && (negative || f.plus || f.space ==> base == 10)
    && (f.hash ==> base != 10)
    && (f.uppercase ==> base == 16)
    && (f.precision ==> !f.zeropad)
    && (!f.precision ==> prec == 0)
  }

  // ----- The condition -----

  /** The body without a prefix: digits, precision and zero padding fit the 32-character
      scratch array, and `-` does not discard the precision. */
  predicate PlainConforms(n: nat, prec: nat, width: nat, signed: bool, f: Flags) {
    && n <= NTOA_BUFFER
    && (if f.left then prec <= n else prec <= NTOA_BUFFER)
    && (f.zeropad && !f.left ==> width <= NTOA_BUFFER + if signed then 1 else 0)
  }

  predicate OctalConforms(n: nat, prec: nat, width: nat, f: Flags) {
    if f.precision then (if f.left then prec <= n + 1 else prec <= n || prec == NTOA_BUFFER)
    else width != n && (f.zeropad && !f.left ==> width <= NTOA_BUFFER)
  }

  /** Prefixes of two characters, in bases 16 and 2. */
  predicate LetterConforms(n: nat, base: nat, prec: nat, width: nat, f: Flags) {
    && n + 2 <= NTOA_BUFFER
    && if f.precision then prec <= if f.left then n else NTOA_BUFFER - 2
       else if f.zeropad && !f.left then
         width < n || (if base == 16 then n + 2 <= width <= NTOA_BUFFER else width == n + 1)
       else width != n
  }

  predicate BodyConforms(n: nat, value: nat, signed: bool, base: nat, prec: nat, width: nat, f: Flags) {
    if !f.hash then PlainConforms(n, prec, width, signed, f)
    else if value == 0 then
      PlainConforms(n, prec, width, signed, f) && !(base == 8 && f.precision && prec == 0)
    else if base == 8 then OctalConforms(n, prec, width, f)
    else LetterConforms(n, base, prec, width, f)
  }

  /** The sign finds room, or is a blank that the padding supplies anyway. */
  predicate SignConforms(n: nat, negative: bool, prec: nat, width: nat, f: Flags) {
    || !(negative || f.plus || f.space)
    || Max(n, PadTarget(prec, FieldWidth(width, negative, f), f)) < NTOA_BUFFER
    || (!negative && !f.plus && !f.left && !f.zeropad && width > NTOA_BUFFER)
  }

  predicate Conforms(value: nat, negative: bool, base: nat, prec: nat, width: nat, f: Flags)
    requires 2 <= base <= 16
  {
    var n := |Significant(value, base, f)|;
    && BodyConforms(n, value, negative || f.plus || f.space, base, prec, width, f)
    && SignConforms(n, negative, prec, width, f)
  }

  // ----- The standard's field as a justified sign and body -----

  function StdZeros(m: nat, signLen: nat, value: nat, base: nat, s: Spec): nat {
    var given := Max((if s.prec.None? then 1 else s.prec.value) - m, 0);
    var digits := if s.alt && base == 8 && given == 0 then 1 else given;
    var fill := if !s.left && s.zero && s.prec.None? then
                  Max(s.width - signLen - |Prefix(value, base, s)| - digits - m, 0) else 0;
    digits + fill
  }

  function StdBody(value: nat, negative: bool, base: nat, s: Spec): string
    requires 2 <= base <= 16
  {
    var d := OwnDigits(value, base, s.upper);
    Prefix(value, base, s) + (Repeat('0', StdZeros(|d|, |SignText(negative, s)|, value, base, s)) + d)
  }

  lemma OwnDigitsFacts(value: nat, base: nat, upper: bool)
    requires 2 <= base <= 16
    ensures var d := OwnDigits(value, base, upper);
            AllDigits(d, base) && Plain(d) && (d != "" ==> d[0] != '0') && (d == "" <==> value == 0)
  {
    hide Digits;
    DigitsDenote(value, base, upper);
    var d := OwnDigits(value, base, upper);
    assert AllDigits(d, 16);
    DigitsPlain(d);
  }

  lemma AlteredShape(value: nat, base: nat, s: Spec)
    requires 2 <= base <= 16
    ensures var d := OwnDigits(value, base, s.upper);
            var given := Max((if s.prec.None? then 1 else s.prec.value) - |d|, 0);
            Altered(value, base, s) == Repeat('0', if s.alt && base == 8 && given == 0 then 1 else given) + d
  {
    hide OwnDigits, Repeat;
    var d := OwnDigits(value, base, s.upper);
    OwnDigitsFacts(value, base, s.upper);
    var given := Max((if s.prec.None? then 1 else s.prec.value) - |d|, 0);
    assert Precise(value, base, s) == Repeat('0', given) + d by {
      SameRepeat('0', given, (if s.prec.None? then 1 else s.prec.value) - |d|);
    }
    if given == 0 {
      assert Repeat('0', 0) + d == d;
      assert Repeat('0', 1) + d == "0" + d;
    } else {
      assert (Repeat('0', given) + d)[0] == '0';
    }
  }

  lemma ArrangeIsJustify(sign: string, prefix: string, z: nat, d: string, width: nat, f: Flags)
    ensures var fill := Max(width - |sign| - |prefix| - z - |d|, 0);
            Arrange(sign + prefix, Repeat('0', z) + d, width, f.left, f.zeropad) ==
            Justify(sign + (prefix + (Repeat('0', z + if !f.left && f.zeropad then fill else 0) + d)), width, f)
  {
    hide Repeat;
    var digits := Repeat('0', z) + d;
    if f.left {
      assert (sign + prefix) + digits == sign + (prefix + digits);
      BlankEnds(sign + (prefix + digits), 0, width - |sign| - |prefix| - |digits|);
    } else if f.zeropad {
      ZerosBetween(sign, prefix, z, d, width);
    } else {
      assert Repeat(' ', width - |sign| - |prefix| - |digits|) + (sign + prefix) + digits ==
             Repeat(' ', width - |sign| - |prefix| - |digits|) + (sign + (prefix + digits)) + "";
      BlankEnds(sign + (prefix + digits), width - |sign| - |prefix| - |digits|, 0);
    }
  }

  lemma BlankEnds(t: string, a: int, b: int)
    ensures a <= 0 ==> Repeat(' ', a) + t + Repeat(' ', b) == t + Repeat(' ', b)
    ensures b <= 0 ==> Repeat(' ', a) + t + Repeat(' ', b) == Repeat(' ', a) + t
  {
  }

  lemma ZerosBetween(sign: string, prefix: string, z: nat, d: string, width: nat)
    ensures var fill := width - |sign + prefix| - |Repeat('0', z) + d|;
            (sign + prefix) + Repeat('0', fill) + (Repeat('0', z) + d) ==
            "" + (sign + (prefix + (Repeat('0', z + Max(fill, 0)) + d))) + ""
  {
    hide Repeat;
    var fill := width - |sign + prefix| - |Repeat('0', z) + d|;
    SameRepeat('0', fill, Max(fill, 0));
    RepeatJoin('0', Max(fill, 0), z);
    assert (sign + prefix) + Repeat('0', fill) + (Repeat('0', z) + d) ==
           sign + (prefix + ((Repeat('0', Max(fill, 0)) + Repeat('0', z)) + d));
  }

  lemma StdIsJustified(value: nat, negative: bool, base: nat, prec: nat, width: nat, f: Flags)
    requires Dispatched(value, negative, base, prec, f)
    ensures var s := SpecOf(f, prec, width);
            StdField(value, negative, base, s) ==
            Justify(Sign(negative, f) + StdBody(value, negative, base, s), width, f)
  {
    hide Altered, Repeat, OwnDigits, StdZeros, Prefix, Justify, Arrange;
    var s := SpecOf(f, prec, width);
    AlteredShape(value, base, s);
    var d := OwnDigits(value, base, s.upper);
    var given := Max((if s.prec.None? then 1 else s.prec.value) - |d|, 0);
    var z := if s.alt && base == 8 && given == 0 then 1 else given;
    StdZerosShape(|d|, |SignText(negative, s)|, value, base, s);
    ArrangeIsJustify(SignText(negative, s), Prefix(value, base, s), z, d, width, f);
  }

  lemma StdZerosShape(m: nat, signLen: nat, value: nat, base: nat, s: Spec)
    ensures var given := Max((if s.prec.None? then 1 else s.prec.value) - m, 0);
            var z := if s.alt && base == 8 && given == 0 then 1 else given;
            StdZeros(m, signLen, value, base, s) ==
            z + if !s.left && s.zero && s.prec.None? then
                  Max(s.width - signLen - |Prefix(value, base, s)| - z - m, 0) else 0
  {
  }

  // ----- Fields are equal when bodies are, and the sign is not lost -----

  predicate BlankSign(negative: bool, f: Flags) {
    !negative && !f.plus && f.space
  }

  predicate SignKept(body: string, negative: bool, width: nat, f: Flags) {
    || Sign(negative, f) == ""
    || |body| < NTOA_BUFFER
    || (BlankSign(negative, f) && !f.left && !f.zeropad && width > NTOA_BUFFER)
  }

  lemma SignNoSpaces(negative: bool, f: Flags)
    ensures NoSpaces(Sign(negative, f)) == if BlankSign(negative, f) then "" else Sign(negative, f)
  {
    assert NoSpaces("") == "";
    assert "-"[1..] == "" && "+"[1..] == "" && " "[1..] == "";
  }

  lemma EqualFields(be: string, bs: string, negative: bool, width: nat, f: Flags)
    requires Plain(be) && Plain(bs) && |be| <= NTOA_BUFFER
    requires Justify(AddSign(be, negative, f), width, f) == Justify(Sign(negative, f) + bs, width, f)
    ensures be == bs && SignKept(be, negative, width, f)
  {
    hide NoSpaces, Repeat, Justify, Sign;
    var sign := Sign(negative, f);
    var lead := NoSpaces(sign);
    SignNoSpaces(negative, f);
    SignShape(negative, f);
    JustifyNoSpaces(AddSign(be, negative, f), width, f);
    JustifyNoSpaces(sign + bs, width, f);
    NoSpacesJoin(sign, be);
    NoSpacesJoin(sign, bs);
    NoSpacesId(be);
    NoSpacesId(bs);
    if |be| < NTOA_BUFFER {
      assert (lead + be)[|lead|..] == (lead + bs)[|lead|..];
    } else {
      assert be == lead + bs;
      FirstOf(lead, bs);
      assert lead == "";
      assert "" + bs == bs;
      if sign != "" {
        DroppedBlank(be, width, f);
      }
    }
  }

  lemma FirstOf(a: string, b: string)
    ensures a != "" ==> a[0] in a + b
  {
    assert a != "" ==> (a + b)[0] == a[0];
  }

  lemma SignShape(negative: bool, f: Flags)
    ensures Sign(negative, f) in {"", "-", "+", " "}
    ensures Sign(negative, f) == " " <==> BlankSign(negative, f)
  {
  }

  /** A dropped blank goes unnoticed only where left padding puts one in its place. */
  lemma DroppedBlank(b: string, width: nat, f: Flags)
    requires Plain(b) && |b| == NTOA_BUFFER
    ensures Justify(b, width, f) == Justify(" " + b, width, f) <==> !f.left && !f.zeropad && width > NTOA_BUFFER
  {
    hide Plain;
    if f.left || f.zeropad {
      assert Justify(b, width, f)[0] == b[0] != ' ' by { assert Plain(b); NotBlank(b); }
      assert Justify(" " + b, width, f)[0] == ' ';
    } else if width > NTOA_BUFFER {
      RepeatJoin(' ', width - 33, 1);
      assert Repeat(' ', width - 32) + b + "" == Repeat(' ', width - 33) + (" " + b) + "";
    }
  }

  lemma NotBlank(b: string)
    requires Plain(b) && b != ""
    ensures b[0] != ' '
  {
  }

  lemma FieldsIff(be: string, bs: string, negative: bool, width: nat, f: Flags)
    requires Plain(be) && Plain(bs) && |be| <= NTOA_BUFFER
    ensures Justify(AddSign(be, negative, f), width, f) == Justify(Sign(negative, f) + bs, width, f)
            <==> be == bs && SignKept(be, negative, width, f)
  {
    hide Justify, Plain, Sign;
    if Justify(AddSign(be, negative, f), width, f) == Justify(Sign(negative, f) + bs, width, f) {
      EqualFields(be, bs, negative, width, f);
    } else if be == bs && SignKept(be, negative, width, f) && |be| == NTOA_BUFFER {
      SignShape(negative, f);
      assert "" + be == be;
      DroppedBlank(be, width, f);
    }
  }

  // ----- Bodies -----

  lemma Sizes(value: nat, base: nat, f: Flags)
    requires value < 0x1_0000_0000_0000_0000
    ensures base == 16 ==> |Digits(value, 16, f.uppercase)| <= 16
    ensures base == 8 ==> |Digits(value, 8, f.uppercase)| <= 22
    ensures base == 10 ==> |Digits(value, 10, f.uppercase)| <= 20
  {
    hide Digits, Power;
    PowerTable();
    if base == 16 {
      DigitCount(value, 16, f.uppercase, 16);
    } else if base == 8 {
      DigitCount(value, 8, f.uppercase, 22);
    } else if base == 10 {
      DigitCount(value, 10, f.uppercase, 20);
    }
  }

  /** Padded digits and padded digits are equal when they are equally long. */
  lemma PaddedEqual(a: nat, b: nat, d: string)
    ensures Repeat('0', a) + d == Repeat('0', b) + d <==> a == b
  {
    assert |Repeat('0', a) + d| == a + |d|;
    assert |Repeat('0', b) + d| == b + |d|;
  }

  lemma ZeroPadShape(digits: string, target: nat)
    ensures ZeroPad(digits, target) == Repeat('0', Max(target - |digits|, 0)) + digits
  {
    SameRepeat('0', target - |digits|, Max(target - |digits|, 0));
  }

  /** Bodies without a prefix, for a nonzero value. */
  lemma PlainBody(value: nat, negative: bool, base: nat, prec: nat, width: nat, f: Flags)
    requires Dispatched(value, negative, base, prec, f) && value != 0 && !f.hash
    ensures var d := Digits(value, base, f.uppercase);
            Body(Last(d, NTOA_BUFFER), negative, base, prec, width, f) ==
            StdBody(value, negative, base, SpecOf(f, prec, width))
            <==> PlainConforms(|d|, prec, width, negative || f.plus || f.space, f)
  {
    hide Digits, Repeat;
    var d := Digits(value, base, f.uppercase);
    var s := SpecOf(f, prec, width);
    var de := Last(d, NTOA_BUFFER);
    var target := PadTarget(prec, FieldWidth(width, negative, f), f);
    var z := StdZeros(|d|, |SignText(negative, s)|, value, base, s);
    ZeroPadShape(de, target);
    PaddedEqual(Max(target - |de|, 0), z, d);
    assert StdBody(value, negative, base, s) == Repeat('0', z) + d by { EmptyPrefix(Repeat('0', z) + d); }
    PlainArithmetic(|d|, value, negative, base, prec, width, f);
    if |d| > NTOA_BUFFER {
      assert |ZeroPad(de, target)| == NTOA_BUFFER < |Repeat('0', z) + d|;
    }
  }

  /** The zeros both sides write agree exactly under the condition. */
  lemma PlainArithmetic(n: nat, value: nat, negative: bool, base: nat, prec: nat, width: nat, f: Flags)
    requires Dispatched(value, negative, base, prec, f) && value != 0 && !f.hash && 0 < n
    ensures var s := SpecOf(f, prec, width);
            n <= NTOA_BUFFER ==>
            (Max(PadTarget(prec, FieldWidth(width, negative, f), f) - n, 0) ==
             StdZeros(n, |SignText(negative, s)|, value, base, s)
             <==> PlainConforms(n, prec, width, negative || f.plus || f.space, f))
  {
  }

  /** Zero: both bodies are runs of zeros. */
  lemma ZeroBody(negative: bool, base: nat, prec: nat, width: nat, f: Flags)
    requires Dispatched(0, negative, base, prec, f)
    ensures var d := Significant(0, base, f);
            Body(Last(d, NTOA_BUFFER), negative, base, prec, width, f.(hash := false)) ==
            StdBody(0, negative, base, SpecOf(f, prec, width))
            <==> BodyConforms(|d|, 0, negative || f.plus || f.space, base, prec, width, f)
  {
    hide Digits, Repeat, Significant, StdZeros, PadTarget, FieldWidth, BodyConforms, Body, StdBody, SpecOf, SignText;
    var f' := f.(hash := false);
    var s := SpecOf(f, prec, width);
    var n := if f.precision then 0 else 1;
    var target := PadTarget(prec, FieldWidth(width, negative, f'), f');
    var z := StdZeros(0, |SignText(negative, s)|, 0, base, s);
    EngineZeros(negative, base, prec, width, f');
    assert |Significant(0, base, f)| == n by { ZeroDigits(base, f); }
    assert Significant(0, base, f) == Significant(0, base, f') by { ZeroDigits(base, f); ZeroDigits(base, f'); }
    StdZeroBody(negative, base, s);
    RunsEqual(Max(target, n), z);
    ZeroArithmetic(negative, base, prec, width, f);
  }

  lemma RunsEqual(a: nat, b: nat)
    ensures Repeat('0', a) == Repeat('0', b) <==> a == b
  {
    assert |Repeat('0', a)| == a && |Repeat('0', b)| == b;
  }

  lemma EngineZeros(negative: bool, base: nat, prec: nat, width: nat, f: Flags)
    requires 2 <= base <= 16 && !f.hash
    ensures Body(Last(Significant(0, base, f), NTOA_BUFFER), negative, base, prec, width, f) ==
            Repeat('0', Max(PadTarget(prec, FieldWidth(width, negative, f), f), if f.precision then 0 else 1))
  {
    hide Repeat, Significant, PadTarget, FieldWidth, ZeroPad;
    ZeroDigits(base, f);
    ZerosOnly(Significant(0, base, f), PadTarget(prec, FieldWidth(width, negative, f), f));
  }

  lemma StdZeroBody(negative: bool, base: nat, s: Spec)
    requires 2 <= base <= 16
    ensures StdBody(0, negative, base, s) == Repeat('0', StdZeros(0, |SignText(negative, s)|, 0, base, s))
  {
    hide Repeat, StdZeros, SignText;
    var zeros := Repeat('0', StdZeros(0, |SignText(negative, s)|, 0, base, s));
    EmptyPrefix(zeros + "");
    EmptySuffix(zeros);
  }

  lemma ZeroDigits(base: nat, f: Flags)
    requires 2 <= base <= 16
    ensures Significant(0, base, f) == if f.precision then "" else "0"
  {
  }

  lemma ZerosOnly(d: string, target: nat)
    requires d == "" || d == "0"
    ensures ZeroPad(d, target) == Repeat('0', Max(target, |d|))
  {
    var z := Max(target, |d|);
    assert forall i :: 0 <= i < z ==> ZeroPad(d, target)[i] == Repeat('0', z)[i];
  }

  lemma ZeroArithmetic(negative: bool, base: nat, prec: nat, width: nat, f: Flags)
    requires Dispatched(0, negative, base, prec, f)
    ensures var f' := f.(hash := false);
            var s := SpecOf(f, prec, width);
            var n := if f.precision then 0 else 1;
            Max(PadTarget(prec, FieldWidth(width, negative, f'), f'), n) ==
            StdZeros(0, |SignText(negative, s)|, 0, base, s)
            <==> BodyConforms(n, 0, negative || f.plus || f.space, base, prec, width, f)
  {
  }

  // Bodies with the octal prefix.

  lemma OctalBody(value: nat, prec: nat, width: nat, f: Flags)
    requires Dispatched(value, false, 8, prec, f) && value != 0 && f.hash
    ensures var d := Digits(value, 8, f.uppercase);
            Body(Last(d, NTOA_BUFFER), false, 8, prec, width, f) ==
            StdBody(value, false, 8, SpecOf(f, prec, width))
            <==> OctalConforms(|d|, prec, width, f)
  {
    hide Digits, Repeat, StdZeros, PadTarget, ZeroPad, Strip, OctalConforms, AddPrefix, Prefix, Last;
    var d := Digits(value, 8, f.uppercase);
    var z := StdZeros(|d|, 0, value, 8, SpecOf(f, prec, width));
    UnsignedWidth(width, f);
    OctalHasNoPrefix(value, prec, width, f);
    EmptyPrefix(Repeat('0', z) + d);
    OctalLengths(value, prec, width, f);
    OctalText(d, PadTarget(prec, width, f), z, prec, width, f);
  }

  lemma OctalHasNoPrefix(value: nat, prec: nat, width: nat, f: Flags)
    ensures Prefix(value, 8, SpecOf(f, prec, width)) == ""
  {
  }

  /** The lengths of both bodies, against the arithmetic of the condition. */
  lemma OctalLengths(value: nat, prec: nat, width: nat, f: Flags)
    requires Dispatched(value, false, 8, prec, f) && value != 0 && f.hash
    ensures var d := Digits(value, 8, f.uppercase);
            var b := AddPrefix(Strip(ZeroPad(d, PadTarget(prec, width, f)), 8, prec, width, f), 8, f);
            var z := StdZeros(|d|, 0, value, 8, SpecOf(f, prec, width));
            && Last(d, NTOA_BUFFER) == d && z > 0
            && |ZeroPad(d, PadTarget(prec, width, f))| <= NTOA_BUFFER
            && (|b| == |d| + z <==> OctalConforms(|d|, prec, width, f))
  {
    Sizes(value, 8, f);
    hide Digits, Repeat, StdZeros, PadTarget, Strip, OctalConforms, AddPrefix;
    var d := Digits(value, 8, f.uppercase);
    var target := PadTarget(prec, width, f);
    ZeroPadShape(d, target);
    StripZeros(Max(target - |d|, 0), d, 8, prec, width, f);
    OctalArithmetic(|d|, value, prec, width, f);
    OctalPrefixed(Strip(ZeroPad(d, target), 8, prec, width, f), f);
  }

  /** An octal body is zeros in front of the digits unless it is shorter than any. */
  lemma OctalText(d: string, target: nat, z: nat, prec: nat, width: nat, f: Flags)
    requires d != "" && f.hash && z > 0 && |ZeroPad(d, target)| <= NTOA_BUFFER
    ensures var b := AddPrefix(Strip(ZeroPad(d, target), 8, prec, width, f), 8, f);
            b == Repeat('0', z) + d <==> |b| == z + |d|
  {
    hide Repeat, Strip, AddPrefix, ZeroPad;
    var j := Max(target - |d|, 0);
    ZeroPadShape(d, target);
    StripZeros(j, d, 8, prec, width, f);
    var stripped := Strip(ZeroPad(d, target), 8, prec, width, f);
    OctalPrefixed(stripped, f);
    if |stripped| == j + |d| {
      ZeroInFront(j, d);
    } else if j > 0 {
      ZeroInFront(j - 1, d);
    }
  }

  lemma OctalPrefixed(b: string, f: Flags)
    requires f.hash
    ensures AddPrefix(b, 8, f) == if |b| < NTOA_BUFFER then "0" + b else b
  {
    EmptyPrefix(b);
  }

  /** The length of the engine's octal body, and when it is the standard's. */
  lemma OctalArithmetic(n: nat, value: nat, prec: nat, width: nat, f: Flags)
    requires Dispatched(value, false, 8, prec, f) && value != 0 && f.hash && 0 < n <= 22
    ensures var l := Max(n, PadTarget(prec, width, f));
            var z := StdZeros(n, 0, value, 8, SpecOf(f, prec, width));
            var e := if !f.precision && (l == prec || l == width) then l else Min(l + 1, NTOA_BUFFER);
            && l <= NTOA_BUFFER && z > 0
            && (e == n + z <==> OctalConforms(n, prec, width, f))
  {
  }

  lemma UnsignedWidth(width: nat, f: Flags)
    requires !f.plus && !f.space
    ensures FieldWidth(width, false, f) == width
  {
  }

  lemma ZeroInFront(a: nat, d: string)
    ensures "0" + (Repeat('0', a) + d) == Repeat('0', a + 1) + d
  {
    RepeatJoin('0', 1, a);
    assert "0" + (Repeat('0', a) + d) == ("0" + Repeat('0', a)) + d;
    assert Repeat('0', 1) == "0";
  }

  /** Stripping takes zeros first. */
  lemma StripZeros(j: nat, d: string, base: nat, prec: nat, width: nat, f: Flags)
    requires d != ""
    ensures var b := Repeat('0', j) + d;
            var cut := if f.hash && !f.precision && (|b| == prec || |b| == width) then
                         (if |b| > 1 && base == 16 then 2 else 1) else 0;
            && |Strip(b, base, prec, width, f)| == |b| - cut
            && (cut <= j ==> Strip(b, base, prec, width, f) == Repeat('0', j - cut) + d)
  {
    hide Repeat;
    DropZeros(j, 1, d);
    DropZeros(j, 2, d);
  }

  lemma DropZeros(j: nat, cut: nat, d: string)
    ensures cut <= j ==> (Repeat('0', j) + d)[cut..] == Repeat('0', j - cut) + d
  {
    assert cut <= j ==> forall i :: 0 <= i < j - cut + |d| ==>
      (Repeat('0', j) + d)[cut..][i] == (Repeat('0', j - cut) + d)[i];
  }

  // Bodies with a two-character prefix, in bases 16 and 2.

  predicate LetterBase(base: nat) {
    base == 16 || base == 2
  }

  lemma LetterBody(value: nat, base: nat, prec: nat, width: nat, f: Flags)
    requires Dispatched(value, false, base, prec, f) && value != 0 && f.hash && LetterBase(base)
    ensures var d := Digits(value, base, f.uppercase);
            Body(Last(d, NTOA_BUFFER), false, base, prec, width, f) ==
            StdBody(value, false, base, SpecOf(f, prec, width))
            <==> LetterConforms(|d|, base, prec, width, f)
  {
    Sizes(value, base, f);
    hide Digits, Repeat, StdZeros, PadTarget, ZeroPad, Strip, AddPrefix, LetterConforms, Prefix, Letter, Dispatched,
         Last;
    var d := Digits(value, base, f.uppercase);
    var s := SpecOf(f, prec, width);
    var de := Last(d, NTOA_BUFFER);
    var z := StdZeros(|d|, 0, value, base, s);
    UnsignedWidth(width, f);
    PrefixIsLetter(value, base, prec, width, f);
    var stripped := Strip(ZeroPad(de, PadTarget(prec, width, f)), base, prec, width, f);
    var std := ("0" + Letter(base, f)) + (Repeat('0', z) + d);
    LetterLengths(value, base, prec, width, f);
    LetterPrefix(stripped, base, f);
    if |stripped| <= NTOA_BUFFER - 2 {
      LetterShort(Letter(base, f), stripped, z, d, PadTarget(prec, width, f), base, prec, width, f);
    } else if |stripped| == NTOA_BUFFER - 1 {
      FirstLetter(Letter(base, f), stripped, Repeat('0', z) + d);
    } else {
      FullBuffer(value, base, prec, width, f);
      SecondLetter(Letter(base, f), Repeat('0', z) + d);
    }
  }

  lemma FirstLetter(letter: string, b: string, rest: string)
    requires |letter| == 1 && letter[0] != '0'
    ensures letter + b != ("0" + letter) + rest
  {
    assert (letter + b)[0] == letter[0];
    assert (("0" + letter) + rest)[0] == '0';
  }

  lemma SecondLetter(letter: string, rest: string)
    requires |letter| == 1
    ensures (("0" + letter) + rest)[1] == letter[0]
  {
  }

  /** The stripped length, against the arithmetic of the condition. */
  lemma LetterLengths(value: nat, base: nat, prec: nat, width: nat, f: Flags)
    requires Dispatched(value, false, base, prec, f) && value != 0 && f.hash && LetterBase(base)
    ensures var d := Digits(value, base, f.uppercase);
            var de := Last(d, NTOA_BUFFER);
            var stripped := Strip(ZeroPad(de, PadTarget(prec, width, f)), base, prec, width, f);
            var z := StdZeros(|d|, 0, value, base, SpecOf(f, prec, width));
            && |stripped| <= NTOA_BUFFER
            && (|stripped| <= NTOA_BUFFER - 2 ==> |d| <= NTOA_BUFFER && de == d)
            && (|stripped| <= NTOA_BUFFER - 2 && |stripped| == z + |d| <==> LetterConforms(|d|, base, prec, width, f))
  {
    Sizes(value, base, f);
    hide Digits, Repeat, StdZeros, PadTarget, Strip, LetterConforms;
    var d := Digits(value, base, f.uppercase);
    var de := Last(d, NTOA_BUFFER);
    var target := PadTarget(prec, width, f);
    ZeroPadShape(de, target);
    StripZeros(Max(target - |de|, 0), de, base, prec, width, f);
    LetterArithmetic(|d|, value, base, prec, width, f);
  }

  lemma LetterPrefix(b: string, base: nat, f: Flags)
    requires f.hash && LetterBase(base) && |b| <= NTOA_BUFFER
    ensures |b| <= NTOA_BUFFER - 2 ==> AddPrefix(b, base, f) == ("0" + Letter(base, f)) + b
    ensures |b| == NTOA_BUFFER - 1 ==> AddPrefix(b, base, f) == Letter(base, f) + b
    ensures |b| == NTOA_BUFFER ==> AddPrefix(b, base, f) == b
    ensures |Letter(base, f)| == 1 && Letter(base, f)[0] != '0'
  {
    if |b| <= NTOA_BUFFER - 2 {
      assert "0" + (Letter(base, f) + b) == ("0" + Letter(base, f)) + b;
    }
  }

  lemma PrefixIsLetter(value: nat, base: nat, prec: nat, width: nat, f: Flags)
    requires f.hash && value != 0 && LetterBase(base)
    ensures Prefix(value, base, SpecOf(f, prec, width)) == "0" + Letter(base, f)
  {
  }

  /** With room for the prefix, equal lengths make equal bodies. */
  lemma LetterShort(letter: string, stripped: string, z: nat, d: string, target: nat,
                    base: nat, prec: nat, width: nat, f: Flags)
    requires d != "" && |d| <= NTOA_BUFFER && |letter| == 1
    requires stripped == Strip(ZeroPad(d, target), base, prec, width, f)
    ensures ("0" + letter) + stripped == ("0" + letter) + (Repeat('0', z) + d) <==> |stripped| == z + |d|
  {
    hide Repeat, Strip, ZeroPad;
    ZeroPadShape(d, target);
    StripZeros(Max(target - |d|, 0), d, base, prec, width, f);
    var head := "0" + letter;
    assert (head + stripped)[2..] == stripped;
    assert (head + (Repeat('0', z) + d))[2..] == Repeat('0', z) + d;
  }

  /** A scratch array filled with digits has no letter in second place. */
  lemma FullBuffer(value: nat, base: nat, prec: nat, width: nat, f: Flags)
    requires Dispatched(value, false, base, prec, f) && value != 0 && LetterBase(base)
    requires var de := Last(Digits(value, base, f.uppercase), NTOA_BUFFER);
             |Strip(ZeroPad(de, PadTarget(prec, width, f)), base, prec, width, f)| == NTOA_BUFFER
    ensures var de := Last(Digits(value, base, f.uppercase), NTOA_BUFFER);
            Strip(ZeroPad(de, PadTarget(prec, width, f)), base, prec, width, f)[1] != Letter(base, f)[0]
  {
    hide Digits, PadTarget;
    DigitsDenote(value, base, f.uppercase);
    var d := Digits(value, base, f.uppercase);
    var de := Last(d, NTOA_BUFFER);
    var padded := ZeroPad(de, PadTarget(prec, width, f));
    assert IsDigitIn(padded[1], base);
  }

  /** The length left after stripping, and when two more characters make the standard's. */
  lemma LetterArithmetic(n: nat, value: nat, base: nat, prec: nat, width: nat, f: Flags)
    requires Dispatched(value, false, base, prec, f) && value != 0 && f.hash && LetterBase(base)
    requires 0 < n && (base == 16 ==> n <= 16)
    ensures var m := Min(n, NTOA_BUFFER);
            var l := Max(m, PadTarget(prec, width, f));
            var z := StdZeros(n, 0, value, base, SpecOf(f, prec, width));
            var cut := if !f.precision && (l == prec || l == width) then (if l > 1 && base == 16 then 2 else 1) else 0;
            && l <= NTOA_BUFFER
            && (l - cut <= NTOA_BUFFER - 2 ==> n <= NTOA_BUFFER)
            && (l - cut <= NTOA_BUFFER - 2 && l - cut == n + z <==> LetterConforms(n, base, prec, width, f))
  {
  }

  // ----- The theorem -----

  /** The engine's integer text is the standard's exactly under Conforms. */
  lemma IntegerConformsIff(value: nat, negative: bool, base: nat, prec: nat, width: nat, f: Flags)
    requires Dispatched(value, negative, base, prec, f)
    ensures EngineText(value, negative, base, prec, width, f) ==
            StdField(value, negative, base, SpecOf(f, prec, width))
            <==> Conforms(value, negative, base, prec, width, f)
  {
    hide Justify, StdField, Body, StdBody, BodyConforms, Significant, AddSign, SignKept, SignConforms, Plain, Last,
         SpecOf, FormatText;
    var f' := f.(hash := f.hash && value != 0);
    var d := Last(Significant(value, base, f), NTOA_BUFFER);
    var be := Body(d, negative, base, prec, width, f');
    var bs := StdBody(value, negative, base, SpecOf(f, prec, width));
    StdIsJustified(value, negative, base, prec, width, f);
    BodiesPlain(value, negative, base, prec, width, f);
    EngineIsJustified(value, negative, base, prec, width, f);
    FieldsIff(be, bs, negative, width, f);
    BodiesIff(value, negative, base, prec, width, f);
    if be == bs {
      BodyLength(value, negative, base, prec, width, f);
    }
  }

  lemma EngineIsJustified(value: nat, negative: bool, base: nat, prec: nat, width: nat, f: Flags)
    requires 2 <= base <= 16
    ensures var be := Body(Last(Significant(value, base, f), NTOA_BUFFER), negative, base, prec, width,
                           f.(hash := f.hash && value != 0));
            EngineText(value, negative, base, prec, width, f) == Justify(AddSign(be, negative, f), width, f)
            && |be| <= NTOA_BUFFER
  {
    hide Justify, Body, Significant, Last, AddSign, FieldWidth;
    var d := Last(Significant(value, base, f), NTOA_BUFFER);
    var f' := f.(hash := f.hash && value != 0);
    FormatIsJustified(d, negative, base, prec, width, f, f');
    BodySize(d, negative, base, prec, width, f');
  }

  lemma BodySize(d: string, negative: bool, base: nat, prec: nat, width: nat, f: Flags)
    requires |d| <= NTOA_BUFFER
    ensures |Body(d, negative, base, prec, width, f)| <= NTOA_BUFFER
  {
  }

  lemma FormatIsJustified(d: string, negative: bool, base: nat, prec: nat, width: nat, f: Flags, f': Flags)
    requires f' == f.(hash := f'.hash)
    ensures FormatText(d, negative, base, prec, width, f') ==
            Justify(AddSign(Body(d, negative, base, prec, width, f'), negative, f), width, f)
  {
    hide Justify, Body;
    var be := Body(d, negative, base, prec, width, f');
    assert AddSign(be, negative, f') == AddSign(be, negative, f);
    SameJustify(AddSign(be, negative, f), width, negative, f, f');
  }

  lemma SameJustify(t: string, width: nat, negative: bool, f: Flags, f': Flags)
    requires f' == f.(hash := f'.hash)
    ensures Justify(t, FieldWidth(width, negative, f'), f') == Justify(t, width, f)
  {
    JustifyFieldWidth(t, width, negative, f');
  }

  lemma BodiesPlain(value: nat, negative: bool, base: nat, prec: nat, width: nat, f: Flags)
    requires Dispatched(value, negative, base, prec, f)
    ensures Plain(Body(Last(Significant(value, base, f), NTOA_BUFFER), negative, base, prec, width,
                       f.(hash := f.hash && value != 0)))
    ensures Plain(StdBody(value, negative, base, SpecOf(f, prec, width)))
  {
    hide Significant, Body, OwnDigits, Repeat, StdZeros;
    SignificantFacts(value, base, f);
    var d := Last(Significant(value, base, f), NTOA_BUFFER);
    assert Plain(d);
    BodyPlain(d, negative, base, prec, width, f.(hash := f.hash && value != 0));
    var s := SpecOf(f, prec, width);
    var m := OwnDigits(value, base, s.upper);
    OwnDigitsFacts(value, base, s.upper);
    var zeros := Repeat('0', StdZeros(|m|, |SignText(negative, s)|, value, base, s));
    PlainJoin(zeros, m);
    PlainJoin(Prefix(value, base, s), zeros + m);
  }

  lemma BodiesIff(value: nat, negative: bool, base: nat, prec: nat, width: nat, f: Flags)
    requires Dispatched(value, negative, base, prec, f)
    ensures var d := Significant(value, base, f);
            Body(Last(d, NTOA_BUFFER), negative, base, prec, width, f.(hash := f.hash && value != 0)) ==
            StdBody(value, negative, base, SpecOf(f, prec, width))
            <==> BodyConforms(|d|, value, negative || f.plus || f.space, base, prec, width, f)
  {
    hide Body, StdBody, PlainConforms, OctalConforms, LetterConforms, Digits;
    if value == 0 {
      ZeroBody(negative, base, prec, width, f);
    } else if !f.hash {
      PlainBody(value, negative, base, prec, width, f);
    } else if base == 8 {
      OctalBody(value, prec, width, f);
    } else {
      LetterBody(value, base, prec, width, f);
    }
  }

  /** Where a sign is wanted the body has no prefix, so its length is the padding target. */
  lemma BodyLength(value: nat, negative: bool, base: nat, prec: nat, width: nat, f: Flags)
    requires Dispatched(value, negative, base, prec, f)
    ensures var d := Significant(value, base, f);
            var b := Body(Last(d, NTOA_BUFFER), negative, base, prec, width, f.(hash := f.hash && value != 0));
            SignKept(b, negative, width, f) <==> SignConforms(|d|, negative, prec, width, f)
  {
    hide Significant, Repeat;
  }

  /** A conforming field without a prefix is as long as its width, or as its sign and the
      larger of its digits and precision. */
  lemma FieldLength(value: nat, negative: bool, base: nat, prec: nat, width: nat, f: Flags)
    requires Dispatched(value, negative, base, prec, f) && !f.hash
    requires Conforms(value, negative, base, prec, width, f)
    ensures |EngineText(value, negative, base, prec, width, f)| ==
            Max(width, Max(|Significant(value, base, f)|, prec) + |Sign(negative, f)|)
  {
    hide EngineText, Altered, Significant, OwnDigits, Conforms, Arrange, Repeat;
    IntegerConformsIff(value, negative, base, prec, width, f);
    var s := SpecOf(f, prec, width);
    AlteredShape(value, base, s);
    OwnDigitsLength(value, base, prec, width, f);
    ArrangedLength(SignText(negative, s) + Prefix(value, base, s), Altered(value, base, s), width, s.left,
                   s.zero && s.prec.None?);
  }

  lemma OwnDigitsLength(value: nat, base: nat, prec: nat, width: nat, f: Flags)
    requires 2 <= base <= 16
    ensures |OwnDigits(value, base, f.uppercase)| == if value == 0 then 0 else |Significant(value, base, f)|
    ensures value == 0 ==> |Significant(value, base, f)| == if f.precision then 0 else 1
    ensures value != 0 ==> |Significant(value, base, f)| > 0
  {
  }

  lemma ArrangedLength(lead: string, digits: string, width: nat, left: bool, zero: bool)
    ensures |Arrange(lead, digits, width, left, zero)| == Max(width, |lead| + |digits|)
  {
    hide Repeat;
  }
}
