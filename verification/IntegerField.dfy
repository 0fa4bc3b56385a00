/** Integer conversion in libc/src/printf.c: the text that the 32-character scratch
    array, its padding stages and the reversing emitter produce for every input. */
module IntegerField {
  import opened Text
  import opened Numerals

  const NTOA_BUFFER := 32

  /** The flag bits of one conversion. */
  datatype Flags = Flags(
    zeropad: bool, left: bool, plus: bool, space: bool, hash: bool, uppercase: bool,
    chr: bool, short: bool, long: bool, longLong: bool, precision: bool)

  const NO_FLAGS := Flags(false, false, false, false, false, false, false, false, false, false, false)

  // ----- The digit generator -----

  /** The digits a number needs: none for zero under an explicit precision. */
  function Significant(value: nat, base: nat, f: Flags): string
    requires 2 <= base <= 16
  {
    if f.precision && value == 0 then "" else Digits(value, base, f.uppercase)
  }

  function Last(s: string, n: nat): (r: string)
    ensures |r| == Min(|s|, n)
  {
    if |s| <= n then s else s[|s| - n..]
  }

  // ----- The formatting stages, most significant character first -----

  function Sign(negative: bool, f: Flags): string {
    if negative then "-" else if f.plus then "+" else if f.space then " " else ""
  }

  /** Room for a sign comes out of the zero-padded width. */
  function FieldWidth(width: nat, negative: bool, f: Flags): nat {
    if !f.left && width > 0 && f.zeropad && (negative || f.plus || f.space) then width - 1 else width
  }

  /** The length up to which the scratch array is filled with zeros. */
  function PadTarget(prec: nat, width: nat, f: Flags): nat {
    if f.left then 0
    else Max(Min(prec, NTOA_BUFFER), if f.zeropad then Min(width, NTOA_BUFFER) else 0)
  }

  function ZeroPad(digits: string, target: nat): (r: string)
    ensures |r| == Max(|digits|, target)
  {
    Repeat('0', target - |digits|) + digits
  }

  /** With `#` and no precision, a field that exactly fills the width gives up one
      leading character, or two in base 16. */
  function Strip(body: string, base: nat, prec: nat, width: nat, f: Flags): (r: string)
    ensures |r| <= |body|
  {
    if f.hash && !f.precision && body != "" && (|body| == prec || |body| == width) then
      (if |body| > 1 && base == 16 then body[2..] else body[1..])
    else body
  }

  function Letter(base: nat, f: Flags): string {
    if base == 16 then (if f.uppercase then "X" else "x") else if base == 2 then "b" else ""
  }

  function AddPrefix(body: string, base: nat, f: Flags): (r: string)
    ensures |body| <= NTOA_BUFFER ==> |r| <= NTOA_BUFFER
  {
    if !f.hash then body
    else
      var lettered := if |body| < NTOA_BUFFER then Letter(base, f) + body else body;
      if |lettered| < NTOA_BUFFER then "0" + lettered else lettered
  }

  function AddSign(body: string, negative: bool, f: Flags): (r: string)
    ensures |body| <= NTOA_BUFFER ==> |r| <= NTOA_BUFFER
  {
    if |body| < NTOA_BUFFER then Sign(negative, f) + body else body
  }

  function Justify(text: string, width: nat, f: Flags): string {
    Repeat(' ', if !f.left && !f.zeropad then width - |text| else 0) + text +
    Repeat(' ', if f.left then width - |text| else 0)
  }

  function Body(digits: string, negative: bool, base: nat, prec: nat, width: nat, f: Flags): (r: string)
    ensures |digits| <= NTOA_BUFFER ==> |r| <= NTOA_BUFFER
  {
    var w := FieldWidth(width, negative, f);
    AddPrefix(Strip(ZeroPad(digits, PadTarget(prec, w, f)), base, prec, w, f), base, f)
  }

  /** _ntoa_format on the digits already in the scratch array. */
  function FormatText(digits: string, negative: bool, base: nat, prec: nat, width: nat, f: Flags): string {
    Justify(AddSign(Body(digits, negative, base, prec, width, f), negative, f), FieldWidth(width, negative, f), f)
  }

  /** _ntoa_long and _ntoa_long_long: `#` is dropped for zero. */
  function EngineText(value: nat, negative: bool, base: nat, prec: nat, width: nat, f: Flags): string
    requires 2 <= base <= 16
  {
    FormatText(Last(Significant(value, base, f), NTOA_BUFFER), negative, base, prec, width,
               f.(hash := f.hash && value != 0))
  }

  // ----- Justification neither adds nor removes anything but blanks -----

  lemma JustifyNoSpaces(text: string, width: nat, f: Flags)
    ensures NoSpaces(Justify(text, width, f)) == NoSpaces(text)
  {
    hide NoSpaces, Repeat;
    var a := if !f.left && !f.zeropad then width - |text| else 0;
    var b := if f.left then width - |text| else 0;
    NoSpacesJoin(Repeat(' ', a) + text, Repeat(' ', b));
    NoSpacesJoin(Repeat(' ', a), text);
    NoSpacesBlank(a);
    NoSpacesBlank(b);
    assert "" + NoSpaces(text) + "" == NoSpaces(text);
  }

  /** Shortening the width only matters where no blanks are written. */
  lemma JustifyFieldWidth(text: string, width: nat, negative: bool, f: Flags)
    ensures Justify(text, FieldWidth(width, negative, f), f) == Justify(text, width, f)
  {
  }

  /** Characters that can stand in a body: no blanks and no signs. */
  predicate Plain(s: string) {
    ' ' !in s && '-' !in s && '+' !in s
  }

  lemma PlainJoin(a: string, b: string)
    requires Plain(a) && Plain(b)
    ensures Plain(a + b)
  {
  }

  lemma DigitsPlain(s: string)
    requires AllDigits(s, 16)
    ensures Plain(s)
  {
    forall i | 0 <= i < |s| ensures s[i] != ' ' && s[i] != '-' && s[i] != '+' {
      assert IsDigitIn(s[i], 16);
    }
  }

  lemma SignificantFacts(value: nat, base: nat, f: Flags)
    requires 2 <= base <= 16
    ensures var d := Significant(value, base, f);
            && AllDigits(d, base) && Plain(d) && Value(d, base) == value
            && (value != 0 ==> d != "" && d[0] != '0')
  {
    hide Digits, Value;
    DigitsDenote(value, base, f.uppercase);
    var d := Significant(value, base, f);
    assert Value("", base) == 0 by { EmptyValue(base); }
    assert AllDigits(d, 16);
    DigitsPlain(d);
  }

  lemma EmptyValue(base: nat)
    ensures Value("", base) == 0
  {
  }

  lemma BodyPlain(digits: string, negative: bool, base: nat, prec: nat, width: nat, f: Flags)
    requires Plain(digits)
    ensures Plain(Body(digits, negative, base, prec, width, f))
  {
    hide Repeat;
    var w := FieldWidth(width, negative, f);
    var padded := ZeroPad(digits, PadTarget(prec, w, f));
    PlainJoin(Repeat('0', PadTarget(prec, w, f) - |digits|), digits);
    var stripped := Strip(padded, base, prec, w, f);
    assert Plain(stripped);
    PlainJoin(Letter(base, f), stripped);
  }
}
