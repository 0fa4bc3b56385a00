/** What a parsed format means: the text of each item under an argument list, and the
    concatenation over a whole format. */
module Denotation {
  import opened Text
  import opened Format
  import opened Arguments
  import opened IntegerField

  /** `value > 0 ? value : 0 - value` in two's complement, read as unsigned. */
  function Magnitude(value: int, width: nat): nat
    requires width == 32 || width == 64
  {
    var range := if width == 32 then 0x1_0000_0000 else 0x1_0000_0000_0000_0000;
    (if value > 0 then value else 0 - value) % range
  }

  // ----- Flags, width and precision -----

  /** The state of the scanner in front of the conversion character. */
  datatype Setting = Setting(flags: Flags, width: nat, precision: nat)

  /** Widths and precisions are unsigned ints, and a precision comes with its flag. */
  predicate SettingOk(st: Setting) {
    && st.width < UINT_RANGE && st.precision < UINT_RANGE
    && (st.precision != 0 ==> st.flags.precision)
  }

  function BaseFlags(f: FlagSet): Flags {
    NO_FLAGS.(zeropad := f.zero, left := f.left, plus := f.plus, space := f.space, hash := f.hash)
  }

  /** long, ptrdiff_t, intmax_t and size_t have the same size here. */
  function LengthFlags(f: Flags, l: Length): Flags {
    match l
    case Default => f
    case H => f.(short := true)
    case HH => f.(short := true, chr := true)
    case L => f.(long := true)
    case LL => f.(long := true, longLong := true)
    case T => f.(long := true)
    case J => f.(long := true)
    case Z => f.(long := true)
  }

  /** A written width is read into an unsigned int, and a negative argument means left
      justification. */
  function WithWidth(f: Flags, width: Amount, args: seq<Arg>, a: nat): Option<(Setting, nat)> {
    match width
    case Absent => Some((Setting(f, 0, 0), a))
    case Given(n) => Some((Setting(f, n % UINT_RANGE, 0), a))
    case FromArgument =>
      match StarArg(args, a)
      case None => None
      case Some(w) => Some((Setting(if w < 0 then f.(left := true) else f, if w < 0 then -w else w, 0), a + 1))
  }

  /** A written precision is read into an unsigned int, and a negative argument counts
      as 0. */
  function WithPrecision(st: Setting, precision: Amount, args: seq<Arg>, a: nat): Option<(Setting, nat)> {
    match precision
    case Absent => Some((st, a))
    case Given(n) => Some((st.(flags := st.flags.(precision := true), precision := n % UINT_RANGE), a))
    case FromArgument =>
      match StarArg(args, a)
      case None => None
      case Some(p) => Some((st.(flags := st.flags.(precision := true), precision := Max(p, 0)), a + 1))
  }

  // ----- Conversions -----

  predicate IsFloat(c: char) {
    c == 'f' || c == 'F' || c == 'e' || c == 'E' || c == 'g' || c == 'G'
  }

  /** Flags that do not apply to a conversion are dropped: `#` in decimal, signs on
      unsigned numbers, and zero padding beside a precision. */
  function IntegerFlags(c: char, f: Flags): Flags {
    WithoutZero(WithoutSigns(c, Capital(c, WithoutHash(c, f))))
  }

  function WithoutHash(c: char, f: Flags): Flags {
    if BaseOf(c) == 10 then f.(hash := false) else f
  }

  function Capital(c: char, f: Flags): Flags {
    if c == 'X' then f.(uppercase := true) else f
  }

  function WithoutSigns(c: char, f: Flags): Flags {
    if IsSigned(c) then f else f.(plus := false, space := false)
  }

  function WithoutZero(f: Flags): Flags {
    if f.precision then f.(zeropad := false) else f
  }

  predicate WantsLong(f: Flags) {
    f.long || f.longLong
  }

  predicate ArgFits(f: Flags, arg: Arg) {
    if WantsLong(f) then arg.Long? else arg.Int?
  }

  /** char is unsigned on this target. */
  function SignedValue(f: Flags, arg: Arg): int
    requires ArgFits(f, arg)
  {
    if WantsLong(f) then Signed(arg.bits64, 64)
    else if f.chr then arg.bits % 0x100
    else if f.short then Signed(arg.bits, 16)
    else Signed(arg.bits, 32)
  }

  function UnsignedValue(f: Flags, arg: Arg): nat
    requires ArgFits(f, arg)
  {
    if WantsLong(f) then arg.bits64
    else if f.chr then arg.bits % 0x100
    else if f.short then arg.bits % 0x1_0000
    else arg.bits
  }

  function IntegerText(c: char, st: Setting, arg: Arg): string
    requires IsInteger(c) && ArgFits(st.flags, arg)
  {
    var f := IntegerFlags(c, st.flags);
    if IsSigned(c) then
      var v := SignedValue(f, arg);
      EngineText(Magnitude(v, if WantsLong(f) then 64 else 32), v < 0, BaseOf(c), st.precision, st.width, f)
    else
      EngineText(UnsignedValue(f, arg), false, BaseOf(c), st.precision, st.width, f)
  }

  /** Blanks up to the width on the side the flags choose. */
  function Padded(text: string, length: nat, st: Setting): string {
    var blanks := Repeat(' ', st.width - length);
    if st.flags.left then text + blanks else blanks + text
  }

  function CharText(st: Setting, bits: nat): string {
    Padded([(bits % 0x100) as char], 1, st)
  }

  /** The part of a string that the precision lets through. */
  function Clipped(st: Setting, text: string): string {
    if st.flags.precision then text[..Min(|text|, st.precision)] else text
  }

  /** The length is kept in an unsigned int, so padding sees it modulo 2^32. */
  function StringText(st: Setting, text: string): string {
    Padded(Clipped(st, text), |Clipped(st, text)| % UINT_RANGE, st)
  }

  /** A pointer is sixteen capital hexadecimal digits, whatever width was given. */
  function PointerText(st: Setting, bits: nat): string {
    EngineText(bits, false, 16, st.precision, 16, st.flags.(zeropad := true, uppercase := true))
  }

  /** The text of a conversion and the next argument; None when the argument list does
      not match or the conversion is a floating-point one. */
  function Convert(c: char, st: Setting, args: seq<Arg>, a: nat): Option<(string, nat)> {
    if IsFloat(c) then None
    else if IsInteger(c) then
      if a < |args| && ArgFits(st.flags, args[a]) then Some((IntegerText(c, st, args[a]), a + 1)) else None
    else if c == 'c' then
      if a < |args| && args[a].Int? then Some((CharText(st, args[a].bits), a + 1)) else None
    else if c == 's' then
      if a < |args| && args[a].Str? then Some((StringText(st, args[a].text), a + 1)) else None
    else if c == 'p' then
      if a < |args| && args[a].Long? then Some((PointerText(st, args[a].bits64), a + 1)) else None
    else Some(([c], a))
  }

  /** The setting in which a directive's conversion happens, and the argument it reads. */
  function SettingOf(d: Directive, args: seq<Arg>, a: nat): Option<(Setting, nat)> {
    match WithWidth(BaseFlags(d.flags), d.width, args, a)
    case None => None
    case Some((st, b)) =>
      match WithPrecision(st, d.precision, args, b)
      case None => None
      case Some((st', b')) => Some((st'.(flags := LengthFlags(st'.flags, d.length)), b'))
  }

  function DirectiveText(d: Directive, args: seq<Arg>, a: nat): Option<(string, nat)> {
    match SettingOf(d, args, a)
    case None => None
    case Some((st, b)) => Convert(d.conversion, st, args, b)
  }

  /** The concatenated text of the items, consuming arguments from position a. */
  function Meaning(items: seq<Item>, args: seq<Arg>, a: nat): Option<string> {
    if items == [] then Some("")
    else
      match items[0]
      case Literal(c) => Append([c], Meaning(items[1..], args, a))
      case Conversion(d) =>
        match DirectiveText(d, args, a)
        case None => None
        case Some((text, b)) => Append(text, Meaning(items[1..], args, b))
  }

  /** The format's meaning from position i on, by way of its parse. */
  function MeaningFrom(format: string, i: nat, args: seq<Arg>, a: nat): Option<string>
    requires i <= |format|
  {
    match Parse(format, i)
    case None => None
    case Some(items) => Meaning(items, args, a)
  }

  /** A format and a matching argument list: every directive is complete and finds the
      kind of argument it takes. */
  predicate Matches(format: CString, args: seq<Arg>) {
    MeaningFrom(format, 0, args, 0).Some?
  }

  function Denote(format: CString, args: seq<Arg>): string
    requires Matches(format, args)
  {
    MeaningFrom(format, 0, args, 0).value
  }

  // ----- Steps of the scanner -----

  lemma MeaningAtEnd(format: string, args: seq<Arg>, a: nat)
    ensures MeaningFrom(format, |format|, args, a) == Some("")
  {
  }

  lemma MeaningOfLiteral(format: string, i: nat, args: seq<Arg>, a: nat)
    requires i < |format| && format[i] != '%'
    ensures MeaningFrom(format, i, args, a) == Append([format[i]], MeaningFrom(format, i + 1, args, a))
  {
    hide ParseDirective, DirectiveText;
    var rest := Parse(format, i + 1);
    if rest.Some? {
      assert ([Literal(format[i])] + rest.value)[1..] == rest.value;
    }
  }

  lemma MeaningOfDirective(format: string, i: nat, args: seq<Arg>, a: nat)
    requires i < |format| && format[i] == '%' && MeaningFrom(format, i, args, a).Some?
    ensures var p := ParseDirective(format, i + 1);
            && p.Some?
            && DirectiveText(p.value.0, args, a).Some?
            && var (text, b) := DirectiveText(p.value.0, args, a).value;
               MeaningFrom(format, i, args, a) == Append(text, MeaningFrom(format, p.value.1, args, b))
  {
    hide ParseDirective, DirectiveText;
    var p := ParseDirective(format, i + 1);
    assert p.Some?;
    var rest := Parse(format, p.value.1);
    if rest.Some? {
      assert ([Conversion(p.value.0)] + rest.value)[1..] == rest.value;
    }
  }

  // ----- Formats of one directive -----

  /** A format that is one printed directive means that directive's text. */
  lemma OneDirective(format: CString, d: Directive, args: seq<Arg>)
    requires Expressible(Conversion(d)) && format == "%" + ShowDirective(d)
    requires DirectiveText(d, args, 0).Some?
    ensures Matches(format, args) && Denote(format, args) == DirectiveText(d, args, 0).value.0
  {
    hide ShowDirective, Parse, DirectiveText, Expressible;
    var items := [Conversion(d)];
    assert Show(items) == ShowItem(items[0]) + Show(items[1..]);
    assert "" + Show(items) == format + "" == format;
    FormatRoundTrip("", items);
    assert Meaning(items[1..], args, DirectiveText(d, args, 0).value.1) == Some("");
  }

  // ----- Facts about flags and arguments -----

  /** A length modifier leaves the other flags alone. */
  lemma LengthKeeps(f: Flags, l: Length)
    ensures var g := LengthFlags(f, l);
            && g.hash == f.hash && g.left == f.left && g.zeropad == f.zeropad && g.plus == f.plus
            && g.space == f.space && g.uppercase == f.uppercase && g.precision == f.precision
  {
    match l
    case Default =>
    case H =>
    case HH =>
    case L =>
    case LL =>
    case T =>
    case J =>
    case Z =>
  }

  /** The wrapped negation is the absolute value, even at the minimum. */
  lemma MagnitudeIsAbs(f: Flags, arg: Arg)
    requires ArgFits(f, arg)
    ensures var v := SignedValue(f, arg);
            Magnitude(v, if WantsLong(f) then 64 else 32) == if v < 0 then -v else v
  {
  }
}
