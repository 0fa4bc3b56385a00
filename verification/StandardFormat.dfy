/** Whole directives as section 7.21.6.1 of ISO/IEC 9899:2011 defines them, from the
    `*` arguments to the finished field, written without reference to the engine.
    Where the standard leaves the behaviour undefined or to the implementation, or the
    conversion is outside the ones modelled, there is no text. */
module StandardFormat {
  import opened Text
  import opened Format
  import opened Arguments
  import opened Standard

  /** A directive once its `*` arguments are read. */
  datatype Request = Request(flags: FlagSet, width: nat, prec: Option<nat>)

  /** A negative width argument is a `-` flag followed by a positive width. */
  function WidthOf(d: Directive, args: seq<Arg>, a: nat): Option<(Request, nat)> {
    match d.width
    case Absent => Some((Request(d.flags, 0, None), a))
    case Given(n) => Some((Request(d.flags, n, None), a))
    case FromArgument =>
      match StarArg(args, a)
      case None => None
      case Some(w) => Some((Request(if w < 0 then d.flags.(left := true) else d.flags, Abs(w), None), a + 1))
  }

  /** A negative precision argument is taken as if the precision were omitted. */
  function PrecisionOf(r: Request, precision: Amount, args: seq<Arg>, a: nat): Option<(Request, nat)> {
    match precision
    case Absent => Some((r, a))
    case Given(n) => Some((r.(prec := Some(n)), a))
    case FromArgument =>
      match StarArg(args, a)
      case None => None
      case Some(p) => Some((r.(prec := if p < 0 then None else Some(p)), a + 1))
  }

  function RequestOf(d: Directive, args: seq<Arg>, a: nat): Option<(Request, nat)> {
    match WidthOf(d, args, a)
    case None => None
    case Some((r, b)) => PrecisionOf(r, d.precision, args, b)
  }

  // ----- Integer arguments -----

  /** The size of the type that a length modifier names. */
  function TypeBits(l: Length): (n: nat)
    ensures n == 8 || n == 16 || n == 32 || n == 64
  {
    match l
    case HH => 8
    case H => 16
    case Default => 32
    case _ => 64
  }

  /** Types up to int are passed as int. */
  predicate Suits(l: Length, arg: Arg) {
    if TypeBits(l) == 64 then arg.Long? else arg.Int?
  }

  /** The argument converted to the signed or unsigned type of that size. */
  function IntegerArgument(signed: bool, l: Length, arg: Arg): int
    requires Suits(l, arg)
  {
    match TypeBits(l)
    case 64 => if signed then Signed(arg.bits64, 64) else arg.bits64
    case 32 => if signed then Signed(arg.bits, 32) else arg.bits
    case 16 => if signed then Signed(arg.bits, 16) else arg.bits % 0x1_0000
    case _ => if signed then Signed(arg.bits, 8) else arg.bits % 0x100
  }

  /** The argument in the type that each modifier names. */
  lemma IntegerArgumentIs(signed: bool, l: Length, arg: Arg)
    requires Suits(l, arg)
    ensures var v := IntegerArgument(signed, l, arg);
            match l
            case HH => arg.Int? && Represents(v, arg.bits, 8, signed)
            case H => arg.Int? && Represents(v, arg.bits, 16, signed)
            case Default => arg.Int? && Represents(v, arg.bits, 32, signed)
            case _ => arg.Long? && Represents(v, arg.bits64, 64, signed)
  {
    hide Signed, Represents;
    var bits := if arg.Int? then arg.bits else if arg.Long? then arg.bits64 else 0;
    SignedRepresents(bits);
    UnsignedRepresents(bits);
  }

  /** Signs belong to signed conversions, and capitals to X. */
  function SpecFor(c: char, r: Request): Spec {
    Spec(r.flags.hash, r.flags.left, r.flags.zero, r.flags.plus && IsSigned(c), r.flags.space && IsSigned(c),
         c == 'X', r.prec, r.width)
  }

  // ----- Fields -----

  /** The combinations of parts to which the standard gives a meaning. */
  predicate Defined(d: Directive) {
    if IsInteger(d.conversion) then d.flags.hash ==> BaseOf(d.conversion) != 10
    else if d.conversion == 'c' then !d.flags.hash && !d.flags.zero && d.precision.Absent? && d.length.Default?
    else if d.conversion == 's' then !d.flags.hash && !d.flags.zero && d.length.Default?
    else d == Directive(FlagSet(false, false, false, false, false), Absent, Absent, Default, '%')
  }

  /** At most the precision's number of characters are written from a string. */
  function StdClip(text: string, prec: Option<nat>): string {
    if prec.Some? && prec.value < |text| then text[..prec.value] else text
  }

  function StdConvert(d: Directive, r: Request, args: seq<Arg>, a: nat): Option<(string, nat)> {
    if !Defined(d) then None
    else if d.conversion == '%' then Some(("%", a))
    else if a >= |args| then None
    else if d.conversion == 'c' then
      if args[a].Int? then
        Some((Arrange("", [(args[a].bits % 0x100) as char], r.width, r.flags.left, false), a + 1))
      else None
    else if d.conversion == 's' then
      if args[a].Str? then
        Some((Arrange("", StdClip(args[a].text, r.prec), r.width, r.flags.left, false), a + 1))
      else None
    else if Suits(d.length, args[a]) then
      var v := IntegerArgument(IsSigned(d.conversion), d.length, args[a]);
      Some((StdField(Abs(v), v < 0, BaseOf(d.conversion), SpecFor(d.conversion, r)), a + 1))
    else None
  }

  function StdDirective(d: Directive, args: seq<Arg>, a: nat): Option<(string, nat)> {
    match RequestOf(d, args, a)
    case None => None
    case Some((r, b)) => StdConvert(d, r, args, b)
  }

  /** The concatenated fields of the items, consuming arguments from position a. */
  function StdMeaning(items: seq<Item>, args: seq<Arg>, a: nat): Option<string> {
    if items == [] then Some("")
    else
      match items[0]
      case Literal(c) => Append([c], StdMeaning(items[1..], args, a))
      case Conversion(d) =>
        match StdDirective(d, args, a)
        case None => None
        case Some((text, b)) => Append(text, StdMeaning(items[1..], args, b))
  }
}
