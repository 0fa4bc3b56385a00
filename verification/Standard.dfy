/** Integer conversions as section 7.21.6.1 of ISO/IEC 9899:2011 defines them (with the
    binary conversion and its 0b prefix of the 2024 edition), written without reference
    to the engine. */
module Standard {
  import opened Text
  import opened Numerals

  /** One conversion specification; no precision differs from precision 0. */
  datatype Spec = Spec(alt: bool, left: bool, zero: bool, plus: bool, space: bool, upper: bool,
                       prec: Option<nat>, width: nat)

  /** The digits of a nonzero value; zero has none of its own. */
  function OwnDigits(value: nat, base: nat, upper: bool): string
    requires 2 <= base <= 16
  {
    if value == 0 then "" else Digits(value, base, upper)
  }

  /** The precision is the least number of digits to appear, and defaults to 1. */
  function Precise(value: nat, base: nat, s: Spec): string
    requires 2 <= base <= 16
  {
    var d := OwnDigits(value, base, s.upper);
    Repeat('0', (if s.prec.None? then 1 else s.prec.value) - |d|) + d
  }

  /** For octal, the alternate form makes the first digit a zero. */
  function Altered(value: nat, base: nat, s: Spec): string
    requires 2 <= base <= 16
  {
    var d := Precise(value, base, s);
    if s.alt && base == 8 && (d == "" || d[0] != '0') then "0" + d else d
  }

  function Prefix(value: nat, base: nat, s: Spec): string {
    if !s.alt || value == 0 then ""
    else if base == 16 then (if s.upper then "0X" else "0x")
    else if base == 2 then "0b"
    else ""
  }

  function SignText(negative: bool, s: Spec): string {
    if negative then "-" else if s.plus then "+" else if s.space then " " else ""
  }

  /** A field: blanks on the left by default, on the right with `-`, or zeros after the
      sign and prefix with `0` when no precision is given. */
  function Arrange(lead: string, digits: string, width: nat, left: bool, zero: bool): string {
    var fill := width - |lead| - |digits|;
    if left then lead + digits + Repeat(' ', fill)
    else if zero then lead + Repeat('0', fill) + digits
    else Repeat(' ', fill) + lead + digits
  }

  function StdField(value: nat, negative: bool, base: nat, s: Spec): string
    requires 2 <= base <= 16
  {
    Arrange(SignText(negative, s) + Prefix(value, base, s), Altered(value, base, s),
            s.width, s.left, s.zero && s.prec.None?)
  }
}
