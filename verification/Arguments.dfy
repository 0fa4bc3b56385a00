/** The variadic arguments of a formatted-output call. */
module Arguments {
  import opened Text

  const UINT_RANGE := 0x1_0000_0000

  type Word32 = x: nat | x < UINT_RANGE
  type Word64 = x: nat | x < 0x1_0000_0000_0000_0000
  type CString = s: string | '\0' !in s && |s| < 0x1_0000_0000_0000_0000

  /** One variadic argument: a 32-bit slot (int, unsigned), a 64-bit slot (long, long
      long, pointer) or a string. */
  datatype Arg = Int(bits: Word32) | Long(bits64: Word64) | Str(text: CString)

  /** The low bits of a slot in two's complement. */
  function Signed(bits: nat, width: nat): int
    requires width == 8 || width == 16 || width == 32 || width == 64
  {
    var range := if width == 8 then 0x100 else if width == 16 then 0x1_0000
                 else if width == 32 then 0x1_0000_0000 else 0x1_0000_0000_0000_0000;
    var b := bits % range;
    if b < range / 2 then b else b - range
  }

  /** An `int` argument for a star, if the next argument is one. */
  function StarArg(args: seq<Arg>, a: nat): Option<int> {
    if a < |args| && args[a].Int? then Some(Signed(args[a].bits, 32)) else None
  }

  /** v is the number that the low `size` bits stand for: congruent to them, and in the
      range of the signed or unsigned type of that size. */
  predicate Represents(v: int, bits: nat, size: nat, signed: bool) {
    match size
    case 8 => (v - bits) % 0x100 == 0 && if signed then -0x80 <= v < 0x80 else 0 <= v < 0x100
    case 16 => (v - bits) % 0x1_0000 == 0 && if signed then -0x8000 <= v < 0x8000 else 0 <= v < 0x1_0000
    case 32 =>
      && (v - bits) % 0x1_0000_0000 == 0
      && if signed then -0x8000_0000 <= v < 0x8000_0000 else 0 <= v < 0x1_0000_0000
    case 64 =>
      && (v - bits) % 0x1_0000_0000_0000_0000 == 0
      && if signed then -0x8000_0000_0000_0000 <= v < 0x8000_0000_0000_0000
         else 0 <= v < 0x1_0000_0000_0000_0000
    case _ => false
  }

  lemma SignedRepresents(bits: nat)
    ensures Represents(Signed(bits, 8), bits, 8, true) && Represents(Signed(bits, 16), bits, 16, true)
    ensures Represents(Signed(bits, 32), bits, 32, true) && Represents(Signed(bits, 64), bits, 64, true)
  {
    hide Signed, Represents;
    Signed8(bits);
    Signed16(bits);
    Signed32(bits);
    Signed64(bits);
  }

  lemma Signed8(bits: nat)
    ensures Represents(Signed(bits, 8), bits, 8, true)
  {
  }

  lemma Signed16(bits: nat)
    ensures Represents(Signed(bits, 16), bits, 16, true)
  {
  }

  lemma Signed32(bits: nat)
    ensures Represents(Signed(bits, 32), bits, 32, true)
  {
  }

  lemma Signed64(bits: nat)
    ensures Represents(Signed(bits, 64), bits, 64, true)
  {
  }

  lemma UnsignedRepresents(bits: nat)
    ensures Represents(bits % 0x100, bits, 8, false) && Represents(bits % 0x1_0000, bits, 16, false)
    ensures bits < 0x1_0000_0000 ==> Represents(bits, bits, 32, false)
    ensures bits < 0x1_0000_0000_0000_0000 ==> Represents(bits, bits, 64, false)
  {
  }

  /** A star takes its argument as an int. */
  lemma StarArgIs(args: seq<Arg>, a: nat)
    ensures StarArg(args, a).Some? <==> a < |args| && args[a].Int?
    ensures StarArg(args, a).Some? ==> Represents(StarArg(args, a).value, args[a].bits, 32, true)
  {
    hide Signed, Represents;
    if a < |args| && args[a].Int? {
      SignedRepresents(args[a].bits);
    }
  }
}
