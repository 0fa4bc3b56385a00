/** The hexadecimal printers of kernel/include/util.h, and their agreement with the
    formatted-output engine. */
module HexPrint {
  import opened Bits
  import opened Text
  import opened Numerals
  import opened IntegerField
  import opened RoundTrip
  import opened Format
  import opened Arguments
  import opened Denotation

  function HexChar(v: nat): char
    requires v < 16
  {
    if v < 10 then ('0' as int + v) as char else ('a' as int - 10 + v) as char
  }

  /** The n low hexadecimal digits of v. */
  function FixedHex(v: nat, n: nat): (s: string)
    ensures |s| == n
    decreases n
  {
    if n == 0 then "" else FixedHex(v / 16, n - 1) + [HexChar(v % 16)]
  }

  lemma LowNibble(val: nat)
    ensures And(val, 0xf) == val % 16
    ensures Shr(val, 4) == val / 16
  {
    hide Pow2, Low, And, Shr;
    Pow2Table();
    AndLow(val, 4);
    ShrByPower(val, 4, 16, val / 16);
  }

  /** The loop of both printers: nibbles from index n+1 down to 2. */
  method FillHex(buffer: array<char>, n: nat, val0: nat)
    requires buffer.Length == n + 3
    modifies buffer
    ensures buffer[2..n + 2] == FixedHex(val0, n)
    ensures buffer[0] == old(buffer[0]) && buffer[1] == old(buffer[1]) && buffer[n + 2] == old(buffer[n + 2])
  {
    hide And, Shr;
    var val := val0;
    var i := n + 1;
    assert buffer[n + 2..n + 2] == "";
    while i > 1
      invariant 1 <= i <= n + 1
      invariant FixedHex(val0, n) == FixedHex(val, i - 1) + buffer[i + 1..n + 2]
      invariant buffer[0] == old(buffer[0]) && buffer[1] == old(buffer[1]) && buffer[n + 2] == old(buffer[n + 2])
    {
      LowNibble(val);
      ghost var done := buffer[i + 1..n + 2];
      buffer[i] := HexChar(And(val, 0xf));
      assert buffer[i..n + 2] == [HexChar(val % 16)] + done;
      assert FixedHex(val, i - 1) + done == FixedHex(val / 16, i - 2) + ([HexChar(val % 16)] + done);
      val := Shr(val, 4);
      i := i - 1;
    }
  }

  /** puthex32: the string handed to puts. */
  method PutHex32(val: Word32) returns (put: string)
    ensures Matches("%08x", [Int(val)]) && put == "0x" + Denote("%08x", [Int(val)])
    ensures Value(put[2..], 16) == val
  {
    put := PutHex(8, val);
    hide EngineText, FixedHex, Matches, Denote;
    HexPowers();
    ShortHexFormat(val);
    FixedHexValue(val, 8);
  }

  /** puthex64: the string handed to puts. */
  method PutHex64(val: Word64) returns (put: string)
    ensures Matches("%016llx", [Long(val)]) && put == "0x" + Denote("%016llx", [Long(val)])
    ensures Value(put[2..], 16) == val
  {
    put := PutHex(16, val);
    hide EngineText, FixedHex, Matches, Denote;
    HexPowers();
    LongHexFormat(val);
    FixedHexValue(val, 16);
  }

  /** The common body: "0x", n digits and a terminator, which puts does not print. */
  method PutHex(n: nat, val: nat) returns (put: string)
    ensures put == "0x" + FixedHex(val, n)
  {
    hide FixedHex;
    var buffer := new char[n + 3];
    buffer[0] := '0';
    buffer[1] := 'x';
    buffer[n + 2] := '\0';
    FillHex(buffer, n, val);
    put := buffer[..n + 2];
    assert put == [buffer[0]] + [buffer[1]] + buffer[2..n + 2];
  }

  lemma HexCharIsDigit(v: nat)
    requires v < 16
    ensures HexChar(v) == DigitChar(v, false)
  {
  }

  lemma {:induction false} HexDigitsSplit(v: nat)
    ensures v >= 16 ==> Digits(v, 16, false) == Digits(v / 16, 16, false) + [HexChar(v % 16)]
    ensures v < 16 ==> Digits(v, 16, false) == [HexChar(v)]
  {
    HexCharIsDigit(v % 16);
  }

  /** Fixed-width digits are the canonical ones behind leading zeros. */
  lemma {:induction false} FixedHexIsPadded(v: nat, n: nat)
    requires n > 0 && v < Power(16, n)
    ensures |Digits(v, 16, false)| <= n
    ensures FixedHex(v, n) == Repeat('0', n - |Digits(v, 16, false)|) + Digits(v, 16, false)
    decreases n
  {
    hide Digits, Power;
    HexDigitsSplit(v);
    if v < 16 {
      ZeroHex(n - 1);
    } else {
      PowerNext(16, n - 1);
      assert n > 1;
      FixedHexIsPadded(v / 16, n - 1);
      var d := Digits(v / 16, 16, false);
      assert (Repeat('0', n - 1 - |d|) + d) + [HexChar(v % 16)] == Repeat('0', n - 1 - |d|) + (d + [HexChar(v % 16)]);
    }
  }

  lemma {:induction false} ZeroHex(n: nat)
    ensures FixedHex(0, n) == Repeat('0', n)
  {
    if n > 0 {
      ZeroHex(n - 1);
      assert forall i :: 0 <= i < n ==> (Repeat('0', n - 1) + ['0'])[i] == Repeat('0', n)[i];
    }
  }

  /** The engine's text for a zero-padded hexadecimal number. */
  lemma AgreesWithEngine(v: nat, n: nat, f: Flags)
    requires 0 < n <= NTOA_BUFFER && v < Power(16, n)
    requires f.zeropad && !f.left && !f.plus && !f.space && !f.hash && !f.uppercase && !f.precision
    ensures FixedHex(v, n) == EngineText(v, false, 16, 0, n, f)
  {
    hide Digits, Power, FixedHex, EngineText, Repeat;
    FixedHexIsPadded(v, n);
    UnprefixedShape(v, false, 16, 0, n, f);
    var d := Digits(v, 16, false);
    assert Significant(v, 16, f) == d;
    assert Last(d, NTOA_BUFFER) == d;
    NoEnds(ZeroPad(d, n), n, f);
    EmptyPrefix(ZeroPad(d, n));
  }

  lemma EightShown(d: Directive)
    requires d == Directive(FlagSet(true, false, false, false, false), Given(8), Absent, Default, 'x')
    ensures ShowDirective(d) == "08x"
  {
    assert Digits(8, 10, false) == "8";
    hide Digits;
  }

  lemma SixteenShown(d: Directive)
    requires d == Directive(FlagSet(true, false, false, false, false), Given(16), Absent, LL, 'x')
    ensures ShowDirective(d) == "016llx"
  {
    assert Digits(16, 10, false) == "16";
    hide Digits;
  }

  /** What a hexadecimal directive with a zero flag and a width does with its argument. */
  lemma HexDirective(d: Directive, width: nat, length: Length, arg: Arg)
    requires d == Directive(FlagSet(true, false, false, false, false), Given(width), Absent, length, 'x')
    requires width < UINT_RANGE
    requires var f := LengthFlags(BaseFlags(d.flags), length); ArgFits(f, arg) && !f.chr && !f.short
    ensures var f := LengthFlags(BaseFlags(d.flags), length);
            DirectiveText(d, [arg], 0) ==
            Some((EngineText(if WantsLong(f) then arg.bits64 else arg.bits, false, 16, 0, width,
                             IntegerFlags('x', f)), 1))
    {
      hide EngineText, LengthFlags, BaseFlags;
      var f := LengthFlags(BaseFlags(d.flags), length);
      assert WithoutHash('x', f) == f && Capital('x', f) == f;
    }

  lemma ShortHexFormat(v: Word32)
    ensures Matches("%08x", [Int(v)]) && Denote("%08x", [Int(v)]) == FixedHex(v, 8)
  {
    hide Digits, EngineText, Matches, Denote, FixedHex, ShowDirective, DirectiveText;
    var d := Directive(FlagSet(true, false, false, false, false), Given(8), Absent, Default, 'x');
    EightShown(d);
    HexDirective(d, 8, Default, Int(v));
    OneDirective("%08x", d, [Int(v)]);
    HexPowers();
    AgreesWithEngine(v, 8, IntegerFlags('x', LengthFlags(BaseFlags(d.flags), Default)));
  }

  lemma LongHexFormat(v: Word64)
    ensures Matches("%016llx", [Long(v)]) && Denote("%016llx", [Long(v)]) == FixedHex(v, 16)
  {
    hide Digits, EngineText, Matches, Denote, FixedHex, ShowDirective, DirectiveText;
    var d := Directive(FlagSet(true, false, false, false, false), Given(16), Absent, LL, 'x');
    SixteenShown(d);
    HexDirective(d, 16, LL, Long(v));
    OneDirective("%016llx", d, [Long(v)]);
    HexPowers();
    AgreesWithEngine(v, 16, IntegerFlags('x', LengthFlags(BaseFlags(d.flags), LL)));
  }

  lemma NoEnds(t: string, n: nat, f: Flags)
    requires f.zeropad && !f.left
    ensures Justify(t, n, f) == t
  {
  }

  lemma {:induction false} FixedHexValue(v: nat, n: nat)
    requires n > 0 && v < Power(16, n)
    ensures Value(FixedHex(v, n), 16) == v
  {
    hide Digits, Power, FixedHex, Value;
    FixedHexIsPadded(v, n);
    var d := Digits(v, 16, false);
    DigitsDenote(v, 16, false);
    ValueZeros(n - |d|, d, 16);
  }
}
