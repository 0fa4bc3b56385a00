/** Positional numerals in bases 2 to 16. */
module Numerals {
  import opened Text

  function DigitChar(d: nat, upper: bool): (c: char)
    requires d < 16
  {
    if d < 10 then ('0' as int + d) as char
    else ((if upper then 'A' else 'a') as int + d - 10) as char
  }

  function DigitValue(c: char): nat {
    if '0' <= c <= '9' then c as int - '0' as int
    else if 'a' <= c <= 'f' then c as int - 'a' as int + 10
    else if 'A' <= c <= 'F' then c as int - 'A' as int + 10
    else 16
  }

  predicate IsDigitIn(c: char, base: nat) {
    DigitValue(c) < base
  }

  predicate AllDigits(s: string, base: nat) {
    forall i :: 0 <= i < |s| ==> IsDigitIn(s[i], base)
  }

  lemma DigitRoundTrip(d: nat, upper: bool)
    requires d < 16
    ensures DigitValue(DigitChar(d, upper)) == d
    ensures DigitChar(d, upper) == '0' <==> d == 0
  {
  }

  // Division and multiplication by a variable base, kept behind names.

  function Quot(v: nat, base: nat): nat
    requires base > 0
  {
    v / base
  }

  function Rem(v: nat, base: nat): nat
    requires base > 0
  {
    v % base
  }

  function Times(a: nat, b: nat): nat {
    a * b
  }

  lemma QuotRem(v: nat, base: nat)
    requires base >= 2
    ensures v == Times(Quot(v, base), base) + Rem(v, base)
    ensures Rem(v, base) < base
    ensures v > 0 ==> Quot(v, base) < v
    ensures v < base ==> Quot(v, base) == 0 && Rem(v, base) == v
    ensures v >= base ==> Quot(v, base) > 0
  {
    var q := v / base;
    ProductMonotone(2, base, q);
    ProductMonotone(1, q, base);
  }

  lemma ProductMonotone(a: nat, b: nat, c: nat)
    ensures a <= b ==> a * c <= b * c && c * a <= c * b
    ensures a == 0 ==> a * c == 0
  {
    assert (b - a) * c == b * c - a * c;
  }

  /** The canonical numeral of v, most significant digit first; zero is one digit. */
  function Digits(v: nat, base: nat, upper: bool): (s: string)
    requires 2 <= base <= 16
    ensures |s| > 0
    decreases v
  {
    QuotRem(v, base);
    if v < base then [DigitChar(v, upper)]
    else Digits(Quot(v, base), base, upper) + [DigitChar(Rem(v, base), upper)]
  }

  function Value(s: string, base: nat): nat {
    if s == "" then 0 else Times(Value(s[..|s| - 1], base), base) + DigitValue(s[|s| - 1])
  }

  function Power(base: nat, k: nat): nat {
    if k == 0 then 1 else Times(Power(base, k - 1), base)
  }

  lemma {:induction false} DigitsDenote(v: nat, base: nat, upper: bool)
    requires 2 <= base <= 16
    ensures Value(Digits(v, base, upper), base) == v
    ensures AllDigits(Digits(v, base, upper), base)
    ensures v > 0 ==> Digits(v, base, upper)[0] != '0'
    decreases v
  {
    hide Quot, Rem, Times;
    QuotRem(v, base);
    if v < base {
      DigitRoundTrip(v, upper);
      OneDigit(DigitChar(v, upper), base);
    } else {
      var q, c := Quot(v, base), DigitChar(Rem(v, base), upper);
      DigitRoundTrip(Rem(v, base), upper);
      DigitsDenote(q, base, upper);
      var s := Digits(q, base, upper);
      assert (s + [c])[..|s|] == s;
    }
  }

  lemma OneDigit(c: char, base: nat)
    ensures Value([c], base) == DigitValue(c)
  {
    assert [c][..0] == "";
    assert Value("", base) == 0;
  }

  lemma {:induction false} ValueJoin(a: string, b: string, base: nat)
    ensures Value(a + b, base) == Times(Value(a, base), Power(base, |b|)) + Value(b, base)
    decreases |b|
  {
    if b == "" {
      assert a + b == a;
      TimesOne(Value(a, base));
    } else {
      var front, last := b[..|b| - 1], b[|b| - 1];
      assert (a + b)[..|a + b| - 1] == a + front;
      ValueJoin(a, front, base);
      TimesLemma(Value(a, base), Power(base, |front|), base, Value(front, base));
    }
  }

  lemma TimesOne(x: nat)
    ensures Times(x, 1) == x
  {
  }

  lemma TimesLemma(x: nat, p: nat, base: nat, y: nat)
    ensures Times(Times(x, p) + y, base) == Times(x, Times(p, base)) + Times(y, base)
  {
    assert (x * p + y) * base == x * (p * base) + y * base;
  }

  lemma {:induction false} ValueBound(s: string, base: nat)
    requires AllDigits(s, base)
    ensures Value(s, base) < Power(base, |s|)
  {
    if s != "" {
      var front := s[..|s| - 1];
      ValueBound(front, base);
      TimesStrict(Value(front, base), Power(base, |front|), base, DigitValue(s[|s| - 1]));
    }
  }

  lemma TimesStrict(x: nat, p: nat, base: nat, d: nat)
    requires x < p && d < base
    ensures Times(x, base) + d < Times(p, base)
  {
    hide *;
    ProductMonotone(x + 1, p, base);
    assert (x + 1) * base == x * base + base;
    TimesIs(x, base);
    TimesIs(p, base);
  }

  lemma TimesIs(a: nat, b: nat)
    ensures Times(a, b) == a * b
  {
  }

  lemma {:induction false} ValueZeros(k: int, s: string, base: nat)
    ensures Value(Repeat('0', k) + s, base) == Value(s, base)
  {
    ValueJoin(Repeat('0', k), s, base);
    ZerosAreZero(k, base);
  }

  lemma {:induction false} ZerosAreZero(k: int, base: nat)
    ensures Value(Repeat('0', k), base) == 0
  {
    if k > 0 {
      assert Repeat('0', k)[..k - 1] == Repeat('0', k - 1);
      ZerosAreZero(k - 1, base);
    }
  }

  /** A number below base^k needs at most k digits. */
  lemma {:induction false} DigitCount(v: nat, base: nat, upper: bool, k: nat)
    requires 2 <= base <= 16 && k > 0 && v < Power(base, k)
    ensures |Digits(v, base, upper)| <= k
    decreases k
  {
    hide Quot, Rem, Times;
    QuotRem(v, base);
    if v >= base {
      QuotBelow(v, base, k);
      DigitCount(Quot(v, base), base, upper, k - 1);
    }
  }

  lemma QuotBelow(v: nat, base: nat, k: nat)
    requires base >= 2 && k > 0 && base <= v < Power(base, k)
    ensures k > 1 && Quot(v, base) < Power(base, k - 1)
  {
    ProductMonotone(Power(base, k - 1), v / base, base);
    TimesOne(base);
    TimesSwap(1, base);
  }

  lemma TimesSwap(a: nat, b: nat)
    ensures Times(a, b) == Times(b, a)
  {
  }

  lemma PowerStep(base: nat, k: nat)
    ensures Power(base, 0) == 1
    ensures Power(base, k + 4) == Power(base, k) * (base * base * base * base)
  {
    hide Power;
    var p := Power(base, k);
    PowerNext(base, k);
    PowerNext(base, k + 1);
    PowerNext(base, k + 2);
    PowerNext(base, k + 3);
    assert ((((p * base) * base) * base) * base) == p * (base * base * base * base);
  }

  lemma PowerNext(base: nat, k: nat)
    ensures Power(base, 0) == 1 && Power(base, k + 1) == Power(base, k) * base
  {
  }

  /** 64-bit numbers have at most 16 hexadecimal, 22 octal and 20 decimal digits. */
  lemma PowerTable()
    ensures Power(16, 16) >= 0x1_0000_0000_0000_0000
    ensures Power(8, 22) >= 0x1_0000_0000_0000_0000
    ensures Power(10, 20) >= 0x1_0000_0000_0000_0000
  {
    hide Power;
    HexPowers();
    OctalPowers();
    DecimalPowers();
  }

  lemma HexPowers()
    ensures Power(16, 16) == 0x1_0000_0000_0000_0000 && Power(16, 8) == 0x1_0000_0000
  {
    hide Power;
    PowerStep(16, 0);
    PowerStep(16, 4);
    PowerStep(16, 8);
    PowerStep(16, 12);
  }

  lemma OctalPowers()
    ensures Power(8, 22) == 0x4_0000_0000_0000_0000
  {
    hide Power;
    PowerNext(8, 0);
    PowerNext(8, 1);
    PowerStep(8, 2);
    PowerStep(8, 6);
    PowerStep(8, 10);
    PowerStep(8, 14);
    PowerStep(8, 18);
  }

  lemma DecimalPowers()
    ensures Power(10, 20) == 1_0000_0000_0000_0000_0000
  {
    hide Power;
    PowerStep(10, 0);
    PowerStep(10, 4);
    PowerStep(10, 8);
    PowerStep(10, 12);
    PowerStep(10, 16);
  }

  lemma BinaryPowers()
    ensures Power(2, 30) == 0x4000_0000 && Power(2, 32) == 0x1_0000_0000
  {
    hide Power;
    PowerStep(2, 0);
    PowerStep(2, 4);
    PowerStep(2, 8);
    PowerStep(2, 12);
    PowerStep(2, 16);
    PowerStep(2, 20);
    PowerStep(2, 24);
    PowerStep(2, 28);
    PowerNext(2, 30);
    PowerNext(2, 31);
  }
}
