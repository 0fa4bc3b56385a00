/** The integer tail of _ftoa in libc/src/printf.c: the fraction, the point and the whole
    part, written backwards behind zeros that are already in the scratch array. */
module FixedPoint {
  import opened Text
  import opened Numerals
  import opened IntegerField
  import opened Arguments
  import opened Printf

  const FTOA_BUFFER := 32

  function Decimal(v: nat): string {
    Digits(v, 10, false)
  }

  /** The unsigned counter after `digits` decrements. */
  function CountDown(prec: nat, digits: nat): nat {
    (prec - digits) % UINT_RANGE
  }

  /** Everything the tail would write with unlimited room, in front of `behind`. */
  function FixedText(whole: nat, frac: nat, prec: nat, behind: string): string {
    Decimal(whole) + ("." + (Repeat('0', CountDown(prec, |Decimal(frac)|)) + (Decimal(frac) + behind)))
  }

  // ----- Suffixes of the scratch array's size -----

  lemma LastOfLast(p: string, x: string)
    ensures Last(p + Last(x, FTOA_BUFFER), FTOA_BUFFER) == Last(p + x, FTOA_BUFFER)
  {
    if |x| > FTOA_BUFFER {
      var cut := |x| - FTOA_BUFFER;
      assert (p + x)[|p + x| - FTOA_BUFFER..] == x[cut..];
      assert (p + x[cut..])[|p|..] == x[cut..];
    }
  }

  /** A loop that stops either when its text is complete or when the array is full. */
  lemma StoppedIsLast(rest: string, t: string, whole: string)
    requires whole == rest + t && |t| <= FTOA_BUFFER && (rest == "" || |t| == FTOA_BUFFER)
    ensures t == Last(whole, FTOA_BUFFER)
  {
    assert (rest + t)[|rest|..] == t;
  }

  // ----- The loops -----

  /** The two loops that write a number's decimal digits, stopping when the number is used
      up or the array is full. */
  method PushDecimal(buf: array<char>, len0: nat, v0: nat) returns (len: nat)
    requires len0 <= buf.Length == FTOA_BUFFER
    modifies buf
    ensures len0 <= len <= FTOA_BUFFER
    ensures Reverse(buf[..len]) == Last(Decimal(v0) + Reverse(old(buf[..len0])), FTOA_BUFFER)
    ensures len < FTOA_BUFFER ==> len - len0 == |Decimal(v0)|
  {
    hide Reverse, Digits, Unread, Quot, Rem;
    ghost var t0 := Reverse(buf[..len0]);
    ghost var whole := Decimal(v0) + t0;
    len := len0;
    var v := v0;
    var more := true;
    UnreadAll(v0);
    while len < FTOA_BUFFER && more
      invariant len0 <= len <= FTOA_BUFFER
      invariant more ==> len == len0 || v > 0
      invariant more ==> whole == Unread(v, len == len0, 10, false) + Reverse(buf[..len])
      invariant !more ==> whole == Reverse(buf[..len])
      decreases FTOA_BUFFER - len, more
    {
      ghost var t := Reverse(buf[..len]);
      ghost var rest := Unread(Quot(v, 10), false, 10, false);
      NextDigit(v, len == len0, 10, false);
      DecimalChar(v);
      var c := ('0' as int + v % 10) as char;
      Push(buf, len, c);
      assert (rest + [c]) + t == rest + ([c] + t);
      len := len + 1;
      v := v / 10;
      more := v != 0;
      if !more {
        NothingUnread();
        assert "" + ([c] + t) == [c] + t;
      }
    }
    if more {
      StoppedIsLast(Unread(v, len == len0, 10, false), Reverse(buf[..len]), whole);
    }
  }

  lemma UnreadAll(v: nat)
    ensures Unread(v, true, 10, false) == Decimal(v)
  {
  }

  lemma NothingUnread()
    ensures Unread(0, false, 10, false) == ""
  {
  }

  lemma DecimalChar(v: nat)
    ensures Quot(v, 10) == v / 10 && Rem(v, 10) == v % 10
    ensures DigitChar(Rem(v, 10), false) == ('0' as int + v % 10) as char
  {
  }

  /** The loop that writes the counted zeros, as many as the array has room for. */
  method PushCounted(buf: array<char>, len0: nat, count0: nat) returns (len: nat)
    requires len0 <= buf.Length == FTOA_BUFFER
    modifies buf
    ensures len0 <= len <= FTOA_BUFFER
    ensures Reverse(buf[..len]) == Last(Repeat('0', count0) + Reverse(old(buf[..len0])), FTOA_BUFFER)
  {
    hide Reverse, Repeat;
    ghost var t0 := Reverse(buf[..len0]);
    len := len0;
    var count := count0;
    NoneInFront('0', 0, t0);
    while len < FTOA_BUFFER && count > 0
      invariant 0 <= count <= count0 && len == len0 + (count0 - count) <= FTOA_BUFFER
      invariant Reverse(buf[..len]) == Repeat('0', count0 - count) + t0
    {
      Push(buf, len, '0');
      ZeroBefore(count0 - count, t0);
      count := count - 1;
      len := len + 1;
    }
    RepeatJoin('0', count, count0 - count);
    assert Repeat('0', count) + (Repeat('0', count0 - count) + t0) == Repeat('0', count0) + t0;
    assert count == 0 ==> Repeat('0', count) == "" by { NoneRepeated('0', 0); }
    StoppedIsLast(Repeat('0', count), Reverse(buf[..len]), Repeat('0', count0) + t0);
  }

  /** The tail of _ftoa for a nonzero precision: fraction digits, extra zeros, the point
      and the whole part, as far as the scratch array has room. */
  method EmitFixed(buf: array<char>, len0: nat, whole: nat, frac: nat, prec: nat) returns (len: nat)
    requires len0 <= buf.Length == FTOA_BUFFER && prec < UINT_RANGE
    modifies buf
    ensures len <= FTOA_BUFFER
    ensures Reverse(buf[..len]) == Last(FixedText(whole, frac, prec, old(Reverse(buf[..len0]))), FTOA_BUFFER)
  {
    hide Reverse, Repeat, Decimal, Last;
    ghost var t0 := Reverse(buf[..len0]);
    len := PushDecimal(buf, len0, frac);
    var count := CountDown(prec, len - len0);
    ghost var x1 := Decimal(frac) + t0;
    ghost var full := len == FTOA_BUFFER;
    assert full || count == CountDown(prec, |Decimal(frac)|);
    ghost var zeros := Repeat('0', CountDown(prec, |Decimal(frac)|));
    ghost var t1 := Reverse(buf[..len]);
    len := PushCounted(buf, len, count);
    if full {
      FullStays(Repeat('0', count), t1);
      FullStays(zeros, t1);
    }
    LastOfLast(zeros, x1);
    ghost var x2 := zeros + x1;
    assert Reverse(buf[..len]) == Last(x2, FTOA_BUFFER);
    if len < FTOA_BUFFER {
      Push(buf, len, '.');
      len := len + 1;
      ShortIsWhole(Reverse(buf[..len]));
    } else {
      FullStays(".", Reverse(buf[..len]));
    }
    LastOfLast(".", x2);
    ghost var x3 := "." + x2;
    assert Reverse(buf[..len]) == Last(x3, FTOA_BUFFER);
    len := PushDecimal(buf, len, whole);
    LastOfLast(Decimal(whole), x3);
  }

  lemma FullStays(p: string, t: string)
    requires |t| == FTOA_BUFFER
    ensures Last(p + t, FTOA_BUFFER) == t
  {
    assert (p + t)[|p|..] == t;
  }

  lemma ShortIsWhole(t: string)
    requires |t| <= FTOA_BUFFER
    ensures Last(t, FTOA_BUFFER) == t
  {
  }

  // ----- When the text is the fixed-point numeral -----

  /** The fraction as exactly `prec` digits. */
  function Fraction(frac: nat, prec: nat): string {
    Repeat('0', prec - |Decimal(frac)|) + Decimal(frac)
  }

  lemma {:induction false} CountOfDigits(v: nat, k: nat)
    requires k > 0
    ensures |Decimal(v)| <= k <==> v < Power(10, k)
  {
    hide Digits, Value, Power;
    DigitsDenote(v, 10, false);
    if v < Power(10, k) {
      DigitCount(v, 10, false, k);
    } else if |Decimal(v)| <= k {
      ValueBound(Decimal(v), 10);
      PowerGrows(|Decimal(v)|, k);
    }
  }

  lemma {:induction false} PowerGrows(a: nat, b: nat)
    requires a <= b
    ensures Power(10, a) <= Power(10, b)
    decreases b
  {
    if a < b {
      PowerGrows(a, b - 1);
    }
  }

  /** With a fraction below 10^prec the text is the whole part, a point, exactly prec
      fraction digits and the zeros that were there exactly when these fit the array; read
      without the point they are the scaled number. */
  lemma FixedPointText(whole: nat, frac: nat, prec: nat, k: nat)
    requires 1 <= prec < UINT_RANGE && frac < Power(10, prec)
    ensures var zeros := Repeat('0', k);
            Last(FixedText(whole, frac, prec, zeros), FTOA_BUFFER) ==
            Decimal(whole) + "." + Fraction(frac, prec) + zeros
            <==> |Decimal(whole)| + 1 + prec + k <= FTOA_BUFFER
    ensures |Fraction(frac, prec)| == prec
    ensures Value(Decimal(whole) + Fraction(frac, prec) + Repeat('0', k), 10) ==
            Times(Times(whole, Power(10, prec)) + frac, Power(10, k))
  {
    hide Digits, Value, Power, Times, Repeat, FixedText, Last, Fraction;
    WholeText(whole, frac, prec, Repeat('0', k));
    LastWhole(Decimal(whole) + "." + Fraction(frac, prec) + Repeat('0', k));
    ScaledValue(whole, frac, prec, k);
  }

  lemma WholeText(whole: nat, frac: nat, prec: nat, zeros: string)
    requires 1 <= prec < UINT_RANGE && frac < Power(10, prec)
    ensures FixedText(whole, frac, prec, zeros) == Decimal(whole) + "." + Fraction(frac, prec) + zeros
    ensures |Fraction(frac, prec)| == prec
  {
    hide Digits, Power, Repeat;
    CountOfDigits(frac, prec);
  }

  lemma LastWhole(t: string)
    ensures Last(t, FTOA_BUFFER) == t <==> |t| <= FTOA_BUFFER
  {
  }

  lemma ScaledValue(whole: nat, frac: nat, prec: nat, k: nat)
    requires |Fraction(frac, prec)| == prec
    ensures Value(Decimal(whole) + Fraction(frac, prec) + Repeat('0', k), 10) ==
            Times(Times(whole, Power(10, prec)) + frac, Power(10, k))
  {
    hide Digits, Value, Power, Times, Repeat;
    var zeros := Repeat('0', k);
    var w, f := Decimal(whole), Fraction(frac, prec);
    DigitsDenote(whole, 10, false);
    DigitsDenote(frac, 10, false);
    ValueZeros(prec - |Decimal(frac)|, Decimal(frac), 10);
    ValueJoin(w, f, 10);
    ValueJoin(w + f, zeros, 10);
    ZerosAreZero(k, 10);
  }

  /** The point is written exactly when the fraction is below 10^prec and its digits and the
      zeros behind them leave room. At 10^prec the counter wraps, so that zeros fill the
      array; in either case the whole part is lost with the point. */
  lemma PointIff(whole: nat, frac: nat, prec: nat, k: nat)
    requires 1 <= prec < UINT_RANGE && frac <= Power(10, prec)
    ensures '.' in Last(FixedText(whole, frac, prec, Repeat('0', k)), FTOA_BUFFER)
            <==> frac < Power(10, prec) && prec + k < FTOA_BUFFER
  {
    hide Digits, Repeat, Power, Last;
    var tail := Repeat('0', CountDown(prec, |Decimal(frac)|)) + (Decimal(frac) + Repeat('0', k));
    TailLength(frac, prec, k);
    NoPointBehind(frac, prec, k);
    var text := FixedText(whole, frac, prec, Repeat('0', k));
    assert text == (Decimal(whole) + ".") + tail;
    if |tail| < FTOA_BUFFER {
      assert text[|Decimal(whole)|] == '.';
      LastHas(text, |Decimal(whole)|);
    } else {
      LastInside(Decimal(whole) + ".", tail);
    }
  }

  /** What stands behind the point fits the array exactly as PointIff says. */
  lemma TailLength(frac: nat, prec: nat, k: nat)
    requires 1 <= prec < UINT_RANGE && frac <= Power(10, prec)
    ensures CountDown(prec, |Decimal(frac)|) + |Decimal(frac)| + k < FTOA_BUFFER
            <==> frac < Power(10, prec) && prec + k < FTOA_BUFFER
  {
    hide Digits, Power;
    CountOfDigits(frac, prec);
    CountOfDigits(frac, prec + 1);
    NextPower(prec);
  }

  lemma NoPointBehind(frac: nat, prec: nat, k: nat)
    ensures '.' !in Repeat('0', CountDown(prec, |Decimal(frac)|)) + (Decimal(frac) + Repeat('0', k))
  {
    hide Digits, Repeat, Value;
    DigitsDenote(frac, 10, false);
    DigitsPlainOfPoint(Decimal(frac));
  }

  lemma LastHas(t: string, i: nat)
    requires i < |t| && |t| - FTOA_BUFFER <= i
    ensures t[i] in Last(t, FTOA_BUFFER)
  {
    if |t| > FTOA_BUFFER {
      assert t[|t| - FTOA_BUFFER..][i - (|t| - FTOA_BUFFER)] == t[i];
    }
  }

  lemma LastInside(front: string, tail: string)
    requires |tail| >= FTOA_BUFFER
    ensures Last(front + tail, FTOA_BUFFER) == tail[|tail| - FTOA_BUFFER..]
  {
    assert (front + tail)[|front| + |tail| - FTOA_BUFFER..] == tail[|tail| - FTOA_BUFFER..];
  }

  lemma NextPower(k: nat)
    ensures 0 < Power(10, k) < Power(10, k + 1)
  {
    if k > 0 {
      NextPower(k - 1);
    }
  }

  lemma DigitsPlainOfPoint(d: string)
    requires AllDigits(d, 10)
    ensures '.' !in d
  {
    forall i | 0 <= i < |d| ensures d[i] != '.' {
      assert IsDigitIn(d[i], 10);
    }
  }

  // ----- Precision and rounding, and when the point is lost -----

  /** The loop that trades every place beyond the ninth for a zero in the array. */
  method LimitPrecision(buf: array<char>, prec0: nat) returns (len: nat, prec: nat)
    requires buf.Length == FTOA_BUFFER
    modifies buf
    ensures len + prec == prec0 && (prec <= 9 || len == FTOA_BUFFER) && (len > 0 ==> prec >= 9)
    ensures len <= FTOA_BUFFER && Reverse(buf[..len]) == Repeat('0', len)
  {
    hide Reverse, Repeat;
    len, prec := 0, prec0;
    EmptyScratch(buf);
    NoneRepeated('0', 0);
    while len < FTOA_BUFFER && prec > 9
      invariant 0 <= len <= FTOA_BUFFER && len + prec == prec0 && (len > 0 ==> prec >= 9)
      invariant Reverse(buf[..len]) == Repeat('0', len)
    {
      Push(buf, len, '0');
      ZeroBefore(len, "");
      assert Repeat('0', len) + "" == Repeat('0', len) && Repeat('0', len + 1) + "" == Repeat('0', len + 1);
      len := len + 1;
      prec := prec - 1;
    }
  }

  /** How what is left of the scaled fraction compares with one half. */
  datatype Rest = BelowHalf | Half | AboveHalf

  predicate RoundsUp(frac: nat, rest: Rest) {
    rest.AboveHalf? || (rest.Half? && (frac == 0 || frac % 2 == 1))
  }

  /** (w, f) is the number (whole, frac) with one unit of the last place added or not. The
      fraction is below one again unless exactly one half was added to a fraction of
      nines. */
  ghost predicate IsRounded(whole: nat, frac: nat, rest: Rest, prec: nat, w: nat, f: nat) {
    && Times(w, Power(10, prec)) + f == Times(whole, Power(10, prec)) + frac + (if RoundsUp(frac, rest) then 1 else 0)
    && f <= Power(10, prec)
    && (f == Power(10, prec) <==> rest.Half? && frac == Power(10, prec) - 1)
  }

  /** Above one half the fraction goes up and may carry into the whole part. The branch
      for exactly one half (libc/src/printf.c:399-402), where odd fractions and zero go
      up, has no such carry. */
  method RoundFraction(whole0: nat, frac0: nat, rest: Rest, prec: nat) returns (whole: nat, frac: nat)
    requires frac0 < Power(10, prec)
    ensures IsRounded(whole0, frac0, rest, prec, whole, frac)
  {
    hide Power, Times;
    EvenPower(prec);
    NextTimes(whole0, Power(10, prec));
    whole, frac := whole0, frac0;
    match rest {
      case AboveHalf =>
        frac := frac + 1;
        if frac >= Power(10, prec) {
          frac := 0;
          whole := whole + 1;
        }
      case BelowHalf =>
      case Half =>
        if frac == 0 || frac % 2 == 1 {
          frac := frac + 1;
        }
    }
  }

  lemma EvenPower(k: nat)
    ensures if k == 0 then Power(10, k) == 1 else Power(10, k) % 2 == 0
  {
    hide Times;
    if k > 0 {
      var p := Power(10, k - 1);
      TimesIs(p, 10);
      assert p * 10 == 2 * (p * 5);
    }
  }

  lemma NextTimes(a: nat, p: nat)
    ensures Times(a + 1, p) == Times(a, p) + p
  {
    TimesIs(a + 1, p);
    TimesIs(a, p);
    assert (a + 1) * p == a * p + p;
  }

  /** After rounding, with k places traded for zeros, the point is lost exactly for the
      values halfway between a fraction of nines and the next whole number, and for
      precisions of 32 and more, whose places alone fill the array. */
  lemma PointLostIff(whole: nat, frac: nat, rest: Rest, prec: nat, k: nat, w: nat, f: nat)
    requires 1 <= prec < UINT_RANGE && IsRounded(whole, frac, rest, prec, w, f)
    ensures '.' !in Last(FixedText(w, f, prec, Repeat('0', k)), FTOA_BUFFER)
            <==> (rest.Half? && frac == Power(10, prec) - 1) || prec + k >= FTOA_BUFFER
  {
    hide Power, FixedText, Repeat, Last, Times;
    PointIff(w, f, prec, k);
  }

  /** _ftoa from the precision loop to the whole part, for a precision that its table of
      powers covers. */
  method FtoaDigits(buf: array<char>, written: nat, whole0: nat, frac0: nat, rest: Rest)
    returns (len: nat, whole: nat, frac: nat)
    requires buf.Length == FTOA_BUFFER && 1 <= written <= FTOA_BUFFER + 9
    requires frac0 < Power(10, if written <= 9 then written else 9)
    modifies buf
    ensures len <= FTOA_BUFFER
    ensures var prec := if written <= 9 then written else 9;
            && IsRounded(whole0, frac0, rest, prec, whole, frac)
            && Reverse(buf[..len]) == Last(FixedText(whole, frac, prec, Repeat('0', written - prec)), FTOA_BUFFER)
            && ('.' !in Reverse(buf[..len])
                <==> (rest.Half? && frac0 == Power(10, prec) - 1) || written >= FTOA_BUFFER)
  {
    hide Reverse, Repeat, Power, Last, FixedText, IsRounded;
    var prec;
    len, prec := LimitPrecision(buf, written);
    whole, frac := RoundFraction(whole0, frac0, rest, prec);
    PointLostIff(whole0, frac0, rest, prec, len, whole, frac);
    len := EmitFixed(buf, len, whole, frac, prec);
  }

  /** `%.1f` of 0.95: nine tenths and exactly one half become ten tenths, which print as
      zeros and 10 instead of 1.0. */
  lemma PointIsLost()
    ensures IsRounded(0, 9, Half, 1, 0, 10) && !IsRounded(0, 9, Half, 1, 1, 0)
    ensures Last(FixedText(0, 10, 1, ""), FTOA_BUFFER) == Repeat('0', 30) + "10"
  {
    TenDigits();
    TenPower();
    hide Digits, Repeat, Power, Times;
    var zeros := Repeat('0', UINT_RANGE - 1);
    assert Repeat('0', UINT_RANGE - 31) + Repeat('0', 30) == zeros by { RepeatJoin('0', UINT_RANGE - 31, 30); }
    assert "10" + "" == "10";
    var front := Decimal(0) + "." + Repeat('0', UINT_RANGE - 31);
    var kept := Repeat('0', 30) + "10";
    assert FixedText(0, 10, 1, "") == front + kept;
    LastInside(front, kept);
    assert kept[0..] == kept;
  }

  lemma TenDigits()
    ensures Decimal(10) == "10"
  {
    assert Decimal(1) == "1";
    assert Quot(10, 10) == 1 && Rem(10, 10) == 0;
  }

  lemma TenPower()
    ensures Power(10, 1) == 10 && Times(0, 10) == 0 && Times(1, 10) == 10
  {
    PowerNext(10, 0);
  }

  /** `%.32f` of 1.5: nine fraction digits and the 23 zeros behind them leave no room for
      the point and the whole part. */
  lemma LongPrecisionLosesPoint(whole: nat)
    ensures Last(FixedText(whole, 5_0000_0000, 9, Repeat('0', 23)), FTOA_BUFFER) ==
            Decimal(5_0000_0000) + Repeat('0', 23)
    ensures '.' !in Decimal(5_0000_0000) + Repeat('0', 23)
  {
    hide Digits, Repeat, Power, Value, Last;
    BillionPower();
    CountOfDigits(5_0000_0000, 9);
    CountOfDigits(5_0000_0000, 8);
    var d := Decimal(5_0000_0000);
    var tail := Repeat('0', 0) + (d + Repeat('0', 23));
    NoneInFront('0', 0, d + Repeat('0', 23));
    assert FixedText(whole, 5_0000_0000, 9, Repeat('0', 23)) == (Decimal(whole) + ".") + tail;
    LastInside(Decimal(whole) + ".", tail);
    assert tail[0..] == tail;
    DigitsDenote(5_0000_0000, 10, false);
    DigitsPlainOfPoint(d);
  }

  lemma BillionPower()
    ensures Power(10, 8) == 1_0000_0000 && Power(10, 9) == 10_0000_0000
  {
    hide Power;
    PowerStep(10, 0);
    PowerStep(10, 4);
    PowerNext(10, 8);
  }
}
