/** The formatted-output engine of libc/src/printf.c: scanner, dispatch, digit generator,
    padding stages and emitter, each proved to emit the text its format denotes. */
module Printf {
  import opened Text
  import opened Numerals
  import opened Format
  import opened IntegerField
  import opened Arguments
  import opened Denotation
  import opened Sinks

  // ----- Emission -----

  /** Since the state with calls c0, exactly `text` has been emitted from index idx on. */
  ghost predicate Emitted(s: Sink, c0: seq<Call>, idx: nat, text: string)
    reads s, s.buffer
  {
    s.Valid() && s.calls == c0 + CallsAt(idx, text)
  }

  lemma EmittedNothing(s: Sink, idx: nat)
    requires s.Valid()
    ensures Emitted(s, s.calls, idx, "")
  {
    CallsEmpty(idx);
  }

  lemma EmittedCalls(s: Sink, c0: seq<Call>, idx: nat, text: string)
    requires Emitted(s, c0, idx, text)
    ensures s.Valid() && s.calls == c0 + CallsAt(idx, text)
    ensures c0 == [] ==> s.calls == CallsAt(idx, text)
  {
  }

  /** One more character at the next index. */
  method Put(s: Sink, c: char, idx: nat, ghost c0: seq<Call>, ghost start: nat, ghost done: string)
    requires Emitted(s, c0, start, done) && idx == start + |done| && s.Room(idx + 1)
    modifies s`stream, s`calls, s.buffer
    ensures Emitted(s, c0, start, done + [c])
  {
    CallsSnoc(start, done, c);
    s.Out(c, idx);
  }

  lemma EmittedJoin(s: Sink, c0: seq<Call>, c1: seq<Call>, idx: nat, a: string, b: string)
    requires c1 == c0 + CallsAt(idx, a) && Emitted(s, c1, idx + |a|, b)
    ensures Emitted(s, c0, idx, a + b)
  {
    CallsJoin(idx, a, b);
  }

  lemma RepeatSnoc(c: char, n: nat)
    ensures Repeat(c, n) + [c] == Repeat(c, n + 1)
  {
    assert forall i :: 0 <= i < n + 1 ==> (Repeat(c, n) + [c])[i] == Repeat(c, n + 1)[i];
  }

  /** The loop that writes blanks while a length is below the width. */
  method Blanks(s: Sink, idx0: nat, length: nat, width: nat) returns (idx: nat)
    requires s.Valid() && s.Room(idx0 + Max(width - length, 0))
    modifies s`stream, s`calls, s.buffer
    ensures Emitted(s, old(s.calls), idx0, Repeat(' ', width - length))
    ensures idx == idx0 + Max(width - length, 0)
  {
    hide Emitted, Repeat;
    ghost var c0 := s.calls;
    EmittedNothing(s, idx0);
    NoneRepeated(' ', 0);
    idx := idx0;
    var i := length;
    while i < width
      invariant length <= i <= Max(length, width) && idx == idx0 + (i - length)
      invariant Emitted(s, c0, idx0, Repeat(' ', i - length))
    {
      Put(s, ' ', idx, c0, idx0, Repeat(' ', i - length));
      RepeatSnoc(' ', i - length);
      idx := idx + 1;
      i := i + 1;
    }
    if width < length {
      NoneRepeated(' ', width - length);
    }
  }

  /** The loop that empties the scratch array from its end. */
  method EmitReversed(s: Sink, idx0: nat, buf: array<char>, len0: nat) returns (idx: nat)
    requires s.Valid() && len0 <= buf.Length && buf != s.buffer && s.Room(idx0 + len0)
    modifies s`stream, s`calls, s.buffer
    ensures Emitted(s, old(s.calls), idx0, Reverse(buf[..len0]))
    ensures idx == idx0 + len0
  {
    hide Emitted, Reverse;
    ghost var c0 := s.calls;
    ghost var body := Reverse(buf[..len0]);
    EmittedNothing(s, idx0);
    idx := idx0;
    var len := len0;
    assert body[..0] == "";
    while len > 0
      invariant 0 <= len <= len0 && idx == idx0 + (len0 - len)
      invariant Emitted(s, c0, idx0, body[..len0 - len])
    {
      len := len - 1;
      ReverseAt(buf[..len0], len0 - 1 - len);
      Put(s, buf[len], idx, c0, idx0, body[..len0 - 1 - len]);
      assert body[..len0 - 1 - len] + [buf[len]] == body[..len0 - len];
      idx := idx + 1;
    }
    assert body[..len0] == body;
  }

  /** _out_rev: blanks on the left, the scratch array backwards, blanks on the right. */
  method OutRev(s: Sink, idx0: nat, buf: array<char>, len: nat, width: nat, flags: Flags) returns (idx: nat)
    requires s.Valid() && len <= buf.Length && buf != s.buffer
    requires s.Room(idx0 + |Justify(Reverse(buf[..len]), width, flags)|)
    modifies s`stream, s`calls, s.buffer
    ensures var text := Justify(Reverse(buf[..len]), width, flags);
            Emitted(s, old(s.calls), idx0, text) && idx == idx0 + |text|
  {
    hide Reverse, Repeat, CallsAt, Emitted, Sink.Valid;
    ghost var c0 := s.calls;
    ghost var body := Reverse(buf[..len]);
    ghost var left := Repeat(' ', if !flags.left && !flags.zeropad then width - len else 0);
    ghost var right := Repeat(' ', if flags.left then width - len else 0);
    NoneRepeated(' ', 0);
    EmittedNothing(s, idx0);
    idx := idx0;
    if !flags.left && !flags.zeropad {
      idx := Blanks(s, idx, len, width);
    }
    ghost var c1 := s.calls;
    EmittedCalls(s, c0, idx0, left);
    idx := EmitReversed(s, idx, buf, len);
    EmittedJoin(s, c0, c1, idx0, left, body);
    ghost var c2 := s.calls;
    EmittedCalls(s, c0, idx0, left + body);
    EmittedNothing(s, idx);
    if flags.left {
      idx := Blanks(s, idx, len, width);
    }
    EmittedJoin(s, c0, c2, idx0, left + body, right);
  }

  // ----- The scratch array -----

  /** The scratch array holds its text backwards: appending prepends. */
  method Push(buf: array<char>, len: nat, c: char)
    requires len < buf.Length
    modifies buf
    ensures Reverse(buf[..len + 1]) == [c] + Reverse(old(buf[..len]))
  {
    buf[len] := c;
    assert buf[..len + 1] == old(buf[..len]) + [c];
    ReverseSnoc(old(buf[..len]), c);
  }

  /** The loop that appends zeros while the length is below a target. */
  method PushZeros(buf: array<char>, len0: nat, target: nat) returns (len: nat)
    requires len0 <= buf.Length == NTOA_BUFFER
    modifies buf
    ensures len == Max(len0, Min(target, NTOA_BUFFER))
    ensures Reverse(buf[..len]) == Repeat('0', len - len0) + Reverse(old(buf[..len0]))
  {
    hide Reverse, Repeat;
    ghost var d := Reverse(buf[..len0]);
    len := len0;
    NoneInFront('0', 0, d);
    while len < target && len < NTOA_BUFFER
      invariant len0 <= len <= Max(len0, Min(target, NTOA_BUFFER))
      invariant Reverse(buf[..len]) == Repeat('0', len - len0) + d
    {
      ghost var t := Reverse(buf[..len]);
      Push(buf, len, '0');
      ZeroBefore(len - len0, d);
      len := len + 1;
      assert Reverse(buf[..len]) == ['0'] + t;
    }
  }

  lemma ZeroBefore(n: nat, d: string)
    ensures ['0'] + (Repeat('0', n) + d) == Repeat('0', n + 1) + d
  {
    assert ['0'] + (Repeat('0', n) + d) == (['0'] + Repeat('0', n)) + d;
  }

  /** The two zero-padding loops at the head of _ntoa_format. */
  method PadZeros(buf: array<char>, len0: nat, prec: nat, width: nat, flags: Flags) returns (len: nat)
    requires len0 <= buf.Length == NTOA_BUFFER
    modifies buf
    ensures len <= NTOA_BUFFER
    ensures Reverse(buf[..len]) == ZeroPad(Reverse(old(buf[..len0])), PadTarget(prec, width, flags))
  {
    hide Reverse, Repeat, ZeroPad, PadTarget;
    ghost var d := Reverse(buf[..len0]);
    len := len0;
    NoneInFront('0', 0, d);
    TargetSteps(len0, prec, width, flags);
    if !flags.left {
      len := PushZeros(buf, len, prec);
      if flags.zeropad {
        ghost var mid := len;
        len := PushZeros(buf, len, width);
        JoinZeros(len - mid, mid - len0, d);
      }
    }
    ZerosPad(len, d, PadTarget(prec, width, flags));
  }

  lemma TargetSteps(len: nat, prec: nat, width: nat, f: Flags)
    requires len <= NTOA_BUFFER
    ensures var mid := Max(len, Min(prec, NTOA_BUFFER));
            Max(len, PadTarget(prec, width, f)) ==
            if f.left then len else if f.zeropad then Max(mid, Min(width, NTOA_BUFFER)) else mid
  {
  }

  lemma JoinZeros(a: nat, b: nat, d: string)
    ensures Repeat('0', a) + (Repeat('0', b) + d) == Repeat('0', a + b) + d
  {
    hide Repeat;
    RepeatJoin('0', a, b);
    assert Repeat('0', a) + (Repeat('0', b) + d) == (Repeat('0', a) + Repeat('0', b)) + d;
  }

  lemma ZerosPad(len: nat, d: string, target: nat)
    requires len == Max(|d|, target)
    ensures ZeroPad(d, target) == Repeat('0', len - |d|) + d
  {
    hide Repeat;
    SameRepeat('0', len - |d|, target - |d|);
  }

  /** The `#` stage, first half: give up characters that fill the width. */
  method StripScratch(buf: array<char>, len0: nat, base: nat, prec: nat, width: nat, flags: Flags) returns (len: nat)
    requires len0 <= buf.Length == NTOA_BUFFER && flags.hash
    ensures len <= NTOA_BUFFER
    ensures Reverse(buf[..len]) == Strip(Reverse(buf[..len0]), base, prec, width, flags)
  {
    hide Reverse;
    len := len0;
    if !flags.precision && len > 0 && (len == prec || len == width) {
      Pop(buf, len);
      len := len - 1;
      if len > 0 && base == 16 {
        Pop(buf, len);
        len := len - 1;
      }
    }
  }

  /** The `#` stage, second half: append the letter and the zero where there is room. */
  method PushPrefix(buf: array<char>, len0: nat, base: nat, flags: Flags) returns (len: nat)
    requires len0 <= buf.Length == NTOA_BUFFER && flags.hash
    modifies buf
    ensures len <= NTOA_BUFFER
    ensures Reverse(buf[..len]) == AddPrefix(Reverse(old(buf[..len0])), base, flags)
  {
    hide Reverse;
    len := len0;
    ghost var b := Reverse(buf[..len0]);
    if base == 16 && !flags.uppercase && len < NTOA_BUFFER {
      Push(buf, len, 'x');
      len := len + 1;
    } else if base == 16 && flags.uppercase && len < NTOA_BUFFER {
      Push(buf, len, 'X');
      len := len + 1;
    } else if base == 2 && len < NTOA_BUFFER {
      Push(buf, len, 'b');
      len := len + 1;
    }
    assert Reverse(buf[..len]) == (if |b| < NTOA_BUFFER then Letter(base, flags) + b else b) by { assert "" + b == b; }
    if len < NTOA_BUFFER {
      Push(buf, len, '0');
      len := len + 1;
    }
  }

  /** Shortening the scratch array drops the first character of its text. */
  lemma Pop(buf: array<char>, len: nat)
    requires 0 < len <= buf.Length
    ensures Reverse(buf[..len - 1]) == Reverse(buf[..len])[1..]
    ensures |Reverse(buf[..len])| == len
  {
    assert buf[..len][..len - 1] == buf[..len - 1];
  }

  method PushSign(buf: array<char>, len0: nat, negative: bool, flags: Flags) returns (len: nat)
    requires len0 <= buf.Length == NTOA_BUFFER
    modifies buf
    ensures len <= NTOA_BUFFER
    ensures Reverse(buf[..len]) == AddSign(Reverse(old(buf[..len0])), negative, flags)
  {
    hide Reverse;
    len := len0;
    assert "" + Reverse(buf[..len]) == Reverse(buf[..len]);
    if len < NTOA_BUFFER {
      if negative {
        Push(buf, len, '-');
        len := len + 1;
      } else if flags.plus {
        Push(buf, len, '+');
        len := len + 1;
      } else if flags.space {
        Push(buf, len, ' ');
        len := len + 1;
      }
    }
  }

  /** _ntoa_format. */
  method NtoaFormat(s: Sink, idx0: nat, buf: array<char>, len0: nat, negative: bool, base: nat,
                    prec: nat, width0: nat, flags: Flags) returns (idx: nat)
    requires s.Valid() && len0 <= buf.Length == NTOA_BUFFER && buf != s.buffer
    requires s.Room(idx0 + |FormatText(Reverse(buf[..len0]), negative, base, prec, width0, flags)|)
    modifies s`stream, s`calls, s.buffer, buf
    ensures var text := FormatText(old(Reverse(buf[..len0])), negative, base, prec, width0, flags);
            Emitted(s, old(s.calls), idx0, text) && idx == idx0 + |text|
  {
    hide Reverse, ZeroPad, PadTarget, Strip, AddPrefix, AddSign, Justify;
    ghost var d := Reverse(buf[..len0]);
    var width := width0;
    if !flags.left {
      if width > 0 && flags.zeropad && (negative || flags.plus || flags.space) {
        width := width - 1;
      }
    }
    assert width == FieldWidth(width0, negative, flags);
    var len := PadZeros(buf, len0, prec, width, flags);
    if flags.hash {
      len := StripScratch(buf, len, base, prec, width, flags);
      len := PushPrefix(buf, len, base, flags);
    }
    assert Reverse(buf[..len]) == Body(d, negative, base, prec, width0, flags) by {
      if !flags.hash {
        NoHash(ZeroPad(d, PadTarget(prec, width, flags)), base, prec, width, flags);
      }
    }
    len := PushSign(buf, len, negative, flags);
    idx := OutRev(s, idx0, buf, len, width, flags);
  }

  lemma NoHash(b: string, base: nat, prec: nat, width: nat, f: Flags)
    requires !f.hash
    ensures AddPrefix(Strip(b, base, prec, width, f), base, f) == b
  {
  }

  /** The part of a numeral that the digit loop has still to write. */
  ghost function Unread(v: nat, first: bool, base: nat, upper: bool): string
    requires 2 <= base <= 16
  {
    if v == 0 && !first then "" else Digits(v, base, upper)
  }

  lemma NextDigit(v: nat, first: bool, base: nat, upper: bool)
    requires 2 <= base <= 16 && (first || v > 0)
    ensures Rem(v, base) < 16
    ensures Unread(v, first, base, upper) ==
            Unread(Quot(v, base), false, base, upper) + [DigitChar(Rem(v, base), upper)]
  {
    hide Quot, Rem, Times;
    QuotRem(v, base);
    if v < base {
      assert "" + [DigitChar(v, upper)] == [DigitChar(v, upper)];
    }
  }

  /** The do-while loop that divides the value down. */
  method GenerateDigits(buf: array<char>, value0: nat, base: nat, flags: Flags) returns (len: nat)
    requires buf.Length == NTOA_BUFFER && 2 <= base <= 16
    modifies buf
    ensures len <= NTOA_BUFFER
    ensures Reverse(buf[..len]) == Last(Digits(value0, base, flags.uppercase), NTOA_BUFFER)
  {
    hide Reverse, Digits, Quot, Rem, Unread;
    ghost var all := Digits(value0, base, flags.uppercase);
    len := 0;
    var value := value0;
    var more := true;
    Start(buf, value0, base, flags.uppercase);
    while more
      invariant 0 <= len <= NTOA_BUFFER && (more ==> len < NTOA_BUFFER && (len == 0 || value > 0))
      invariant !more ==> len > 0 && (value == 0 || len == NTOA_BUFFER)
      invariant all == Unread(value, len == 0, base, flags.uppercase) + Reverse(buf[..len])
      decreases NTOA_BUFFER - len, more
    {
      ghost var rest := Unread(Quot(value, base), false, base, flags.uppercase);
      ghost var t := Reverse(buf[..len]);
      NextDigit(value, len == 0, base, flags.uppercase);
      var digit := Rem(value, base);
      var c := if digit < 10 then ('0' as int + digit) as char
               else ((if flags.uppercase then 'A' else 'a') as int + digit - 10) as char;
      Push(buf, len, c);
      assert (rest + [c]) + t == rest + ([c] + t);
      len := len + 1;
      value := Quot(value, base);
      more := value != 0 && len < NTOA_BUFFER;
    }
    KeptText(buf, len, value, base, flags.uppercase, all);
  }

  lemma Start(buf: array<char>, value: nat, base: nat, upper: bool)
    requires 2 <= base <= 16
    ensures Digits(value, base, upper) == Unread(value, true, base, upper) + Reverse(buf[..0])
  {
  }

  lemma KeptText(buf: array<char>, len: nat, value: nat, base: nat, upper: bool, all: string)
    requires 2 <= base <= 16 && len <= buf.Length && len <= NTOA_BUFFER && (value == 0 || len == NTOA_BUFFER)
    requires all == Unread(value, false, base, upper) + Reverse(buf[..len])
    ensures Reverse(buf[..len]) == Last(all, NTOA_BUFFER)
  {
    hide Reverse, Digits;
    var t := Reverse(buf[..len]);
    var rest := Unread(value, false, base, upper);
    assert (rest + t)[|rest|..] == t;
  }

  /** A new scratch array with its digits; none for a zero under an explicit precision. */
  method FillScratch(value: nat, base: nat, flags: Flags) returns (buf: array<char>, len: nat)
    requires 2 <= base <= 16
    ensures fresh(buf) && len <= buf.Length == NTOA_BUFFER
    ensures Reverse(buf[..len]) == Last(Significant(value, base, flags), NTOA_BUFFER)
  {
    hide Reverse, Digits;
    buf := new char[NTOA_BUFFER];
    len := 0;
    EmptyScratch(buf);
    if !flags.precision || value != 0 {
      len := GenerateDigits(buf, value, base, flags);
    }
  }

  lemma EmptyScratch(buf: array<char>)
    ensures Reverse(buf[..0]) == ""
  {
  }

  /** _ntoa_long and _ntoa_long_long, which differ only in the C type of the value. */
  method Ntoa(s: Sink, idx0: nat, value: nat, negative: bool, base: nat, prec: nat, width: nat, flags0: Flags)
    returns (idx: nat)
    requires s.Valid() && 2 <= base <= 16
    requires s.Room(idx0 + |EngineText(value, negative, base, prec, width, flags0)|)
    modifies s`stream, s`calls, s.buffer
    ensures var text := EngineText(value, negative, base, prec, width, flags0);
            Emitted(s, old(s.calls), idx0, text) && idx == idx0 + |text|
  {
    hide *;
    var flags := flags0;
    if value == 0 {
      flags := flags.(hash := false);
    }
    EngineIsFormat(value, negative, base, prec, width, flags0, flags);
    var buf, len := FillScratch(value, base, flags);
    idx := NtoaFormat(s, idx0, buf, len, negative, base, prec, width, flags);
  }

  lemma EngineIsFormat(value: nat, negative: bool, base: nat, prec: nat, width: nat, f: Flags, f': Flags)
    requires 2 <= base <= 16 && f' == f.(hash := f.hash && value != 0)
    ensures EngineText(value, negative, base, prec, width, f) ==
            FormatText(Last(Significant(value, base, f'), NTOA_BUFFER), negative, base, prec, width, f')
  {
    hide FormatText, Last;
    assert Significant(value, base, f') == Significant(value, base, f);
  }

  // ----- The scanner -----

  /** The character a C string shows at a position: zero at its end. */
  function CharAt(format: string, i: nat): char {
    if i < |format| then format[i] else '\0'
  }

  /** _atoi: the digit run at i, and the position behind it. */
  method Atoi(format: string, i: nat) returns (n: nat, k: nat)
    requires i <= |format|
    ensures n == Value(format[i..DigitsEnd(format, i)], 10) % UINT_RANGE && k == DigitsEnd(format, i)
  {
    hide Value;
    n, k := 0, i;
    EmptyValue(10);
    assert format[i..i] == "";
    while IsDecimal(CharAt(format, k))
      invariant i <= k <= |format|
      invariant n == Value(format[i..k], 10) % UINT_RANGE
      invariant DigitsEnd(format, k) == DigitsEnd(format, i)
      decreases |format| - k
    {
      ReducedSnoc(format[i..k], format[k]);
      assert format[i..k] + [format[k]] == format[i..k + 1];
      n := (n * 10 + (format[k] as int - '0' as int)) % UINT_RANGE;
      k := k + 1;
    }
  }

  lemma ReducedSnoc(run: string, c: char)
    requires IsDecimal(c)
    ensures Value(run + [c], 10) % UINT_RANGE ==
            (Value(run, 10) % UINT_RANGE * 10 + (c as int - '0' as int)) % UINT_RANGE
  {
    hide Value;
    ValueSnoc(run, c);
    TimesIs(Value(run, 10), 10);
    ReducedFirst(Value(run, 10), c as int - '0' as int);
  }

  lemma ReducedFirst(v: nat, d: nat)
    ensures (v * 10 + d) % UINT_RANGE == (v % UINT_RANGE * 10 + d) % UINT_RANGE
  {
    var q := v / UINT_RANGE;
    assert v * 10 + d == UINT_RANGE * (q * 10) + (v % UINT_RANGE * 10 + d);
  }

  lemma ValueSnoc(run: string, c: char)
    requires IsDecimal(c)
    ensures Value(run + [c], 10) == Times(Value(run, 10), 10) + (c as int - '0' as int)
  {
    assert (run + [c])[..|run|] == run;
  }

  /** The do-while loop over flag characters. */
  method ScanFlags(format: string, i: nat) returns (flags: Flags, k: nat)
    requires i <= |format|
    ensures k == FlagsEnd(format, i)
    ensures flags == BaseFlags(FlagsIn(format[i..k]))
  {
    hide FlagsIn;
    flags, k := NO_FLAGS, i;
    var n := 1;
    assert format[i..i] == "";
    NoFlagsYet();
    while n == 1
      invariant n == 0 || n == 1
      invariant i <= k <= |format|
      invariant flags == BaseFlags(FlagsIn(format[i..k]))
      invariant FlagsEnd(format, k) == FlagsEnd(format, i)
      invariant n == 0 ==> k == FlagsEnd(format, k)
      decreases n, |format| - k
    {
      var c := CharAt(format, k);
      if IsFlag(c) {
        MoreFlags(format[i..k], c);
        assert format[i..k] + [c] == format[i..k + 1];
      }
      match c {
        case '0' => flags := flags.(zeropad := true); k := k + 1;
        case '-' => flags := flags.(left := true); k := k + 1;
        case '+' => flags := flags.(plus := true); k := k + 1;
        case ' ' => flags := flags.(space := true); k := k + 1;
        case '#' => flags := flags.(hash := true); k := k + 1;
        case _ => n := 0;
      }
    }
  }

  lemma NoFlagsYet()
    ensures BaseFlags(FlagsIn("")) == NO_FLAGS
  {
  }

  lemma MoreFlags(run: string, c: char)
    ensures var f := FlagsIn(run);
            FlagsIn(run + [c]) == FlagSet(f.zero || c == '0', f.left || c == '-', f.plus || c == '+',
                                          f.space || c == ' ', f.hash || c == '#')
  {
  }

  method ScanWidth(format: string, i: nat, flags0: Flags, args: seq<Arg>, a0: nat)
    returns (flags: Flags, width: nat, k: nat, a: nat)
    requires i <= |format| && WithWidth(flags0, ParseAmount(format, i, Absent).0, args, a0).Some?
    ensures k == ParseAmount(format, i, Absent).1 && width < UINT_RANGE
    ensures WithWidth(flags0, ParseAmount(format, i, Absent).0, args, a0) == Some((Setting(flags, width, 0), a))
  {
    hide Value;
    flags, width, k, a := flags0, 0, i, a0;
    if IsDecimal(CharAt(format, i)) {
      width, k := Atoi(format, i);
    } else if CharAt(format, i) == '*' {
      var w := Signed(args[a].bits, 32);
      if w < 0 {
        flags := flags.(left := true);
        width := -w;
      } else {
        width := w;
      }
      a := a + 1;
      k := k + 1;
    }
  }

  method ScanPrecision(format: string, i: nat, st: Setting, args: seq<Arg>, a0: nat)
    returns (flags: Flags, precision: nat, k: nat, a: nat)
    requires i <= |format| && st.precision == 0
    requires WithPrecision(st, ParsePrecision(format, i).0, args, a0).Some?
    ensures k == ParsePrecision(format, i).1
    ensures precision < UINT_RANGE && (precision != 0 ==> flags.precision)
    ensures WithPrecision(st, ParsePrecision(format, i).0, args, a0) ==
            Some((Setting(flags, st.width, precision), a))
  {
    hide Value;
    flags, precision, k, a := st.flags, 0, i, a0;
    if CharAt(format, i) == '.' {
      flags := flags.(precision := true);
      k := k + 1;
      if IsDecimal(CharAt(format, k)) {
        precision, k := Atoi(format, k);
      } else if CharAt(format, k) == '*' {
        var p := Signed(args[a].bits, 32);
        precision := if p > 0 then p else 0;
        a := a + 1;
        k := k + 1;
      }
    }
  }

  method ScanLength(format: string, i: nat, flags0: Flags) returns (flags: Flags, k: nat)
    requires i <= |format|
    ensures k == ParseLength(format, i).1
    ensures flags == LengthFlags(flags0, ParseLength(format, i).0)
  {
    flags, k := flags0, i;
    match CharAt(format, i) {
      case 'l' =>
        flags := flags.(long := true);
        k := k + 1;
        if CharAt(format, k) == 'l' {
          flags := flags.(longLong := true);
          k := k + 1;
        }
      case 'h' =>
        flags := flags.(short := true);
        k := k + 1;
        if CharAt(format, k) == 'h' {
          flags := flags.(chr := true);
          k := k + 1;
        }
      case 't' =>
        flags := flags.(long := true);
        k := k + 1;
      case 'j' =>
        flags := flags.(long := true);
        k := k + 1;
      case 'z' =>
        flags := flags.(long := true);
        k := k + 1;
      case _ =>
    }
  }

  /** Everything between the percent sign and the conversion character. */
  method ScanDirective(format: string, i: nat, args: seq<Arg>, a0: nat)
    returns (st: Setting, k: nat, a: nat)
    requires i <= |format| && ParseDirective(format, i).Some?
    requires DirectiveText(ParseDirective(format, i).value.0, args, a0).Some?
    ensures k < |format| && ParseDirective(format, i).value.1 == k + 1 && SettingOk(st)
    ensures ParseDirective(format, i).value.0.conversion == format[k]
    ensures SettingOf(ParseDirective(format, i).value.0, args, a0) == Some((st, a))
    ensures DirectiveText(ParseDirective(format, i).value.0, args, a0) == Convert(format[k], st, args, a)
  {
    hide FlagsEnd, FlagsIn, ParseAmount, ParsePrecision, ParseLength, WithWidth, WithPrecision, LengthFlags, Convert,
         BaseFlags;
    var flags, j := ScanFlags(format, i);
    var width, precision;
    flags, width, k, a := ScanWidth(format, j, flags, args, a0);
    flags, precision, k, a := ScanPrecision(format, k, Setting(flags, width, 0), args, a);
    LengthKeeps(flags, ParseLength(format, k).0);
    flags, k := ScanLength(format, k, flags);
    st := Setting(flags, width, precision);
  }

  // ----- Conversions -----

  /** The base of an integer conversion; decimal drops `#`. */
  method ChooseBase(c: char, flags0: Flags) returns (base: nat, flags: Flags)
    requires IsInteger(c)
    ensures base == BaseOf(c) && flags == WithoutHash(c, flags0)
  {
    flags := flags0;
    if c == 'x' || c == 'X' {
      base := 16;
    } else if c == 'o' {
      base := 8;
    } else if c == 'b' {
      base := 2;
    } else {
      base := 10;
      flags := flags.(hash := false);
    }
  }

  /** The flags that remain in force. */
  method DropFlags(c: char, flags0: Flags) returns (flags: Flags)
    ensures flags == WithoutZero(WithoutSigns(c, Capital(c, flags0)))
  {
    hide *;
    flags := SetUppercase(c, flags0);
    flags := DropSigns(c, flags);
    flags := DropZero(flags);
  }

  method SetUppercase(c: char, flags0: Flags) returns (flags: Flags)
    ensures flags == Capital(c, flags0)
  {
    flags := flags0;
    if c == 'X' {
      flags := flags.(uppercase := true);
    }
  }

  method DropSigns(c: char, flags0: Flags) returns (flags: Flags)
    ensures flags == WithoutSigns(c, flags0)
  {
    flags := flags0;
    if c != 'i' && c != 'd' {
      flags := flags.(plus := false, space := false);
    }
  }

  /** The zero flag is ignored beside a precision. */
  method DropZero(flags0: Flags) returns (flags: Flags)
    ensures flags == WithoutZero(flags0)
  {
    flags := flags0;
    if flags.precision {
      flags := flags.(zeropad := false);
    }
  }

  /** What the engine's casts make of an argument; char is unsigned. */
  lemma ValueRepresents(f: Flags, arg: Arg)
    requires ArgFits(f, arg)
    ensures var v, u := SignedValue(f, arg), UnsignedValue(f, arg);
            if WantsLong(f) then Represents(v, arg.bits64, 64, true) && Represents(u, arg.bits64, 64, false)
            else if f.chr then Represents(v, arg.bits, 8, false) && Represents(u, arg.bits, 8, false)
            else if f.short then Represents(v, arg.bits, 16, true) && Represents(u, arg.bits, 16, false)
            else Represents(v, arg.bits, 32, true) && Represents(u, arg.bits, 32, false)
  {
    hide Signed, Represents;
    var bits := if arg.Int? then arg.bits else arg.bits64;
    SignedRepresents(bits);
    UnsignedRepresents(bits);
  }

  /** The argument of an integer conversion, as a magnitude and a sign. */
  method ReadArgument(c: char, flags: Flags, arg: Arg) returns (value: nat, negative: bool)
    requires ArgFits(flags, arg)
    ensures IsSigned(c) ==> value == Magnitude(SignedValue(flags, arg), if WantsLong(flags) then 64 else 32)
    ensures IsSigned(c) ==> negative == (SignedValue(flags, arg) < 0)
    ensures !IsSigned(c) ==> value == UnsignedValue(flags, arg) && !negative
    ensures var v: int := if negative then 0 - value else value;
            var signed := c == 'd' || c == 'i';
            if flags.long || flags.longLong then arg.Long? && Represents(v, arg.bits64, 64, signed)
            else if flags.chr then arg.Int? && Represents(v, arg.bits, 8, false)
            else if flags.short then arg.Int? && Represents(v, arg.bits, 16, signed)
            else arg.Int? && Represents(v, arg.bits, 32, signed)
  {
    hide Signed, Magnitude, Represents;
    ValueRepresents(flags, arg);
    MagnitudeIsAbs(flags, arg);
    if c == 'i' || c == 'd' {
      if flags.longLong || flags.long {
        var v := Signed(arg.bits64, 64);
        value, negative := Magnitude(v, 64), v < 0;
      } else {
        var v := if flags.chr then arg.bits % 0x100
                 else if flags.short then Signed(arg.bits, 16) else Signed(arg.bits, 32);
        value, negative := Magnitude(v, 32), v < 0;
      }
    } else {
      negative := false;
      if flags.longLong || flags.long {
        value := arg.bits64;
      } else {
        value := if flags.chr then arg.bits % 0x100
                 else if flags.short then arg.bits % 0x1_0000 else arg.bits;
      }
    }
  }

  /** The case for d, i, u, x, X, o and b. */
  method ConvertInteger(s: Sink, idx0: nat, c: char, st: Setting, arg: Arg) returns (idx: nat)
    requires s.Valid() && IsInteger(c) && ArgFits(st.flags, arg)
    requires s.Room(idx0 + |IntegerText(c, st, arg)|)
    modifies s`stream, s`calls, s.buffer
    ensures Emitted(s, old(s.calls), idx0, IntegerText(c, st, arg))
    ensures idx == idx0 + |IntegerText(c, st, arg)|
  {
    hide EngineText, Emitted, Sink.Valid, Magnitude, SignedValue, UnsignedValue, BaseOf;
    var base, flags := ChooseBase(c, st.flags);
    flags := DropFlags(c, flags);
    var value, negative := ReadArgument(c, flags, arg);
    idx := Ntoa(s, idx0, value, negative, base, st.precision, st.width, flags);
  }

  /** A single character as an emission of its own. */
  method PutOne(s: Sink, c: char, idx: nat)
    requires s.Valid() && s.Room(idx + 1)
    modifies s`stream, s`calls, s.buffer
    ensures Emitted(s, old(s.calls), idx, [c])
  {
    hide Emitted, Sink.Valid;
    EmittedNothing(s, idx);
    Put(s, c, idx, s.calls, idx, "");
    assert "" + [c] == [c];
  }

  /** The case for c. */
  method ConvertChar(s: Sink, idx0: nat, st: Setting, bits: nat) returns (idx: nat)
    requires s.Valid() && s.Room(idx0 + |CharText(st, bits)|)
    modifies s`stream, s`calls, s.buffer
    ensures Emitted(s, old(s.calls), idx0, CharText(st, bits)) && idx == idx0 + |CharText(st, bits)|
  {
    hide Repeat, CallsAt, Sink.Valid, Emitted;
    ghost var c0 := s.calls;
    ghost var blanks := Repeat(' ', st.width - 1);
    var c := (bits % 0x100) as char;
    idx := idx0;
    if !st.flags.left {
      idx := Blanks(s, idx, 1, st.width);
      ghost var c1 := s.calls;
      EmittedCalls(s, c0, idx0, blanks);
      PutOne(s, c, idx);
      idx := idx + 1;
      EmittedJoin(s, c0, c1, idx0, blanks, [c]);
    } else {
      PutOne(s, c, idx);
      idx := idx + 1;
      ghost var c2 := s.calls;
      EmittedCalls(s, c0, idx0, [c]);
      idx := Blanks(s, idx, 1, st.width);
      EmittedJoin(s, c0, c2, idx0, [c], blanks);
    }
  }

  /** The bounded copy of a string argument. */
  method EmitString(s: Sink, idx0: nat, text: string, st: Setting) returns (idx: nat)
    requires s.Valid() && '\0' !in text && s.Room(idx0 + |Clipped(st, text)|)
    modifies s`stream, s`calls, s.buffer
    ensures Emitted(s, old(s.calls), idx0, Clipped(st, text)) && idx == idx0 + |Clipped(st, text)|
  {
    hide Emitted, Sink.Valid;
    ghost var c0 := s.calls;
    var p := 0;
    var precision := st.precision;
    EmittedNothing(s, idx0);
    idx := idx0;
    assert text[..0] == "";
    while CharAt(text, p) != '\0' && (!st.flags.precision || precision > 0)
      invariant 0 <= p <= |Clipped(st, text)| && idx == idx0 + p
      invariant st.flags.precision ==> precision == st.precision - p
      invariant Emitted(s, c0, idx0, text[..p])
      decreases |text| - p
    {
      if st.flags.precision {
        precision := precision - 1;
      }
      Put(s, text[p], idx, c0, idx0, text[..p]);
      assert text[..p] + [text[p]] == text[..p + 1];
      p := p + 1;
      idx := idx + 1;
    }
    assert text[..p] == Clipped(st, text);
  }

  /** _strnlen_s: the length of a string, bounded. */
  method Strnlen(text: string, maxsize: nat) returns (n: nat)
    requires '\0' !in text
    ensures n == Min(|text|, maxsize) % UINT_RANGE
  {
    var k, left := 0, maxsize;
    while CharAt(text, k) != '\0' && left > 0
      invariant 0 <= k <= |text| && k + left == maxsize
      decreases left
    {
      left := left - 1;
      k := k + 1;
    }
    n := k % UINT_RANGE;
  }

  /** The case for s. */
  method ConvertString(s: Sink, idx0: nat, st: Setting, text: CString) returns (idx: nat)
    requires s.Valid() && SettingOk(st) && s.Room(idx0 + |StringText(st, text)|)
    modifies s`stream, s`calls, s.buffer
    ensures Emitted(s, old(s.calls), idx0, StringText(st, text)) && idx == idx0 + |StringText(st, text)|
  {
    hide Repeat, CallsAt, Sink.Valid, Clipped, Emitted;
    ghost var c0 := s.calls;
    ghost var body := Clipped(st, text);
    var l := Strnlen(text, if st.precision != 0 then st.precision else SIZE_MAX);
    if st.flags.precision {
      l := if l < st.precision then l else st.precision;
    }
    ClippedLength(st, text, l);
    ghost var blanks := Repeat(' ', st.width - l);
    idx := idx0;
    if !st.flags.left {
      idx := Blanks(s, idx, l, st.width);
      ghost var c1 := s.calls;
      EmittedCalls(s, c0, idx0, blanks);
      idx := EmitString(s, idx, text, st);
      EmittedJoin(s, c0, c1, idx0, blanks, body);
    } else {
      idx := EmitString(s, idx, text, st);
      ghost var c2 := s.calls;
      EmittedCalls(s, c0, idx0, body);
      idx := Blanks(s, idx, l, st.width);
      EmittedJoin(s, c0, c2, idx0, body, blanks);
    }
  }

  lemma ClippedLength(st: Setting, text: CString, l: nat)
    requires SettingOk(st)
    requires var n := Min(|text|, if st.precision != 0 then st.precision else SIZE_MAX) % UINT_RANGE;
             l == if st.flags.precision then Min(n, st.precision) else n
    ensures l == |Clipped(st, text)| % UINT_RANGE
  {
  }

  /** The case for p: sixteen digits, zero padded, in capitals. */
  method ConvertPointer(s: Sink, idx0: nat, st: Setting, bits: nat) returns (idx: nat)
    requires s.Valid() && s.Room(idx0 + |PointerText(st, bits)|)
    modifies s`stream, s`calls, s.buffer
    ensures Emitted(s, old(s.calls), idx0, PointerText(st, bits)) && idx == idx0 + |PointerText(st, bits)|
  {
    hide EngineText, Emitted, Sink.Valid;
    var width := 8 * 2;
    var flags := st.flags.(zeropad := true, uppercase := true);
    idx := Ntoa(s, idx0, bits, false, 16, st.precision, width, flags);
  }

  /** The dispatch on the conversion character; floating-point conversions are not modelled. */
  method ConvertOne(s: Sink, idx0: nat, c: char, st: Setting, args: seq<Arg>, a0: nat) returns (idx: nat, a: nat)
    requires s.Valid() && SettingOk(st) && Convert(c, st, args, a0).Some?
    requires s.Room(idx0 + |Convert(c, st, args, a0).value.0|)
    modifies s`stream, s`calls, s.buffer
    ensures var (text, b) := Convert(c, st, args, a0).value;
            Emitted(s, old(s.calls), idx0, text) && idx == idx0 + |text| && a == b
  {
    hide Emitted, Sink.Valid, IntegerText, CharText, StringText, PointerText;
    idx, a := idx0, a0;
    if IsInteger(c) {
      idx := ConvertInteger(s, idx, c, st, args[a]);
      a := a + 1;
    } else if c == 'c' {
      idx := ConvertChar(s, idx, st, args[a].bits);
      a := a + 1;
    } else if c == 's' {
      idx := ConvertString(s, idx, st, args[a].text);
      a := a + 1;
    } else if c == 'p' {
      idx := ConvertPointer(s, idx, st, args[a].bits64);
      a := a + 1;
    } else {
      PutOne(s, c, idx);
      idx := idx + 1;
    }
  }

  /** One directive: scan it and emit its text. */
  method FormatDirective(s: Sink, idx0: nat, format: string, i: nat, args: seq<Arg>, a0: nat)
    returns (idx: nat, k: nat, a: nat)
    requires s.Valid() && i <= |format| && ParseDirective(format, i).Some?
    requires DirectiveText(ParseDirective(format, i).value.0, args, a0).Some?
    requires s.Room(idx0 + |DirectiveText(ParseDirective(format, i).value.0, args, a0).value.0|)
    modifies s`stream, s`calls, s.buffer
    ensures k == ParseDirective(format, i).value.1
    ensures var (text, b) := DirectiveText(ParseDirective(format, i).value.0, args, a0).value;
            Emitted(s, old(s.calls), idx0, text) && idx == idx0 + |text| && a == b
  {
    hide Sink.Valid, Emitted, DirectiveText, ParseDirective, Convert;
    var st;
    st, k, a := ScanDirective(format, i, args, a0);
    idx, a := ConvertOne(s, idx0, format[k], st, args, a);
    k := k + 1;
  }

  // ----- _vsnprintf -----

  /** (int) of a size_t. */
  function ToInt(n: nat): int {
    Signed(n, 32)
  }

  /** The cast keeps lengths below 2^31 and wraps others. */
  lemma IntOf(n: nat)
    ensures -0x8000_0000 <= ToInt(n) < 0x8000_0000
    ensures (ToInt(n) - n) % 0x1_0000_0000 == 0
    ensures n < 0x8000_0000 ==> ToInt(n) == n
  {
    hide Signed;
    Signed32(n);
  }

  method Vsnprintf(s: Sink, format: CString, args: seq<Arg>) returns (ret: int)
    requires s.calls == [] && s.maxlen <= SIZE_MAX
    requires if s.buffer == null then s.stream == "" else s.Valid()
    requires Matches(format, args)
    requires s.buffer != null ==> s.Room(|Denote(format, args)| + 1)
    modifies s, s.buffer
    ensures s.out == if s.buffer == null then ToNull else old(s.out)
    ensures s.Valid() && s.calls == Run(Denote(format, args), s.maxlen)
    ensures ret == ToInt(|Denote(format, args)|)
    ensures -0x8000_0000 <= ret < 0x8000_0000 && (ret - |Denote(format, args)|) % 0x1_0000_0000 == 0
    ensures |Denote(format, args)| < 0x8000_0000 ==> ret == |Denote(format, args)|
  {
    hide Denote, Sink.Valid, MeaningFrom, Emitted, ToInt, DirectiveText, ParseDirective, CallsAt;
    if s.buffer == null {
      s.out := ToNull;
    }
    ghost var whole := Denote(format, args);
    ValidAtStart(s);
    EmittedNothing(s, 0);
    DenoteIs(format, args);
    var idx, i, a := 0, 0, 0;
    ghost var done := "";
    assert "" + whole == whole;
    while i < |format|  // *format is nonzero exactly before the end
      invariant 0 <= i <= |format| && idx == |done|
      invariant s.Valid() && Emitted(s, [], 0, done)
      invariant s.out == if s.buffer == null then ToNull else old(s.out)
      invariant MeaningFrom(format, i, args, a).Some? && whole == done + MeaningFrom(format, i, args, a).value
      decreases |format| - i
    {
      ghost var rest := MeaningFrom(format, i, args, a).value;
      if format[i] != '%' {
        MeaningOfLiteral(format, i, args, a);
        StepText(whole, done, [format[i]], rest, MeaningFrom(format, i + 1, args, a));
        Put(s, format[i], idx, [], 0, done);
        done := done + [format[i]];
        idx := idx + 1;
        i := i + 1;
      } else {
        MeaningOfDirective(format, i, args, a);
        ghost var (d, k) := ParseDirective(format, i + 1).value;
        ghost var (text, next) := DirectiveText(d, args, a).value;
        StepText(whole, done, text, rest, MeaningFrom(format, k, args, next));
        ghost var c1 := s.calls;
        EmittedCalls(s, [], 0, done);
        idx, i, a := FormatDirective(s, idx, format, i + 1, args, a);
        EmittedJoin(s, [], c1, 0, done, text);
        done := done + text;
      }
    }
    MeaningAtEnd(format, args, a);
    assert done + "" == done;
    EmittedCalls(s, [], 0, whole);
    var last := if idx < s.maxlen then idx else (s.maxlen - 1) % 0x1_0000_0000_0000_0000;
    s.Out('\0', last);
    ret := ToInt(idx);
    IntOf(idx);
  }

  lemma StepText(whole: string, done: string, text: string, rest: string, tail: Option<string>)
    requires whole == done + rest && Append(text, tail) == Some(rest)
    ensures tail.Some? && whole == (done + text) + tail.value
    ensures |done| + |text| <= |whole|
  {
    assert done + (text + tail.value) == (done + text) + tail.value;
  }

  lemma ValidAtStart(s: Sink)
    requires s.calls == []
    requires if s.buffer == null then s.stream == "" && s.out == ToNull else s.Valid()
    ensures s.Valid()
  {
  }

  lemma DenoteIs(format: CString, args: seq<Arg>)
    requires Matches(format, args)
    ensures MeaningFrom(format, 0, args, 0) == Some(Denote(format, args))
  {
  }
}
