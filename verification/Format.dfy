/** The format language %[flags][width][.precision][length]conversion: a parser over
    positions of a format string, a printer, and the round trip between them. */
module Format {
  import opened Text
  import opened Numerals

  datatype FlagSet = FlagSet(zero: bool, left: bool, plus: bool, space: bool, hash: bool)

  /** A width or precision: absent, written in the format, or taken from an argument. */
  datatype Amount = Absent | Given(n: nat) | FromArgument

  datatype Length = Default | H | HH | L | LL | T | J | Z

  datatype Directive = Directive(flags: FlagSet, width: Amount, precision: Amount, length: Length, conversion: char)

  datatype Item = Literal(c: char) | Conversion(d: Directive)

  // ----- Conversion characters -----

  predicate IsInteger(c: char) {
    c == 'd' || c == 'i' || c == 'u' || c == 'x' || c == 'X' || c == 'o' || c == 'b'
  }

  predicate IsSigned(c: char) {
    c == 'd' || c == 'i'
  }

  function BaseOf(c: char): (b: nat)
    ensures b == 2 || b == 8 || b == 10 || b == 16
  {
    if c == 'x' || c == 'X' then 16 else if c == 'o' then 8 else if c == 'b' then 2 else 10
  }

  // ----- Parsing -----

  predicate IsFlag(c: char) {
    c == '0' || c == '-' || c == '+' || c == ' ' || c == '#'
  }

  predicate IsDecimal(c: char) {
    '0' <= c <= '9'
  }

  function FlagsEnd(s: string, i: nat): (j: nat)
    requires i <= |s|
    ensures i <= j <= |s|
    ensures forall k :: i <= k < j ==> IsFlag(s[k])
    ensures j < |s| ==> !IsFlag(s[j])
    decreases |s| - i
  {
    if i < |s| && IsFlag(s[i]) then FlagsEnd(s, i + 1) else i
  }

  function DigitsEnd(s: string, i: nat): (j: nat)
    requires i <= |s|
    ensures i <= j <= |s|
    ensures forall k :: i <= k < j ==> IsDecimal(s[k])
    ensures j < |s| ==> !IsDecimal(s[j])
    decreases |s| - i
  {
    if i < |s| && IsDecimal(s[i]) then DigitsEnd(s, i + 1) else i
  }

  function FlagsIn(run: string): FlagSet {
    FlagSet('0' in run, '-' in run, '+' in run, ' ' in run, '#' in run)
  }

  predicate At(s: string, i: nat, c: char) {
    i < |s| && s[i] == c
  }

  function ParseAmount(s: string, i: nat, otherwise: Amount): (r: (Amount, nat))
    requires i <= |s|
    ensures i <= r.1 <= |s|
  {
    if i < |s| && IsDecimal(s[i]) then (Given(Value(s[i..DigitsEnd(s, i)], 10)), DigitsEnd(s, i))
    else if At(s, i, '*') then (FromArgument, i + 1)
    else (otherwise, i)
  }

  /** A point without digits is precision 0. */
  function ParsePrecision(s: string, i: nat): (r: (Amount, nat))
    requires i <= |s|
    ensures i <= r.1 <= |s|
  {
    if At(s, i, '.') then ParseAmount(s, i + 1, Given(0)) else (Absent, i)
  }

  function ParseLength(s: string, i: nat): (r: (Length, nat))
    requires i <= |s|
    ensures i <= r.1 <= |s|
  {
    if At(s, i, 'l') then (if At(s, i + 1, 'l') then (LL, i + 2) else (L, i + 1))
    else if At(s, i, 'h') then (if At(s, i + 1, 'h') then (HH, i + 2) else (H, i + 1))
    else if At(s, i, 't') then (T, i + 1)
    else if At(s, i, 'j') then (J, i + 1)
    else if At(s, i, 'z') then (Z, i + 1)
    else (Default, i)
  }

  /** The directive that starts just after a percent sign, and the position behind its
      conversion character; None when the format ends first. */
  function ParseDirective(s: string, i: nat): (r: Option<(Directive, nat)>)
    requires i <= |s|
    ensures r.Some? ==> i < r.value.1 <= |s|
  {
    var j := FlagsEnd(s, i);
    var (width, k) := ParseAmount(s, j, Absent);
    var (precision, l) := ParsePrecision(s, k);
    var (length, m) := ParseLength(s, l);
    if m < |s| then Some((Directive(FlagsIn(s[i..j]), width, precision, length, s[m]), m + 1)) else None
  }

  function Parse(s: string, i: nat): Option<seq<Item>>
    requires i <= |s|
    decreases |s| - i
  {
    if i == |s| then Some([])
    else if s[i] != '%' then Prepend(Literal(s[i]), Parse(s, i + 1))
    else
      match ParseDirective(s, i + 1)
      case None => None
      case Some((d, next)) => Prepend(Conversion(d), Parse(s, next))
  }

  function Prepend(item: Item, rest: Option<seq<Item>>): Option<seq<Item>> {
    match rest
    case None => None
    case Some(items) => Some([item] + items)
  }

  // ----- Printing -----

  function Optional(present: bool, c: char): string {
    if present then [c] else ""
  }

  function ShowFlags(f: FlagSet): string {
    Optional(f.zero, '0') + Optional(f.left, '-') + Optional(f.plus, '+') +
    Optional(f.space, ' ') + Optional(f.hash, '#')
  }

  function ShowAmount(a: Amount): string {
    match a
    case Absent => ""
    case Given(n) => Digits(n, 10, false)
    case FromArgument => "*"
  }

  function ShowPrecision(a: Amount): string {
    if a.Absent? then "" else "." + ShowAmount(a)
  }

  function ShowLength(l: Length): string {
    match l
    case Default => ""
    case H => "h"
    case HH => "hh"
    case L => "l"
    case LL => "ll"
    case T => "t"
    case J => "j"
    case Z => "z"
  }

  function ShowDirective(d: Directive): string {
    ShowFlags(d.flags) + ShowAmount(d.width) + ShowPrecision(d.precision) + ShowLength(d.length) + [d.conversion]
  }

  function ShowItem(item: Item): string {
    match item
    case Literal(c) => [c]
    case Conversion(d) => "%" + ShowDirective(d)
  }

  function Show(items: seq<Item>): string {
    if items == [] then "" else ShowItem(items[0]) + Show(items[1..])
  }

  /** A character that can end a directive whatever comes before it. */
  predicate EndsDirective(c: char) {
    !IsFlag(c) && !IsDecimal(c) && c != '*' && c != '.' &&
    c != 'l' && c != 'h' && c != 't' && c != 'j' && c != 'z'
  }

  /** Directives the language can express: a width of 0 would read as a flag. */
  predicate Expressible(item: Item) {
    match item
    case Literal(c) => c != '%'
    case Conversion(d) =>
      && EndsDirective(d.conversion)
      && (d.width.Given? ==> d.width.n > 0)
  }

  // ----- The round trip -----

  lemma {:induction false} FlagsEndIs(s: string, i: nat, j: nat)
    requires i <= j <= |s|
    requires forall k :: i <= k < j ==> IsFlag(s[k])
    requires j < |s| ==> !IsFlag(s[j])
    ensures FlagsEnd(s, i) == j
    decreases j - i
  {
    if i < j {
      FlagsEndIs(s, i + 1, j);
    }
  }

  lemma {:induction false} DigitsEndIs(s: string, i: nat, j: nat)
    requires i <= j <= |s|
    requires forall k :: i <= k < j ==> IsDecimal(s[k])
    requires j < |s| ==> !IsDecimal(s[j])
    ensures DigitsEnd(s, i) == j
    decreases j - i
  {
    if i < j {
      DigitsEndIs(s, i + 1, j);
    }
  }

  lemma ShowFlagsFacts(f: FlagSet)
    ensures FlagsIn(ShowFlags(f)) == f
    ensures forall k :: 0 <= k < |ShowFlags(f)| ==> IsFlag(ShowFlags(f)[k])
  {
    hide Optional, IsFlag;
    MembersOfShown(f, '0');
    MembersOfShown(f, '-');
    MembersOfShown(f, '+');
    MembersOfShown(f, ' ');
    MembersOfShown(f, '#');
    forall k | 0 <= k < |ShowFlags(f)| ensures IsFlag(ShowFlags(f)[k]) {
      MembersOfShown(f, ShowFlags(f)[k]);
    }
  }

  lemma MembersOfShown(f: FlagSet, c: char)
    ensures c in ShowFlags(f) <==>
            || (f.zero && c == '0') || (f.left && c == '-') || (f.plus && c == '+')
            || (f.space && c == ' ') || (f.hash && c == '#')
    ensures c in ShowFlags(f) ==> IsFlag(c)
  {
    hide Optional;
    var a, b, d := Optional(f.zero, '0'), Optional(f.left, '-'), Optional(f.plus, '+');
    var e, g := Optional(f.space, ' '), Optional(f.hash, '#');
    InOptional(f.zero, '0', c);
    InOptional(f.left, '-', c);
    InOptional(f.plus, '+', c);
    InOptional(f.space, ' ', c);
    InOptional(f.hash, '#', c);
    assert ShowFlags(f) == a + b + d + e + g;
  }

  lemma InOptional(present: bool, x: char, c: char)
    ensures c in Optional(present, x) <==> present && c == x
  {
  }

  /** Printed numbers are decimal digits, start with zero only for zero, and read back. */
  lemma ShowNumber(n: nat)
    ensures var t := Digits(n, 10, false);
            && Value(t, 10) == n
            && (n > 0 ==> t[0] != '0')
            && forall k :: 0 <= k < |t| ==> IsDecimal(t[k])
  {
    hide Digits, Value;
    DigitsDenote(n, 10, false);
    var t := Digits(n, 10, false);
    forall k | 0 <= k < |t| ensures IsDecimal(t[k]) {
      assert IsDigitIn(t[k], 10);
    }
  }

  /** `part` stands at position i of s. */
  predicate Stands(s: string, i: nat, part: string) {
    i + |part| <= |s| && s[i..i + |part|] == part
  }

  lemma StandsAt(s: string, i: nat, part: string, k: nat)
    requires Stands(s, i, part) && k < |part|
    ensures s[i + k] == part[k]
  {
    assert s[i..i + |part|][k] == part[k];
  }

  lemma ParseShownFlags(s: string, i: nat, f: FlagSet, after: char)
    requires Stands(s, i, ShowFlags(f)) && At(s, i + |ShowFlags(f)|, after) && !IsFlag(after)
    ensures FlagsEnd(s, i) == i + |ShowFlags(f)|
    ensures FlagsIn(s[i..FlagsEnd(s, i)]) == f
  {
    hide ShowFlags, FlagsIn, IsFlag;
    ShowFlagsFacts(f);
    var j := i + |ShowFlags(f)|;
    forall k | i <= k < j ensures IsFlag(s[k]) {
      StandsAt(s, i, ShowFlags(f), k - i);
    }
    FlagsEndIs(s, i, j);
  }

  lemma ParseShownAmount(s: string, i: nat, a: Amount, after: char, otherwise: Amount)
    requires Stands(s, i, ShowAmount(a)) && At(s, i + |ShowAmount(a)|, after)
    requires !IsDecimal(after) && after != '*'
    ensures ParseAmount(s, i, otherwise) == (if a.Absent? then otherwise else a, i + |ShowAmount(a)|)
  {
    hide Digits, Value;
    match a
    case Absent =>
    case Given(n) =>
      var t := Digits(n, 10, false);
      ShowNumber(n);
      forall k | i <= k < i + |t| ensures IsDecimal(s[k]) {
        StandsAt(s, i, t, k - i);
      }
      DigitsEndIs(s, i, i + |t|);
    case FromArgument =>
      StandsAt(s, i, "*", 0);
  }

  lemma ParseShownPrecision(s: string, i: nat, a: Amount, after: char)
    requires Stands(s, i, ShowPrecision(a)) && At(s, i + |ShowPrecision(a)|, after)
    requires !IsDecimal(after) && after != '*' && after != '.'
    ensures ParsePrecision(s, i) == (a, i + |ShowPrecision(a)|)
  {
    hide ShowAmount, ParseAmount, Stands;
    if !a.Absent? {
      StandsSplit(s, i, ".", ShowAmount(a));
      StandsAt(s, i, ".", 0);
      ParseShownAmount(s, i + 1, a, after, Given(0));
    }
  }

  lemma ParseShownLength(s: string, i: nat, l: Length, after: char)
    requires Stands(s, i, ShowLength(l)) && At(s, i + |ShowLength(l)|, after) && EndsDirective(after)
    ensures ParseLength(s, i) == (l, i + |ShowLength(l)|)
  {
    if l != Default {
      StandsAt(s, i, ShowLength(l), 0);
      if |ShowLength(l)| == 2 {
        StandsAt(s, i, ShowLength(l), 1);
      }
    }
  }

  /** The first characters that each part of a printed directive can start with. */
  lemma FirstAfterFlags(s: string, j: nat, d: Directive)
    requires Expressible(Conversion(d))
    requires Stands(s, j, ShowAmount(d.width))
    requires Stands(s, j + |ShowAmount(d.width)|, ShowPrecision(d.precision))
    requires Stands(s, j + |ShowAmount(d.width)| + |ShowPrecision(d.precision)|, ShowLength(d.length))
    requires At(s, j + |ShowAmount(d.width)| + |ShowPrecision(d.precision)| + |ShowLength(d.length)|, d.conversion)
    ensures j < |s| && !IsFlag(s[j])
  {
    hide Digits;
    if d.width.Given? {
      ShowNumber(d.width.n);
      StandsAt(s, j, ShowAmount(d.width), 0);
    } else if d.width.FromArgument? {
      StandsAt(s, j, ShowAmount(d.width), 0);
    } else {
      FirstAfterWidth(s, j, d);
    }
  }

  lemma FirstAfterWidth(s: string, k: nat, d: Directive)
    requires EndsDirective(d.conversion)
    requires Stands(s, k, ShowPrecision(d.precision))
    requires Stands(s, k + |ShowPrecision(d.precision)|, ShowLength(d.length))
    requires At(s, k + |ShowPrecision(d.precision)| + |ShowLength(d.length)|, d.conversion)
    ensures k < |s| && !IsDecimal(s[k]) && s[k] != '*' && !IsFlag(s[k])
  {
    hide ShowAmount;
    if !d.precision.Absent? {
      StandsAt(s, k, ShowPrecision(d.precision), 0);
    } else {
      FirstAfterPrecision(s, k, d);
    }
  }

  lemma FirstAfterPrecision(s: string, l: nat, d: Directive)
    requires EndsDirective(d.conversion)
    requires Stands(s, l, ShowLength(d.length)) && At(s, l + |ShowLength(d.length)|, d.conversion)
    ensures l < |s| && !IsDecimal(s[l]) && s[l] != '*' && s[l] != '.' && !IsFlag(s[l])
  {
    if d.length != Default {
      StandsAt(s, l, ShowLength(d.length), 0);
    }
  }

  /** Scanning a printed directive, wherever it stands, recovers it and stops just
      behind its conversion character. */
  lemma DirectiveRoundTrip(s: string, i: nat, d: Directive)
    requires Expressible(Conversion(d)) && Stands(s, i, ShowDirective(d))
    ensures ParseDirective(s, i) == Some((d, i + |ShowDirective(d)|))
  {
    hide ShowFlags, ShowAmount, ShowPrecision, ShowLength, ParseAmount, ParsePrecision, ParseLength, FlagsIn,
         EndsDirective, Stands, FlagsEnd, IsFlag, IsDecimal;
    var f, w, p, l := ShowFlags(d.flags), ShowAmount(d.width), ShowPrecision(d.precision), ShowLength(d.length);
    var j := i + |f|;
    var k := j + |w|;
    var m := k + |p|;
    var n := m + |l|;
    SplitDirective(s, i, f, w, p, l, d.conversion);
    FirstAfterFlags(s, j, d);
    FirstAfterWidth(s, k, d);
    FirstAfterPrecision(s, m, d);
    ParseShownFlags(s, i, d.flags, s[j]);
    ParseShownAmount(s, j, d.width, s[k], Absent);
    ParseShownPrecision(s, k, d.precision, s[m]);
    ParseShownLength(s, m, d.length, d.conversion);
  }

  lemma StandsSplit(s: string, i: nat, a: string, b: string)
    requires Stands(s, i, a + b)
    ensures Stands(s, i, a) && Stands(s, i + |a|, b)
  {
    var t := s[i..i + |a + b|];
    assert t[..|a|] == a && t[|a|..] == b;
    assert s[i..i + |a|] == t[..|a|];
    assert s[i + |a|..i + |a| + |b|] == t[|a|..];
  }

  lemma SplitDirective(s: string, i: nat, f: string, w: string, p: string, l: string, c: char)
    requires Stands(s, i, f + w + p + l + [c])
    ensures Stands(s, i, f) && Stands(s, i + |f|, w) && Stands(s, i + |f| + |w|, p)
    ensures Stands(s, i + |f| + |w| + |p|, l) && At(s, i + |f| + |w| + |p| + |l|, c)
  {
    hide Stands;
    StandsSplit(s, i, f + w + p + l, [c]);
    StandsSplit(s, i, f + w + p, l);
    StandsSplit(s, i, f + w, p);
    StandsSplit(s, i, f, w);
    StandsEnd(s, i + |f| + |w| + |p| + |l|, c);
  }

  lemma StandsEnd(s: string, i: nat, c: char)
    requires Stands(s, i, [c])
    ensures At(s, i, c)
  {
    StandsAt(s, i, [c], 0);
  }

  /** Parsing peels one printed item off. */
  lemma ParseStep(s: string, i: nat, item: Item)
    requires Expressible(item) && Stands(s, i, ShowItem(item))
    ensures Parse(s, i) == Prepend(item, Parse(s, i + |ShowItem(item)|))
  {
    hide ParseDirective, ShowDirective, EndsDirective, Prepend;
    StandsAt(s, i, ShowItem(item), 0);
    if item.Conversion? {
      var t := ShowDirective(item.d);
      assert s[i + 1..i + 1 + |t|] == s[i..i + 1 + |t|][1..] == t;
      DirectiveRoundTrip(s, i + 1, item.d);
    }
  }

  /** Parsing a printed format recovers its items, behind any prefix. */
  lemma {:induction false} FormatRoundTrip(prefix: string, items: seq<Item>)
    requires forall k :: 0 <= k < |items| ==> Expressible(items[k])
    ensures Parse(prefix + Show(items), |prefix|) == Some(items)
    decreases |items|
  {
    hide Expressible, ShowItem, Parse;
    var s := prefix + Show(items);
    if items == [] {
      ParseEnd(s);
    } else {
      var head := ShowItem(items[0]);
      assert s == (prefix + head) + Show(items[1..]);
      FormatRoundTrip(prefix + head, items[1..]);
      assert s[|prefix|..|prefix| + |head|] == head;
      assert Expressible(items[0]);
      ParseStep(s, |prefix|, items[0]);
      assert [items[0]] + items[1..] == items;
    }
  }

  lemma ParseEnd(s: string)
    ensures Parse(s, |s|) == Some([])
  {
  }
}
