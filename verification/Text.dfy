/** Strings: runs of one character, reversal, and reading a field without its blanks. */
module Text {

  datatype Option<+T> = None | Some(value: T)

  function Max(a: int, b: int): int {
    if a > b then a else b
  }

  function Min(a: int, b: int): int {
    if a < b then a else b
  }

  function Abs(v: int): nat {
    if v < 0 then -v else v
  }

  /** Text in front of the rest, if there is one. */
  function Append(text: string, rest: Option<string>): Option<string> {
    match rest
    case None => None
    case Some(t) => Some(text + t)
  }

  /** n copies of c; none when n is negative. */
  function Repeat(c: char, n: int): (s: string)
    ensures |s| == Max(n, 0)
    ensures forall i :: 0 <= i < |s| ==> s[i] == c
  {
    if n <= 0 then "" else [c] + Repeat(c, n - 1)
  }

  lemma {:induction false} RepeatJoin(c: char, a: int, b: int)
    requires a >= 0 && b >= 0
    ensures Repeat(c, a) + Repeat(c, b) == Repeat(c, a + b)
  {
    assert forall i :: 0 <= i < a + b ==> (Repeat(c, a) + Repeat(c, b))[i] == Repeat(c, a + b)[i];
  }

  lemma NoneRepeated(c: char, n: int)
    requires n <= 0
    ensures Repeat(c, n) == ""
  {
  }

  lemma OneRepeated(c: char)
    ensures Repeat(c, 1) == [c]
  {
  }

  lemma NoneInFront(c: char, n: int, t: string)
    requires n <= 0
    ensures Repeat(c, n) + t == t
  {
  }

  lemma SameRepeat(c: char, a: int, b: int)
    requires Max(a, 0) == Max(b, 0)
    ensures Repeat(c, a) == Repeat(c, b)
  {
    assert |Repeat(c, a)| == |Repeat(c, b)|;
    assert forall i :: 0 <= i < |Repeat(c, a)| ==> Repeat(c, a)[i] == Repeat(c, b)[i];
  }

  lemma EmptyPrefix(t: string)
    ensures "" + t == t
  {
  }

  lemma EmptySuffix(t: string)
    ensures t + "" == t
  {
  }

  function Reverse(s: string): (r: string)
    ensures |r| == |s|
  {
    if s == "" then "" else [s[|s| - 1]] + Reverse(s[..|s| - 1])
  }

  lemma ReverseSnoc(s: string, c: char)
    ensures Reverse(s + [c]) == [c] + Reverse(s)
  {
    assert (s + [c])[..|s|] == s;
  }

  lemma {:induction false} ReverseAt(s: string, i: nat)
    requires i < |s|
    ensures Reverse(s)[i] == s[|s| - 1 - i]
  {
    if i > 0 {
      ReverseAt(s[..|s| - 1], i - 1);
    }
  }

  function NoSpaces(s: string): string {
    if s == "" then "" else (if s[0] == ' ' then "" else [s[0]]) + NoSpaces(s[1..])
  }

  lemma {:induction false} NoSpacesJoin(a: string, b: string)
    ensures NoSpaces(a + b) == NoSpaces(a) + NoSpaces(b)
  {
    if a == "" {
      assert a + b == b;
    } else {
      assert (a + b)[1..] == a[1..] + b;
      NoSpacesJoin(a[1..], b);
    }
  }

  lemma {:induction false} NoSpacesBlank(n: int)
    ensures NoSpaces(Repeat(' ', n)) == ""
  {
    if n > 0 {
      assert Repeat(' ', n)[1..] == Repeat(' ', n - 1);
      NoSpacesBlank(n - 1);
    }
  }

  lemma {:induction false} NoSpacesId(s: string)
    requires ' ' !in s
    ensures NoSpaces(s) == s
  {
    if s != "" {
      NoSpacesId(s[1..]);
    }
  }
}
