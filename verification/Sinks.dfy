/** The four interchangeable output functions of libc/src/printf.c, and what a sequence
    of calls to them leaves behind. */
module Sinks {
  import opened Text

  datatype OutFct = ToBuffer | ToNull | ToPutchar | ToFunction

  /** One call out(c, buffer, idx, maxlen); buffer and maxlen never change. */
  datatype Call = Call(c: char, idx: nat)

  /** The buffer after the calls: a character lands where its index is below maxlen. */
  function Stored(initial: string, calls: seq<Call>, maxlen: nat): (b: string)
    ensures |b| == |initial|
  {
    if calls == [] then initial
    else
      var b := Stored(initial, calls[..|calls| - 1], maxlen);
      var last := calls[|calls| - 1];
      if last.idx < maxlen && last.idx < |b| then b[last.idx := last.c] else b
  }

  /** The characters handed on by _out_char and _out_fct: all but zeros. */
  function Sent(calls: seq<Call>): string {
    if calls == [] then ""
    else Sent(calls[..|calls| - 1]) + NonZero([calls[|calls| - 1].c])
  }

  function NonZero(s: string): string {
    if s == "" then "" else (if s[0] == '\0' then "" else [s[0]]) + NonZero(s[1..])
  }

  /** The calls that emit a text at consecutive indices. */
  function CallsAt(idx: nat, text: string): (calls: seq<Call>)
    ensures |calls| == |text|
    ensures forall k :: 0 <= k < |text| ==> calls[k] == Call(text[k], idx + k)
  {
    seq(|text|, k requires 0 <= k < |text| => Call(text[k], idx + k))
  }

  lemma CallsSnoc(idx: nat, text: string, c: char)
    ensures CallsAt(idx, text + [c]) == CallsAt(idx, text) + [Call(c, idx + |text|)]
  {
  }

  lemma CallsJoin(idx: nat, a: string, b: string)
    ensures CallsAt(idx, a + b) == CallsAt(idx, a) + CallsAt(idx + |a|, b)
  {
  }

  lemma CallsEmpty(idx: nat)
    ensures CallsAt(idx, "") == []
  {
  }

  class Sink {
    var out: OutFct
    const buffer: array?<char>
    const maxlen: nat
    var stream: string
    ghost const initial: string
    ghost var calls: seq<Call>

    constructor (out: OutFct, buffer: array?<char>, maxlen: nat)
      requires out == ToBuffer || buffer != null
      ensures this.out == out && this.buffer == buffer && this.maxlen == maxlen
      ensures calls == [] && stream == "" && initial == (if buffer == null then "" else buffer[..])
      ensures buffer != null ==> Valid()
    {
      this.out, this.buffer, this.maxlen := out, buffer, maxlen;
      stream, calls := "", [];
      initial := if buffer == null then "" else buffer[..];
    }

    /** The buffer and the stream are what the calls so far make of them. */
    ghost predicate Valid()
      reads this, buffer
    {
      && (out == ToBuffer ==> buffer != null)
      && (buffer != null ==> |initial| == buffer.Length)
      && (buffer != null ==> buffer[..] == Stored(initial, calls, if out == ToBuffer then maxlen else 0))
      && stream == if out == ToPutchar || out == ToFunction then Sent(calls) else ""
    }

    /** The caller's buffer has room for every index below `end` that maxlen admits. */
    predicate Room(end: nat)
      requires out == ToBuffer ==> buffer != null
      reads this
    {
      out == ToBuffer ==> maxlen <= buffer.Length || end <= buffer.Length
    }

    /** The call through the function pointer: _out_buffer, _out_null, _out_char or _out_fct. */
    method Out(c: char, idx: nat)
      requires Valid() && Room(idx + 1)
      modifies this`stream, this`calls, buffer
      ensures Valid() && calls == old(calls) + [Call(c, idx)]
    {
      match out {
        case ToBuffer =>
          if idx < maxlen {
            buffer[idx] := c;
          }
        case ToNull =>
        case ToPutchar =>
          if c != '\0' {
            stream := stream + [c];
          }
        case ToFunction =>
          if c != '\0' {
            stream := stream + [c];
          }
      }
      calls := calls + [Call(c, idx)];
      assert calls[..|calls| - 1] == old(calls);
      OneNonZero(c);
      StoredNowhere(initial, calls);
      StoredNowhere(initial, old(calls));
      assert old(stream) + "" == old(stream);
    }
  }

  lemma OneNonZero(c: char)
    ensures NonZero([c]) == if c == '\0' then "" else [c]
  {
    assert [c][1..] == "";
  }

  lemma {:induction false} StoredNowhere(initial: string, calls: seq<Call>)
    ensures Stored(initial, calls, 0) == initial
  {
    if calls != [] {
      StoredNowhere(initial, calls[..|calls| - 1]);
    }
  }

  // ----- A whole run: the text from index 0, then the terminator -----

  const SIZE_MAX: nat := 0xffff_ffff_ffff_ffff

  /** The termination call clamps its index into the buffer; with maxlen 0 the
      subtraction wraps. */
  function TerminatorIndex(length: nat, maxlen: nat): nat {
    if length < maxlen then length else if maxlen == 0 then SIZE_MAX else maxlen - 1
  }

  function Run(text: string, maxlen: nat): seq<Call> {
    CallsAt(0, text) + [Call('\0', TerminatorIndex(|text|, maxlen))]
  }

  /** The first count-1 characters of the text, a terminator, and the rest as it was. */
  function Truncated(initial: string, text: string, count: nat): string
    requires count > 0 ==> Min(|text|, count - 1) < |initial|
  {
    if count == 0 then initial
    else
      var n := Min(|text|, count - 1);
      text[..n] + "\0" + initial[n + 1..]
  }

  lemma StoredSnoc(initial: string, calls: seq<Call>, last: Call, maxlen: nat)
    ensures Stored(initial, calls + [last], maxlen) ==
            var b := Stored(initial, calls, maxlen);
            if last.idx < maxlen && last.idx < |b| then b[last.idx := last.c] else b
  {
    assert (calls + [last])[..|calls|] == calls;
  }

  lemma {:induction false} StoredText(initial: string, text: string, maxlen: nat)
    requires Min(|text|, maxlen) <= |initial|
    ensures Stored(initial, CallsAt(0, text), maxlen) ==
            text[..Min(|text|, maxlen)] + initial[Min(|text|, maxlen)..]
    decreases |text|
  {
    hide Stored, CallsAt;
    if text == "" {
      CallsEmpty(0);
      NothingStored(initial, maxlen);
    } else {
      var front, c := text[..|text| - 1], text[|text| - 1];
      assert front + [c] == text;
      CallsSnoc(0, front, c);
      StoredSnoc(initial, CallsAt(0, front), Call(c, |front|), maxlen);
      StoredText(initial, front, maxlen);
      if |front| < maxlen {
        NextStored(initial, front, c);
      } else {
        assert text[..maxlen] == front[..maxlen];
      }
    }
  }

  lemma NothingStored(initial: string, maxlen: nat)
    ensures Stored(initial, [], maxlen) == initial == "" + initial
  {
  }

  lemma NextStored(initial: string, front: string, c: char)
    requires |front| < |initial|
    ensures (front + initial[|front|..])[|front| := c] == (front + [c]) + initial[|front| + 1..]
  {
  }

  /** Truncation: what a run leaves in the buffer. */
  lemma RunTruncates(initial: string, text: string, maxlen: nat)
    requires maxlen <= SIZE_MAX
    requires maxlen > 0 ==> Min(|text|, maxlen - 1) < |initial|
    ensures Stored(initial, Run(text, maxlen), maxlen) == Truncated(initial, text, maxlen)
  {
    hide CallsAt;
    var calls := Run(text, maxlen);
    assert calls[..|calls| - 1] == CallsAt(0, text);
    var n := Min(|text|, maxlen);
    var b := Stored(initial, CallsAt(0, text), maxlen);
    StoredText(initial, text, maxlen);
    PlaceTerminator(initial, text, maxlen);
  }

  lemma PlaceTerminator(initial: string, text: string, maxlen: nat)
    requires maxlen > 0 ==> Min(|text|, maxlen - 1) < |initial|
    requires Min(|text|, maxlen) <= |initial|
    ensures var b := text[..Min(|text|, maxlen)] + initial[Min(|text|, maxlen)..];
            if maxlen == 0 then b == initial
            else b[TerminatorIndex(|text|, maxlen) := '\0'] == Truncated(initial, text, maxlen)
  {
    if maxlen > 0 {
      var b := text[..Min(|text|, maxlen)] + initial[Min(|text|, maxlen)..];
      var n := Min(|text|, maxlen - 1);
      assert b[..n] == text[..n];
      assert b[n + 1..] == initial[n + 1..];
    }
  }

  lemma {:induction false} SentText(idx: nat, text: string)
    ensures Sent(CallsAt(idx, text)) == NonZero(text)
    decreases |text|
  {
    if text != "" {
      var front, c := text[..|text| - 1], text[|text| - 1];
      assert front + [c] == text;
      CallsSnoc(idx, front, c);
      var calls := CallsAt(idx, text);
      assert calls[..|calls| - 1] == CallsAt(idx, front);
      SentText(idx, front);
      NonZeroJoin(front, [c]);
    }
  }

  lemma {:induction false} NonZeroJoin(a: string, b: string)
    ensures NonZero(a + b) == NonZero(a) + NonZero(b)
  {
    if a == "" {
      assert a + b == b;
    } else {
      assert (a + b)[1..] == a[1..] + b;
      NonZeroJoin(a[1..], b);
    }
  }

  /** The streaming outputs receive the text without its zeros, and no terminator. */
  lemma RunStreams(text: string, maxlen: nat)
    ensures Sent(Run(text, maxlen)) == NonZero(text)
  {
    var calls := Run(text, maxlen);
    assert calls[..|calls| - 1] == CallsAt(0, text);
    SentText(0, text);
    OneNonZero('\0');
    assert NonZero(text) + "" == NonZero(text);
  }

  lemma TruncatedParts(initial: string, text: string, count: nat)
    requires 0 < count && Min(|text|, count - 1) < |initial|
    ensures var n := Min(|text|, count - 1);
            var t := Truncated(initial, text, count);
            && |t| == |initial| && t[..n] == text[..n] && t[n] == '\0'
            && forall k :: n < k < |initial| ==> t[k] == initial[k]
  {
    var n := Min(|text|, count - 1);
    assert (text[..n] + "\0" + initial[n + 1..])[..n] == text[..n];
  }

  /** Two runs of the same text: whatever the counts, each buffer starts with the same
      characters as far as both reach, the longer one ends later, nothing behind the
      terminator changes, and a text that fits makes the counts irrelevant. */
  lemma TruncationsAgree(initial: string, text: string, count: nat, count': nat)
    requires 0 < count <= count' && Min(|text|, count' - 1) < |initial|
    ensures var n, n' := Min(|text|, count - 1), Min(|text|, count' - 1);
            var t, t' := Truncated(initial, text, count), Truncated(initial, text, count');
            && n <= n' < |t| == |t'|
            && t[..n] == t'[..n] == text[..n] && t'[..n'] == text[..n']
            && t[n] == '\0' == t'[n']
            && (|text| < count ==> t == t')
            && forall k :: n' < k < |initial| ==> t[k] == t'[k] == initial[k]
  {
    hide Truncated;
    TruncatedParts(initial, text, count);
    TruncatedParts(initial, text, count');
    var n, n' := Min(|text|, count - 1), Min(|text|, count' - 1);
    assert Truncated(initial, text, count')[..n] == Truncated(initial, text, count')[..n'][..n];
    if |text| < count {
      SameTruncation(initial, text, count, count');
    }
  }

  lemma SameTruncation(initial: string, text: string, count: nat, count': nat)
    requires |text| < count <= count' && |text| < |initial|
    ensures Truncated(initial, text, count) == Truncated(initial, text, count')
  {
  }
}
