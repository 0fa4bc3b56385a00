/** The entry points of libc/src/printf.c: one engine behind four output functions. */
module PrintfApi {
  import opened Arguments
  import opened Denotation
  import opened Sinks
  import opened Printf

  /** snprintf_ and vsnprintf_: the text is cut to the count, terminated, and its full
      length returned; a null buffer only counts. */
  method Snprintf(buffer: array?<char>, count: nat, format: CString, args: seq<Arg>) returns (ret: int)
    requires count <= SIZE_MAX && Matches(format, args)
    requires buffer != null ==> count <= buffer.Length || |Denote(format, args)| + 1 <= buffer.Length
    modifies buffer
    ensures buffer != null ==> buffer[..] == Truncated(old(buffer[..]), Denote(format, args), count)
    ensures ret == ToInt(|Denote(format, args)|)
    ensures -0x8000_0000 <= ret < 0x8000_0000 && (ret - |Denote(format, args)|) % 0x1_0000_0000 == 0
    ensures |Denote(format, args)| < 0x8000_0000 ==> ret == |Denote(format, args)|
  {
    hide Denote, Stored, Run, Truncated, Matches, ToInt;
    var s := new Sink(ToBuffer, buffer, count);
    ret := Vsnprintf(s, format, args);
    if buffer != null {
      RunTruncates(s.initial, Denote(format, args), count);
    }
  }

  /** sprintf_: no bound, so the caller provides room for the text and its terminator. */
  method Sprintf(buffer: array<char>, format: CString, args: seq<Arg>) returns (ret: int)
    requires Matches(format, args) && |Denote(format, args)| + 1 <= buffer.Length
    requires |Denote(format, args)| < SIZE_MAX
    modifies buffer
    ensures var text := Denote(format, args);
            buffer[..] == text + "\0" + old(buffer[..])[|text| + 1..]
    ensures ret == ToInt(|Denote(format, args)|)
    ensures -0x8000_0000 <= ret < 0x8000_0000 && (ret - |Denote(format, args)|) % 0x1_0000_0000 == 0
    ensures |Denote(format, args)| < 0x8000_0000 ==> ret == |Denote(format, args)|
  {
    hide Denote, Stored, Run, Matches, ToInt;
    var s := new Sink(ToBuffer, buffer, SIZE_MAX);
    ret := Vsnprintf(s, format, args);
    ghost var text := Denote(format, args);
    RunTruncates(s.initial, text, SIZE_MAX);
    assert text[..|text|] == text;
  }

  /** printf_ and vprintf_: what reaches _putchar. */
  method PrintfOut(format: CString, args: seq<Arg>) returns (stream: string, ret: int)
    requires Matches(format, args)
    ensures stream == NonZero(Denote(format, args))
    ensures ret == ToInt(|Denote(format, args)|)
    ensures -0x8000_0000 <= ret < 0x8000_0000 && (ret - |Denote(format, args)|) % 0x1_0000_0000 == 0
    ensures |Denote(format, args)| < 0x8000_0000 ==> ret == |Denote(format, args)|
  {
    hide Denote, Stored, Run, Matches, Sent, NonZero, ToInt;
    var buffer := new char[1];
    var s := new Sink(ToPutchar, buffer, SIZE_MAX);
    ret := Vsnprintf(s, format, args);
    RunStreams(Denote(format, args), SIZE_MAX);
    stream := s.stream;
  }

  /** fctprintf: what reaches the caller's function; the buffer argument is its wrapper. */
  method Fctprintf(format: CString, args: seq<Arg>) returns (stream: string, ret: int)
    requires Matches(format, args)
    ensures stream == NonZero(Denote(format, args))
    ensures ret == ToInt(|Denote(format, args)|)
    ensures -0x8000_0000 <= ret < 0x8000_0000 && (ret - |Denote(format, args)|) % 0x1_0000_0000 == 0
    ensures |Denote(format, args)| < 0x8000_0000 ==> ret == |Denote(format, args)|
  {
    hide Denote, Stored, Run, Matches, Sent, NonZero, ToInt;
    var wrapper := new char[1];
    var s := new Sink(ToFunction, wrapper, SIZE_MAX);
    ret := Vsnprintf(s, format, args);
    RunStreams(Denote(format, args), SIZE_MAX);
    stream := s.stream;
  }

  /** Without zero characters the streams carry the whole text. */
  lemma {:induction false} StreamIsText(text: string)
    ensures NonZero(text) == text <==> '\0' !in text
    ensures |NonZero(text)| <= |text| && '\0' !in NonZero(text)
    ensures forall c :: c != '\0' ==> multiset(NonZero(text))[c] == multiset(text)[c]
  {
    if text != "" {
      StreamIsText(text[1..]);
      assert text == [text[0]] + text[1..];
      if text[0] == '\0' {
        assert NonZero(text) == NonZero(text[1..]);
      } else {
        assert NonZero(text) == [text[0]] + NonZero(text[1..]);
        assert ([text[0]] + NonZero(text[1..]))[1..] == NonZero(text[1..]);
      }
    }
  }
}
