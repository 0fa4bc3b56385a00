/** The overlap-safe copies of libc/src/memmove.c and loader/src/loader.c, and the
    forward-only memcpy that the loader's version falls back on. */
module Copies {
  import opened Memory

  /** Both ranges are inside memory. */
  predicate InRange(size: nat, dst: nat, src: nat, n: nat) {
    dst + n <= size && src + n <= size
  }

  /** Memory after all n bytes moved at once: the destination holds the old source. */
  function Move(m: seq<byte>, dst: nat, src: nat, n: nat): seq<byte>
    requires InRange(|m|, dst, src, n)
  {
    m[..dst] + m[src..src + n] + m[dst + n..]
  }

  /** Memory after bytes 0 .. n-1 moved one at a time in ascending order. */
  function Forward(m: seq<byte>, dst: nat, src: nat, n: nat): (m': seq<byte>)
    requires InRange(|m|, dst, src, n)
    ensures |m'| == |m|
    decreases n
  {
    if n == 0 then m
    else
      var before := Forward(m, dst, src, n - 1);
      before[dst + n - 1 := before[src + n - 1]]
  }

  /** The memcpy of loader/src/loader.c. */
  method Memcpy(mem: array<byte>, dst: nat, src: nat, sz: nat)
    requires InRange(mem.Length, dst, src, sz)
    modifies mem
    ensures mem[..] == Forward(old(mem[..]), dst, src, sz)
  {
    var left, d, s := sz, dst, src;
    while left > 0
      invariant 0 <= left <= sz && d == dst + (sz - left) && s == src + (sz - left)
      invariant mem[..] == Forward(old(mem[..]), dst, src, sz - left)
    {
      left := left - 1;
      mem[d] := mem[s];
      d, s := d + 1, s + 1;
    }
  }

  lemma {:induction false} ForwardMoves(m: seq<byte>, dst: nat, src: nat, n: nat)
    requires InRange(|m|, dst, src, n)
    requires dst <= src || src + n <= dst
    ensures Forward(m, dst, src, n) == Move(m, dst, src, n)
  {
    if n > 0 {
      ForwardMoves(m, dst, src, n - 1);
      OneMoreMoved(m, dst, src, n);
    }
  }

  lemma OneMoreMoved(m: seq<byte>, dst: nat, src: nat, n: nat)
    requires InRange(|m|, dst, src, n) && n > 0
    requires dst <= src || src + n <= dst
    ensures var before := Move(m, dst, src, n - 1);
            before[dst + n - 1 := before[src + n - 1]] == Move(m, dst, src, n)
  {
    var before, after := Move(m, dst, src, n - 1), Move(m, dst, src, n);
    assert before[src + n - 1] == m[src + n - 1];
    assert forall a :: 0 <= a < |m| ==> before[dst + n - 1 := before[src + n - 1]][a] == after[a];
  }

  /** An ascending copy moves every memory correctly exactly when the destination does
      not start inside the source, after its first byte. */
  lemma ForwardMovesIff(size: nat, dst: nat, src: nat, n: nat)
    requires InRange(size, dst, src, n)
    ensures (forall m: seq<byte> :: |m| == size ==> Forward(m, dst, src, n) == Move(m, dst, src, n))
            <==> !(src < dst < src + n)
  {
    hide Forward, Move;
    if src < dst < src + n {
      var m := OneMarkedByte(size, src);
      assert m[dst] == 0 && m[src] == 1;
      ForwardSmears(m, dst, src, n);
      MoveAt(m, dst, src, n, 2 * dst - src);
      assert Forward(m, dst, src, n) != Move(m, dst, src, n);
    } else {
      forall m: seq<byte> | |m| == size ensures Forward(m, dst, src, n) == Move(m, dst, src, n) {
        ForwardMoves(m, dst, src, n);
      }
    }
  }

  function OneMarkedByte(size: nat, at: nat): (m: seq<byte>)
    ensures |m| == size && forall k :: 0 <= k < size ==> m[k] == if k == at then 1 else 0
  {
    seq(size, k => if k == at then 1 as byte else 0)
  }

  lemma MoveAt(m: seq<byte>, dst: nat, src: nat, n: nat, a: nat)
    requires InRange(|m|, dst, src, n) && dst <= a < dst + n
    ensures Move(m, dst, src, n)[a] == m[src + (a - dst)]
  {
  }

  /** Inside the overlap the first source byte comes round again. */
  lemma ForwardSmears(m: seq<byte>, dst: nat, src: nat, n: nat)
    requires InRange(|m|, dst, src, n) && src < dst < src + n
    ensures Forward(m, dst, src, n)[2 * dst - src] == m[src]
  {
    hide Forward;
    RepeatedByte(m, dst, src, dst - src);
    ForwardKeeps(m, dst, src, dst - src + 1, n);
  }

  lemma RepeatedByte(m: seq<byte>, dst: nat, src: nat, d: nat)
    requires InRange(|m|, dst, src, d + 1) && dst == src + d && d > 0
    ensures Forward(m, dst, src, d + 1)[dst + d] == m[src]
  {
    var moved := Forward(m, dst, src, d);
    assert Forward(m, dst, src, d + 1) == moved[dst + d := moved[src + d]];
    FirstMoved(m, dst, src, d);
  }

  lemma FirstMoved(m: seq<byte>, dst: nat, src: nat, d: nat)
    requires InRange(|m|, dst, src, d) && dst == src + d && d > 0
    ensures Forward(m, dst, src, d)[dst] == m[src]
  {
    ForwardMoves(m, dst, src, d);
  }

  lemma {:induction false} ForwardKeeps(m: seq<byte>, dst: nat, src: nat, k: nat, n: nat)
    requires InRange(|m|, dst, src, n) && k <= n
    ensures forall a :: 0 <= a < dst + k ==> Forward(m, dst, src, n)[a] == Forward(m, dst, src, k)[a]
    decreases n
  {
    if k < n {
      ForwardKeeps(m, dst, src, k, n - 1);
    }
  }

  /** Bytes n-1 down to `left` have moved, the rest have not. */
  ghost predicate MovedFrom(m: seq<byte>, m': seq<byte>, dst: nat, src: nat, left: nat, n: nat)
    requires InRange(|m|, dst, src, n) && left <= n
  {
    && SameOutside(m, m', dst + left, dst + n)
    && forall a :: dst + left <= a < dst + n ==> m'[a] == m[src + (a - dst)]
  }

  lemma MovedAll(m: seq<byte>, m': seq<byte>, dst: nat, src: nat, n: nat)
    requires InRange(|m|, dst, src, n) && MovedFrom(m, m', dst, src, 0, n)
    ensures m' == Move(m, dst, src, n)
  {
    assert forall a :: 0 <= a < |m| ==> m'[a] == Move(m, dst, src, n)[a];
  }

  /** libc/src/memmove.c: ascending when the destination is lower, descending otherwise. */
  method LibcMemmove(mem: array<byte>, dst: nat, src: nat, size: nat)
    requires InRange(mem.Length, dst, src, size)
    modifies mem
    ensures mem[..] == Move(old(mem[..]), dst, src, size)
  {
    if dst < src {
      for i := 0 to size
        invariant mem[..] == Forward(old(mem[..]), dst, src, i)
      {
        mem[dst + i] := mem[src + i];
      }
      ForwardMoves(old(mem[..]), dst, src, size);
    } else {
      var i := size;
      while i != 0
        invariant 0 <= i <= size
        invariant MovedFrom(old(mem[..]), mem[..], dst, src, i, size)
      {
        mem[dst + i - 1] := mem[src + i - 1];
        i := i - 1;
      }
      MovedAll(old(mem[..]), mem[..], dst, src, size);
    }
  }

  /** The loader's memmove: nothing for equal pointers, memcpy for separate ranges and
      for a lower destination, and a descending loop otherwise. */
  method LoaderMemmove(mem: array<byte>, dest: nat, src: nat, n: nat)
    requires InRange(mem.Length, dest, src, n)
    modifies mem
    ensures mem[..] == Move(old(mem[..]), dest, src, n)
  {
    if dest == src {
      assert MovedFrom(old(mem[..]), mem[..], dest, src, 0, n);
      MovedAll(old(mem[..]), mem[..], dest, src, n);
    } else if src + n <= dest || dest + n <= src {
      Memcpy(mem, dest, src, n);
      ForwardMoves(old(mem[..]), dest, src, n);
    } else if src > dest {
      Memcpy(mem, dest, src, n);
      ForwardMoves(old(mem[..]), dest, src, n);
    } else {
      var i := 1;
      while i <= n
        invariant 1 <= i <= n + 1
        invariant MovedFrom(old(mem[..]), mem[..], dest, src, n - (i - 1), n)
      {
        mem[dest + n - i] := mem[src + n - i];
        i := i + 1;
      }
      MovedAll(old(mem[..]), mem[..], dest, src, n);
    }
  }
}
