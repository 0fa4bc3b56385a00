/** Physical memory as a flat array of bytes, with little-endian words. */
module Memory {

  type byte = x: int | 0 <= x < 0x100

  const GIB := 0x4000_0000
  const PAGE := 0x1000

  /** The word of `size` bytes at address a. */
  function Load(m: seq<byte>, a: nat, size: nat): (v: nat)
    requires a + size <= |m|
    decreases size, a
  {
    if size == 0 then 0 else m[a] + 0x100 * Load(m, a + 1, size - 1)
  }

  function Load64(m: seq<byte>, a: nat): nat
    requires a + 8 <= |m|
  {
    Load(m, a, 8)
  }

  predicate Apart(a: nat, sizeA: nat, b: nat, sizeB: nat) {
    a + sizeA <= b || b + sizeB <= a
  }

  /** Outside [lo, hi) the two memories agree. */
  ghost predicate SameOutside(m: seq<byte>, m': seq<byte>, lo: nat, hi: nat) {
    && |m| == |m'|
    && forall k :: 0 <= k < |m| && !(lo <= k < hi) ==> m[k] == m'[k]
  }

  lemma {:induction false} LoadSame(m: seq<byte>, m': seq<byte>, a: nat, size: nat)
    requires a + size <= |m| && a + size <= |m'|
    requires forall k :: a <= k < a + size ==> m[k] == m'[k]
    ensures Load(m, a, size) == Load(m', a, size)
    decreases size
  {
    if size > 0 {
      LoadSame(m, m', a + 1, size - 1);
    }
  }

  lemma {:induction false} LoadZero(m: seq<byte>, a: nat, size: nat)
    requires a + size <= |m|
    requires forall k :: a <= k < a + size ==> m[k] == 0
    ensures Load(m, a, size) == 0
    decreases size
  {
    if size > 0 {
      LoadZero(m, a + 1, size - 1);
    }
  }

  function Power256(n: nat): nat {
    if n == 0 then 1 else 0x100 * Power256(n - 1)
  }

  /** Store the low `size` bytes of v at address a. */
  method Store(mem: array<byte>, a: nat, size: nat, v: nat)
    requires a + size <= mem.Length && v < Power256(size)
    modifies mem
    ensures Load(mem[..], a, size) == v
    ensures SameOutside(old(mem[..]), mem[..], a, a + size)
    decreases size
  {
    if size > 0 {
      mem[a] := v % 0x100;
      Store(mem, a + 1, size - 1, v / 0x100);
    }
  }

  method Store64(mem: array<byte>, a: nat, v: nat)
    requires a + 8 <= mem.Length && v < 0x1_0000_0000_0000_0000
    modifies mem
    ensures Load64(mem[..], a) == v
    ensures SameOutside(old(mem[..]), mem[..], a, a + 8)
  {
    assert Power256(8) == 0x100 * Power256(7) == 0x1_0000 * Power256(6) ==
           0x100_0000 * Power256(5) == 0x1_0000_0000 * Power256(4);
    Store(mem, a, 8, v);
  }
}
