/** The set/way maintenance loop of kernel/src/mmu.S (macro `dcache`) and the
    reading that section C5.3 of the Arm Architecture Reference Manual (DDI 0487)
    gives to the operands it issues. */
module CacheWalk {
  import opened Bits

  // ----- The identification registers -----

  /** One cache: log2 of its line size in bytes, and its highest set and way numbers. */
  datatype Geometry = Geometry(lineBits: nat, lastSet: nat, lastWay: nat) {
    predicate Bounded() {
      4 <= lineBits <= 11 && lastSet < 0x8000 && lastWay < 0x400
    }

    function SetBits(): nat {
      BitLength(lastSet)
    }

    function WayBits(): nat {
      BitLength(lastWay)
    }

    /** The three fields of a set/way operand have room in 32 bits. */
    predicate Fits() {
      lineBits + SetBits() + WayBits() <= 32
    }
  }

  datatype CacheLevel = NoDataCache | DataCache(g: Geometry)

  /** CCSIDR_EL1. */
  function GeometryOf(ccsidr: nat): Geometry {
    Geometry(Field(ccsidr, 0, 3) + 4, Field(ccsidr, 13, 15), Field(ccsidr, 3, 10))
  }

  /** CLIDR_EL1.LoC: the number of levels below the point of coherency. */
  function LoC(clidr: nat): nat {
    Field(clidr, 24, 3)
  }

  lemma LoCBound(clidr: nat)
    ensures LoC(clidr) <= 7
  {
    hide Pow2, Low;
    Pow2Table();
  }

  /** CLIDR_EL1.Ctype for a level counted from 0: data only, separate and unified
      caches are 2, 3 and 4. */
  function CacheAt(clidr: nat, ccsidr: nat, level: nat): CacheLevel {
    if Field(clidr, 3 * level, 3) >= 2 then DataCache(GeometryOf(ccsidr)) else NoDataCache
  }

  /** The levels the walk passes through, as the two kinds of register describe them. */
  function Hierarchy(clidr: nat, ccsidrs: seq<nat>): (h: seq<CacheLevel>)
    requires |ccsidrs| == 7
    ensures |h| <= 7
  {
    assert LoC(clidr) <= 7 by { LoCBound(clidr); }
    Levels(clidr, ccsidrs, LoC(clidr))
  }

  function Levels(clidr: nat, ccsidrs: seq<nat>, n: nat): (h: seq<CacheLevel>)
    requires n <= |ccsidrs|
    ensures |h| == n
    ensures forall i :: 0 <= i < n ==> h[i] == CacheAt(clidr, ccsidrs[i], i)
  {
    if n == 0 then [] else Levels(clidr, ccsidrs, n - 1) + [CacheAt(clidr, ccsidrs[n - 1], n - 1)]
  }

  function BitLength(n: nat): nat {
    if n == 0 then 0 else 1 + BitLength(n / 2)
  }

  /** The instruction `clz` on a 32-bit register. */
  function Clz32(n: nat): nat {
    if BitLength(n) <= 32 then 32 - BitLength(n) else 0
  }

  lemma {:induction false} BitLengthBounds(n: nat)
    ensures n < Pow2(BitLength(n))
    ensures n > 0 ==> Pow2(BitLength(n) - 1) <= n
  {
    if n > 0 {
      BitLengthBounds(n / 2);
    }
  }

  lemma {:induction false} BitLengthAtMost(n: nat, k: nat)
    requires n < Pow2(k)
    ensures BitLength(n) <= k
  {
    if n > 0 {
      BitLengthAtMost(n / 2, k - 1);
    }
  }

  lemma FieldBounds(g: Geometry)
    requires g.Bounded()
    ensures g.WayBits() <= 10 && g.SetBits() <= 15
  {
    Pow2Table();
    BitLengthAtMost(g.lastWay, 10);
    BitLengthAtMost(g.lastSet, 15);
  }

  // ----- Operands: what the loop packs, what the architecture reads -----

  datatype SetWay = SetWay(level: nat, set_: nat, way: nat)

  /** The value of x11: three fields joined by shifts and ORs. */
  function Operand(level: nat, set_: nat, way: nat, g: Geometry): nat {
    Or(Or(2 * level, Shl(way, Clz32(g.lastWay))), Shl(set_, g.lineBits))
  }

  /** The operand of DC CISW: bits 3:1 select the level, the way sits at the top of
      the word and the set just above the line offset. */
  function Decode(op: nat, g: Geometry): SetWay {
    var a := g.WayBits();
    SetWay(OperandLevel(op), Field(op, g.lineBits, g.SetBits()), Field(op, if a <= 32 then 32 - a else 0, a))
  }

  function OperandLevel(op: nat): nat {
    Field(op, 1, 3)
  }

  /** A line the cache at `level` has. */
  predicate Exists(level: nat, set_: nat, way: nat, g: Geometry) {
    level < 7 && set_ <= g.lastSet && way <= g.lastWay
  }

  /** Three fields that do not overlap: ORing them adds them. */
  lemma JoinFields(way: nat, set_: nat, low: nat, line: nat, h: nat)
    requires low < Pow2(line) && line <= h && Scale(set_, line) < Pow2(h)
    ensures Or(Or(low, Scale(way, h)), Scale(set_, line)) == Scale(way, h) + Scale(set_, line) + low
  {
    Pow2Monotone(line, h);
    OrDisjoint(h, way, low);
    OrLowPart(h, way, low, Scale(set_, line));
    OrDisjoint(line, set_, low);
  }

  /** A value of `bits` bits keeps them all when shifted below bit `top` <= 32. */
  lemma ShlInRange(x: nat, bits: nat, shift: nat, top: nat)
    requires x < Pow2(bits) && bits + shift <= top <= 32
    ensures Shl(x, shift) == Scale(x, shift)
    ensures Scale(x, shift) + Pow2(shift) <= Pow2(top) <= TWO_32
  {
    hide Pow2, Scale;
    Pow2Table();
    ScaleBound(x, bits, shift);
    Pow2Monotone(bits + shift, top);
    Pow2Monotone(top, 32);
  }

  lemma OperandIsSum(level: nat, set_: nat, way: nat, g: Geometry)
    requires g.Bounded() && g.Fits() && Exists(level, set_, way, g)
    ensures Operand(level, set_, way, g) ==
            Scale(way, 32 - g.WayBits()) + Scale(set_, g.lineBits) + 2 * level < TWO_32
    ensures Pow2(g.lineBits) >= 16
    ensures way < Pow2(g.WayBits()) && set_ < Pow2(g.SetBits())
  {
    hide Pow2, Scale, Or, BitLength, Shl;
    BitLengthBounds(g.lastWay);
    BitLengthBounds(g.lastSet);
    var line, s, h := g.lineBits, g.SetBits(), 32 - g.WayBits();
    assert Pow2(line) >= 16 by { LineAtLeast16(line); }
    ShlInRange(way, g.WayBits(), h, 32);
    ShlInRange(set_, s, line, h);
    JoinFields(way, set_, 2 * level, line, h);
  }

  lemma LineAtLeast16(line: nat)
    requires line >= 4
    ensures Pow2(line) >= 16
  {
    hide Pow2;
    Pow2Table();
    Pow2Monotone(4, line);
  }

  lemma LevelField(level: nat, way: nat, h: nat, set_: nat, line: nat)
    requires level < 8 && h >= 4 && line >= 4
    ensures OperandLevel(Scale(way, h) + Scale(set_, line) + 2 * level) == level
  {
    ScaleOne(level);
    hide Pow2, Scale, Low, Shr;
    var m := Scale(way, h - 4) + Scale(set_, line - 4);
    assert Scale(way, h) + Scale(set_, line) == Scale(m, 4) by {
      ScaleScale(way, h - 4, 4);
      ScaleScale(set_, line - 4, 4);
      ScaleAdd(Scale(way, h - 4), Scale(set_, line - 4), 4);
    }
    Pow2Table();
    FieldOfStack(m, level, 0, 1, 3);
  }

  /** Every operand of a legal geometry is read back as the line it was packed from. */
  lemma OperandDecodes(level: nat, set_: nat, way: nat, g: Geometry)
    requires g.Bounded() && g.Fits() && Exists(level, set_, way, g)
    ensures Decode(Operand(level, set_, way, g), g) == SetWay(level, set_, way)
  {
    hide Operand, OperandLevel, Pow2, Scale, Shr, Low, BitLength;
    var line, s, h := g.lineBits, g.SetBits(), 32 - g.WayBits();
    var op := Operand(level, set_, way, g);
    OperandIsSum(level, set_, way, g);
    assert OperandLevel(op) == level by {
      FieldBounds(g);
      LevelField(level, way, h, set_, line);
    }
    var rest := h - s - line;
    assert op == Scale(Scale(way, rest), s + line) + Scale(set_, line) + 2 * level by {
      ScaleScale(way, rest, s + line);
    }
    FieldOfStack(Scale(way, rest), set_, 2 * level, line, s);
    ShrShr(op, s + line, rest);
    Split(way, 0, rest);
    LowId(way, g.WayBits());
  }

  ghost predicate PackingInjective(g: Geometry) {
    forall level: nat, s: nat, w: nat, level': nat, s': nat, w': nat ::
      Exists(level, s, w, g) && Exists(level', s', w', g) &&
      Operand(level, s, w, g) == Operand(level', s', w', g)
      ==> SetWay(level, s, w) == SetWay(level', s', w')
  }

  /** Two lines share an operand exactly when the fields do not have room. */
  lemma PackingInjectiveIff(g: Geometry)
    requires g.Bounded()
    ensures PackingInjective(g) <==> g.Fits()
  {
    if g.Fits() {
      forall level: nat, s: nat, w: nat, level': nat, s': nat, w': nat |
        Exists(level, s, w, g) && Exists(level', s', w', g) &&
        Operand(level, s, w, g) == Operand(level', s', w', g)
        ensures SetWay(level, s, w) == SetWay(level', s', w')
      {
        OperandDecodes(level, s, w, g);
        OperandDecodes(level', s', w', g);
      }
    } else {
      var s := Collision(0, g);
      assert Exists(0, s, 0, g) && Exists(0, 0, 1, g);
    }
  }

  /** Without room, way 1 of set 0 collides with way 0 of some other set. */
  lemma Collision(level: nat, g: Geometry) returns (s: nat)
    requires g.Bounded() && !g.Fits()
    ensures g.lastWay >= 1 && 1 <= s <= g.lastSet
    ensures Operand(level, s, 0, g) == Operand(level, 0, 1, g)
  {
    FieldBounds(g);
    BitLengthBounds(g.lastSet);
    assert BitLength(0) == 0;
    hide Pow2, BitLength, Or, Shl;
    var line, h := g.lineBits, 32 - g.WayBits();
    s := Pow2(h - line);
    Pow2Monotone(h - line, g.SetBits() - 1);
    SameBit(h, line);
    ZeroFields(2 * level, Shl(1, h), h, line);
    assert Clz32(g.lastWay) == h;
  }

  lemma SameBit(h: nat, line: nat)
    requires line <= h
    ensures Shl(Pow2(h - line), line) == Shl(1, h)
  {
    ScalePow2(h - line, line);
    ScalePow2(0, h);
  }

  lemma ZeroFields(low: nat, x: nat, h: nat, line: nat)
    ensures Or(Or(low, Shl(0, h)), x) == Or(Or(low, x), Shl(0, line)) == Or(low, x)
  {
    ScaleZero(h);
    ScaleZero(line);
    OrZero(low);
    OrZero(Or(low, x));
  }

  // ----- The walk -----

  /** Ways n-1 down to 0 of one set. */
  function WayOps(level: nat, set_: nat, n: nat, g: Geometry): seq<nat> {
    if n == 0 then [] else [Operand(level, set_, n - 1, g)] + WayOps(level, set_, n - 1, g)
  }

  /** Sets n-1 down to 0, every way of each. */
  function SetOps(level: nat, n: nat, g: Geometry): seq<nat> {
    if n == 0 then [] else WayOps(level, n - 1, g.lastWay + 1, g) + SetOps(level, n - 1, g)
  }

  function CacheOps(level: nat, cache: CacheLevel): seq<nat> {
    match cache
    case NoDataCache => []
    case DataCache(g) => SetOps(level, g.lastSet + 1, g)
  }

  /** The operations for levels 0 up to `n`, in the order they are issued. */
  function LevelOps(levels: seq<CacheLevel>, n: nat): seq<nat>
    requires n <= |levels|
  {
    if n == 0 then [] else LevelOps(levels, n - 1) + CacheOps(n - 1, levels[n - 1])
  }

  /** The system registers the macro touches, and the maintenance operations issued so far. */
  class CacheUnit {
    const clidr: nat
    const ccsidrs: seq<nat>
    var csselr: nat
    var issued: seq<nat>

    constructor (clidr: nat, ccsidrs: seq<nat>)
      ensures this.clidr == clidr && this.ccsidrs == ccsidrs
      ensures csselr == 0 && issued == []
    {
      this.clidr, this.ccsidrs := clidr, ccsidrs;
      csselr, issued := 0, [];
    }

    /** CCSIDR_EL1 describes the cache that CSSELR_EL1 selects. */
    function Ccsidr(): nat
      requires csselr / 2 < |ccsidrs|
      reads this
    {
      ccsidrs[csselr / 2]
    }

    /** The lines are those the operations were issued for, in order: every line of every
        data or unified cache below the point of coherency once, and no other. */
    method Dcache() returns (ghost lines: seq<SetWay>)
      requires |ccsidrs| == 7
      modifies this
      ensures csselr == 0
      ensures var h := Hierarchy(clidr, ccsidrs);
              issued == old(issued) + LevelOps(h, |h|)
      ensures exists ops :: issued == old(issued) + ops && Covers(clidr, ccsidrs, lines, ops)
    {
      hide Covers, LevelLines, And, Shr, SetOps, Field, LoC, Or, GeometryOf, CacheOps;
      var x0 := clidr;
      var x3 := And(x0, 0x7000000);
      x3 := Shr(x3, 23);
      ghost var h := Hierarchy(clidr, ccsidrs);
      assert x3 == 2 * |h| by { LoCField(x0); }
      if x3 != 0 {
        var x10: nat := 0;
        while x10 < x3  // tested at the bottom; the guard above covers the first pass
          invariant x10 % 2 == 0 && x10 <= x3
          invariant issued == old(issued) + LevelOps(h, x10 / 2)
        {
          var x2 := x10 + Shr(x10, 1);
          var x1 := Shr(x0, x2);
          x1 := And(x1, 7);
          CacheTypeField(x0, x10 / 2);
          ghost var level := x10 / 2;
          assert h[level] == CacheAt(x0, ccsidrs[level], level);
          NothingToClean(level);
          if x1 >= 2 {
            csselr := x10;
            WalkLevel(x10);
          }
          assert issued == old(issued) + (LevelOps(h, level) + CacheOps(level, h[level]));
          x10 := x10 + 2;
        }
      }
      csselr := 0;
      lines := LevelLines(h, |h|);
      LinesAreDue(clidr, ccsidrs);
    }

    /** The two inner loops: every set of the selected cache, every way of each set. */
    method WalkLevel(x10: nat)
      requires csselr == x10 && x10 % 2 == 0 && x10 / 2 < |ccsidrs|
      modifies this`issued
      ensures issued == old(issued) + CacheOps(x10 / 2, DataCache(GeometryOf(Ccsidr())))
    {
      hide And, Shr, Field, Operand, WayOps, BitLength;
      var x1 := Ccsidr();
      var x2 := And(x1, 7) + 4;
      var x4 := And(0x3ff, Shr(x1, 3));
      var x5 := Clz32(x4);
      var x7: int := And(0x7fff, Shr(x1, 13));
      ghost var g := Geometry(x2, x7, x4);
      assert g == GeometryOf(x1) by { GeometryFields(x1); }
      while x7 >= 0  // tested at the bottom in the source; the first pass always runs
        invariant -1 <= x7
        invariant old(issued) + SetOps(x10 / 2, g.lastSet + 1, g) == issued + SetOps(x10 / 2, x7 + 1, g)
      {
        WalkSet(x10, x7, x2, x4, x5, g);
        x7 := x7 - 1;
      }
    }

    method WalkSet(x10: nat, x7: nat, x2: nat, x4: nat, x5: nat, ghost g: Geometry)
      requires x10 % 2 == 0 && x2 == g.lineBits && x4 == g.lastWay && x5 == Clz32(x4)
      modifies this`issued
      ensures issued == old(issued) + WayOps(x10 / 2, x7, x4 + 1, g)
    {
      hide Shl, Or, Clz32;
      var x9: int := x4;
      while x9 >= 0
        invariant -1 <= x9
        invariant old(issued) + WayOps(x10 / 2, x7, x4 + 1, g) == issued + WayOps(x10 / 2, x7, x9 + 1, g)
      {
        var x6 := Shl(x9, x5);
        var x11 := Or(x10, x6);
        x6 := Shl(x7, x2);
        x11 := Or(x11, x6);
        issued := issued + [x11];
        x9 := x9 - 1;
      }
    }
  }

  lemma NothingToClean(level: nat)
    ensures CacheOps(level, NoDataCache) == []
  {
  }

  lemma LoCField(clidr: nat)
    ensures Shr(And(clidr, 0x7000000), 23) == 2 * LoC(clidr)
  {
    hide Pow2, And, Field;
    Pow2Table();
    Pow2Step(16);
    MaskField(clidr, 24, 3, 0x7000000, 23);
  }

  /** Masking a field and shifting it down, short of its position by one bit. */
  lemma MaskField(x: nat, lo: nat, len: nat, mask: nat, shift: nat)
    requires mask == (Pow2(len) - 1) * Pow2(lo) && lo == shift + 1
    ensures Shr(And(x, mask), shift) == 2 * Field(x, lo, len)
  {
    var f := Field(x, lo, len);
    MaskIsScaled(lo, len);
    ScaleIsProduct(Pow2(len) - 1, lo);
    AndField(x, lo, len);
    ScaleScale(f, 1, shift);
    assert Scale(f, 1) == 2 * Scale(f, 0);
    Split(2 * f, 0, shift);
  }

  lemma CacheTypeField(clidr: nat, level: nat)
    ensures And(Shr(clidr, 2 * level + Shr(2 * level, 1)), 7) == Field(clidr, 3 * level, 3)
  {
    Pow2Table();
    assert Shr(2 * level, 1) == Shr(level, 0);
    AndLow(Shr(clidr, 3 * level), 3);
  }

  /** AND with a literal run of ones, on either side. */
  lemma OnesMask(x: nat, len: nat, mask: nat)
    requires mask == Pow2(len) - 1
    ensures And(x, mask) == And(mask, x) == Low(x, len)
  {
    AndLow(x, len);
    AndCommutes(mask, x);
  }

  lemma GeometryFields(ccsidr: nat)
    ensures Geometry(And(ccsidr, 7) + 4, And(0x7fff, Shr(ccsidr, 13)), And(0x3ff, Shr(ccsidr, 3))) ==
            GeometryOf(ccsidr)
    ensures GeometryOf(ccsidr).Bounded()
  {
    hide Pow2, And, Low, Shr;
    Pow2Table();
    ShrNone(ccsidr);
    OnesMask(ccsidr, 3, 7);
    OnesMask(Shr(ccsidr, 3), 10, 0x3ff);
    OnesMask(Shr(ccsidr, 13), 15, 0x7fff);
  }

  lemma ShrNone(x: nat)
    ensures Shr(x, 0) == x
  {
  }

  // ----- Coverage: every line once, nothing else -----

  /** The lines of one set, of one cache and of a hierarchy, in the order of the walk. */
  function WayLines(level: nat, set_: nat, n: nat): seq<SetWay> {
    if n == 0 then [] else [SetWay(level, set_, n - 1)] + WayLines(level, set_, n - 1)
  }

  function SetLines(level: nat, n: nat, g: Geometry): seq<SetWay> {
    if n == 0 then [] else WayLines(level, n - 1, g.lastWay + 1) + SetLines(level, n - 1, g)
  }

  function CacheLines(level: nat, cache: CacheLevel): seq<SetWay> {
    match cache
    case NoDataCache => []
    case DataCache(g) => SetLines(level, g.lastSet + 1, g)
  }

  function LevelLines(levels: seq<CacheLevel>, n: nat): seq<SetWay>
    requires n <= |levels|
  {
    if n == 0 then [] else LevelLines(levels, n - 1) + CacheLines(n - 1, levels[n - 1])
  }

  function OperandOf(line: SetWay, levels: seq<CacheLevel>): nat {
    if line.level < |levels| && levels[line.level].DataCache? then
      Operand(line.level, line.set_, line.way, levels[line.level].g)
    else 0
  }

  function OperandsOf(lines: seq<SetWay>, levels: seq<CacheLevel>): (ops: seq<nat>)
    ensures |ops| == |lines|
    ensures forall i :: 0 <= i < |lines| ==> ops[i] == OperandOf(lines[i], levels)
  {
    if lines == [] then [] else [OperandOf(lines[0], levels)] + OperandsOf(lines[1..], levels)
  }

  lemma {:induction false} OperandsJoin(a: seq<SetWay>, b: seq<SetWay>, levels: seq<CacheLevel>)
    ensures OperandsOf(a + b, levels) == OperandsOf(a, levels) + OperandsOf(b, levels)
  {
    hide OperandOf;
    assert forall i :: 0 <= i < |a| + |b| ==>
      OperandsOf(a + b, levels)[i] == (OperandsOf(a, levels) + OperandsOf(b, levels))[i];
  }

  lemma {:induction false} WayOpsAre(level: nat, set_: nat, n: nat, levels: seq<CacheLevel>)
    requires level < |levels| && levels[level].DataCache?
    ensures WayOps(level, set_, n, levels[level].g) == OperandsOf(WayLines(level, set_, n), levels)
  {
    hide Operand, OperandsOf;
    if n == 0 {
      NoOperands(levels);
    } else {
      WayOpsAre(level, set_, n - 1, levels);
      OperandsJoin([SetWay(level, set_, n - 1)], WayLines(level, set_, n - 1), levels);
      OneOperand(SetWay(level, set_, n - 1), levels);
    }
  }

  lemma NoOperands(levels: seq<CacheLevel>)
    ensures OperandsOf([], levels) == []
  {
  }

  lemma OneOperand(line: SetWay, levels: seq<CacheLevel>)
    ensures OperandsOf([line], levels) == [OperandOf(line, levels)]
  {
  }

  lemma {:induction false} SetOpsAre(level: nat, n: nat, levels: seq<CacheLevel>)
    requires level < |levels| && levels[level].DataCache?
    ensures SetOps(level, n, levels[level].g) == OperandsOf(SetLines(level, n, levels[level].g), levels)
  {
    hide WayOps, WayLines, OperandsOf;
    if n == 0 {
      NoOperands(levels);
    } else {
      var g := levels[level].g;
      WayOpsAre(level, n - 1, g.lastWay + 1, levels);
      SetOpsAre(level, n - 1, levels);
      OperandsJoin(WayLines(level, n - 1, g.lastWay + 1), SetLines(level, n - 1, g), levels);
    }
  }

  /** The walk issues the operand of each line of the hierarchy, in order. */
  lemma {:induction false} LevelOpsAre(levels: seq<CacheLevel>, n: nat)
    requires n <= |levels|
    ensures LevelOps(levels, n) == OperandsOf(LevelLines(levels, n), levels)
  {
    hide SetOps, SetLines, OperandsOf;
    NoOperands(levels);
    if n > 0 {
      LevelOpsAre(levels, n - 1);
      OperandsJoin(LevelLines(levels, n - 1), CacheLines(n - 1, levels[n - 1]), levels);
      if levels[n - 1].DataCache? {
        SetOpsAre(n - 1, levels[n - 1].g.lastSet + 1, levels);
      }
    }
  }

  /** A line of this cache, if it is a data or unified one. */
  predicate InCache(level: nat, cache: CacheLevel, line: SetWay) {
    && line.level == level
    && cache.DataCache?
    && line.set_ <= cache.g.lastSet
    && line.way <= cache.g.lastWay
  }

  /** The lines the walk must reach: at a level with a data or unified cache, inside
      that cache's geometry. */
  predicate Target(levels: seq<CacheLevel>, line: SetWay) {
    line.level < |levels| && InCache(line.level, levels[line.level], line)
  }

  function Visits(lines: seq<SetWay>, line: SetWay): nat {
    if lines == [] then 0 else (if lines[0] == line then 1 else 0) + Visits(lines[1..], line)
  }

  lemma {:induction false} VisitsJoin(a: seq<SetWay>, b: seq<SetWay>, line: SetWay)
    ensures Visits(a + b, line) == Visits(a, line) + Visits(b, line)
  {
    if a == [] {
      assert a + b == b;
    } else {
      assert (a + b)[1..] == a[1..] + b;
      VisitsJoin(a[1..], b, line);
    }
  }

  lemma {:induction false} WayVisits(level: nat, set_: nat, n: nat, line: SetWay)
    ensures Visits(WayLines(level, set_, n), line) ==
            if line.level == level && line.set_ == set_ && line.way < n then 1 else 0
  {
    if n > 0 {
      WayVisits(level, set_, n - 1, line);
    }
  }

  lemma {:induction false} SetVisits(level: nat, n: nat, g: Geometry, line: SetWay)
    ensures Visits(SetLines(level, n, g), line) ==
            if line.level == level && line.set_ < n && line.way <= g.lastWay then 1 else 0
  {
    hide WayLines;
    if n > 0 {
      WayVisits(level, n - 1, g.lastWay + 1, line);
      SetVisits(level, n - 1, g, line);
      VisitsJoin(WayLines(level, n - 1, g.lastWay + 1), SetLines(level, n - 1, g), line);
    }
  }

  lemma CacheVisits(level: nat, cache: CacheLevel, line: SetWay)
    ensures Visits(CacheLines(level, cache), line) == if InCache(level, cache, line) then 1 else 0
  {
    hide SetLines, Visits;
    match cache
    case NoDataCache => NoVisits(line);
    case DataCache(g) => SetVisits(level, g.lastSet + 1, g, line);
  }

  lemma NoVisits(line: SetWay)
    ensures Visits([], line) == 0
  {
  }

  lemma {:induction false} LevelVisits(levels: seq<CacheLevel>, n: nat, line: SetWay)
    requires n <= |levels|
    ensures Visits(LevelLines(levels, n), line) ==
            if line.level < n && Target(levels, line) then 1 else 0
  {
    hide CacheLines, Visits, InCache;
    if n == 0 {
      NoVisits(line);
    } else {
      LevelVisits(levels, n - 1, line);
      VisitsJoin(LevelLines(levels, n - 1), CacheLines(n - 1, levels[n - 1]), line);
      CacheVisits(n - 1, levels[n - 1], line);
      ItsLevel(n - 1, levels[n - 1], line);
    }
  }

  lemma ItsLevel(level: nat, cache: CacheLevel, line: SetWay)
    ensures InCache(level, cache, line) ==> line.level == level
  {
  }

  // The same in terms of the registers' fields alone.

  /** CLIDR_EL1 puts the level below the point of coherency and gives it a data or unified
      cache, and CCSIDR_EL1 gives that cache the set and the way. */
  predicate Due(clidr: nat, ccsidrs: seq<nat>, line: SetWay) {
    && line.level < Field(clidr, 24, 3)
    && Field(clidr, 3 * line.level, 3) >= 2
    && line.level < |ccsidrs|
    && line.set_ <= Field(ccsidrs[line.level], 13, 15)
    && line.way <= Field(ccsidrs[line.level], 3, 10)
  }

  /** The operand: the level from bit 1, the way from the top of the word, and the set from
      the line offset, whose length is the LineSize field plus 4. */
  function IssuedFor(line: SetWay, ccsidrs: seq<nat>): nat
    requires line.level < |ccsidrs|
  {
    var ccsidr := ccsidrs[line.level];
    Or(Or(2 * line.level, Shl(line.way, Clz32(Field(ccsidr, 3, 10)))), Shl(line.set_, Field(ccsidr, 0, 3) + 4))
  }

  lemma DueIsTarget(clidr: nat, ccsidrs: seq<nat>, line: SetWay)
    requires |ccsidrs| == 7
    ensures Target(Hierarchy(clidr, ccsidrs), line) <==> Due(clidr, ccsidrs, line)
    ensures Due(clidr, ccsidrs, line) ==>
      OperandOf(line, Hierarchy(clidr, ccsidrs)) == IssuedFor(line, ccsidrs)
  {
    hide Field, Or, Shl, Clz32;
    LoCBound(clidr);
  }

  lemma {:induction false} VisitsIsMultiset(lines: seq<SetWay>, line: SetWay)
    ensures Visits(lines, line) == multiset(lines)[line]
  {
    if lines != [] {
      VisitsIsMultiset(lines[1..], line);
      assert lines == [lines[0]] + lines[1..];
    }
  }

  /** Every due line stands once in the list, no other line at all, and the operations are
      those of the list, in order. */
  ghost predicate Covers(clidr: nat, ccsidrs: seq<nat>, lines: seq<SetWay>, ops: seq<nat>) {
    && |ops| == |lines|
    && (forall line :: multiset(lines)[line] == if Due(clidr, ccsidrs, line) then 1 else 0)
    && (forall k :: 0 <= k < |lines| ==>
          Due(clidr, ccsidrs, lines[k]) && ops[k] == IssuedFor(lines[k], ccsidrs))
  }

  lemma LinesAreDue(clidr: nat, ccsidrs: seq<nat>)
    requires |ccsidrs| == 7
    ensures var h := Hierarchy(clidr, ccsidrs);
            Covers(clidr, ccsidrs, LevelLines(h, |h|), LevelOps(h, |h|))
  {
    hide LevelOps, LevelLines, Visits, Target, Hierarchy, Field, IssuedFor, OperandOf;
    var h := Hierarchy(clidr, ccsidrs);
    var lines := LevelLines(h, |h|);
    LevelOpsAre(h, |h|);
    forall line ensures multiset(lines)[line] == if Due(clidr, ccsidrs, line) then 1 else 0 {
      VisitsIsMultiset(lines, line);
      LevelVisits(h, |h|, line);
      TargetLevel(h, line);
      DueIsTarget(clidr, ccsidrs, line);
    }
    forall k | 0 <= k < |lines|
      ensures Due(clidr, ccsidrs, lines[k]) && LevelOps(h, |h|)[k] == IssuedFor(lines[k], ccsidrs)
    {
      assert lines[k] in multiset(lines);
      DueIsTarget(clidr, ccsidrs, lines[k]);
    }
  }

  /** The hardware reads the operand of a due line as that line when the line, set and way
      fields have room in 32 bits. */
  lemma DueReadsBack(clidr: nat, ccsidrs: seq<nat>, line: SetWay)
    requires |ccsidrs| == 7 && Due(clidr, ccsidrs, line)
    requires var c := ccsidrs[line.level];
             Field(c, 0, 3) + 4 + BitLength(Field(c, 13, 15)) + BitLength(Field(c, 3, 10)) <= 32
    ensures var c := ccsidrs[line.level];
            var op := IssuedFor(line, ccsidrs);
            var a, s := BitLength(Field(c, 3, 10)), BitLength(Field(c, 13, 15));
            && Field(op, 1, 3) == line.level
            && Field(op, Field(c, 0, 3) + 4, s) == line.set_
            && Field(op, 32 - a, a) == line.way
  {
    hide Field, Operand, BitLength, Decode, LoC, Geometry.Bounded;
    var c := ccsidrs[line.level];
    LoCBound(clidr);
    assert LoC(clidr) == Field(clidr, 24, 3) by { LoCIs(clidr); }
    GeometryFields(c);
    OperandDecodes(line.level, line.set_, line.way, GeometryOf(c));
    DecodeIs(Operand(line.level, line.set_, line.way, GeometryOf(c)), GeometryOf(c));
    assert Operand(line.level, line.set_, line.way, GeometryOf(c)) == IssuedFor(line, ccsidrs) by {
      OperandIs(line, ccsidrs);
    }
  }

  lemma LoCIs(clidr: nat)
    ensures LoC(clidr) == Field(clidr, 24, 3)
  {
  }

  lemma DecodeIs(op: nat, g: Geometry)
    requires g.WayBits() <= 32
    ensures var line := Decode(op, g);
            && line.level == Field(op, 1, 3) && line.set_ == Field(op, g.lineBits, g.SetBits())
            && line.way == Field(op, 32 - g.WayBits(), g.WayBits())
  {
  }

  lemma OperandIs(line: SetWay, ccsidrs: seq<nat>)
    requires line.level < |ccsidrs|
    ensures Operand(line.level, line.set_, line.way, GeometryOf(ccsidrs[line.level])) == IssuedFor(line, ccsidrs)
  {
    hide Field, Or, Shl, Clz32;
  }

  /** Whatever the registers say, the walk issues the operands of a list of lines in which
      every due line stands once and no other line at all. */
  lemma EveryLineOnce(clidr: nat, ccsidrs: seq<nat>, line: SetWay)
    requires |ccsidrs| == 7
    ensures var h := Hierarchy(clidr, ccsidrs);
            && LevelOps(h, |h|) == OperandsOf(LevelLines(h, |h|), h)
            && multiset(LevelLines(h, |h|))[line] == if Due(clidr, ccsidrs, line) then 1 else 0
  {
    hide LevelOps, LevelLines, OperandsOf, Due, Hierarchy;
    var h := Hierarchy(clidr, ccsidrs);
    LevelOpsAre(h, |h|);
    LinesAreDue(clidr, ccsidrs);
  }

  lemma TargetLevel(levels: seq<CacheLevel>, line: SetWay)
    ensures Target(levels, line) ==> line.level < |levels|
  {
  }

  // ----- What the hardware makes of the operands -----

  predicate Legal(levels: seq<CacheLevel>) {
    forall i :: 0 <= i < |levels| && levels[i].DataCache? ==> levels[i].g.Fits()
  }

  predicate Bounded(levels: seq<CacheLevel>) {
    && |levels| <= 7
    && forall i :: 0 <= i < |levels| && levels[i].DataCache? ==> levels[i].g.Bounded()
  }

  lemma HierarchyBounded(clidr: nat, ccsidrs: seq<nat>)
    requires |ccsidrs| == 7
    ensures Bounded(Hierarchy(clidr, ccsidrs))
  {
    hide GeometryOf, Geometry.Bounded, LoC, Field;
    var h := Hierarchy(clidr, ccsidrs);
    forall i | 0 <= i < |h| && h[i].DataCache? ensures h[i].g.Bounded() {
      GeometryFields(ccsidrs[i]);
    }
  }

  /** The hardware reads the operand of this line as this line. */
  predicate ReadsBack(line: SetWay, levels: seq<CacheLevel>) {
    var op := OperandOf(line, levels);
    OperandLevel(op) == line.level && Target(levels, line) && Decode(op, levels[line.level].g) == line
  }

  lemma {:induction false} Occurs(lines: seq<SetWay>, line: SetWay)
    ensures Visits(lines, line) > 0 <==> line in lines
  {
    if lines != [] {
      Occurs(lines[1..], line);
      assert lines == [lines[0]] + lines[1..];
    }
  }

  /** Every operation of the walk acts on the line it was issued for exactly when the
      operand fields of every visited cache have room; otherwise some line is missed
      and another is hit in its place. */
  lemma WalkReadsBackIff(clidr: nat, ccsidrs: seq<nat>)
    requires |ccsidrs| == 7
    ensures var h := Hierarchy(clidr, ccsidrs);
            (forall line :: line in LevelLines(h, |h|) ==> ReadsBack(line, h)) <==> Legal(h)
  {
    hide Hierarchy, LevelLines, ReadsBack, Legal, Bounded, Target;
    var h := Hierarchy(clidr, ccsidrs);
    HierarchyBounded(clidr, ccsidrs);
    if Legal(h) {
      forall line | line in LevelLines(h, |h|) ensures ReadsBack(line, h) {
        LineIsTarget(h, line);
        LegalReadsBack(h, line);
      }
    } else {
      var a, b := IllegalCollides(h);
      LineIsTarget(h, a);
      LineIsTarget(h, b);
      CannotBoth(h, a, b);
    }
  }

  lemma LineIsTarget(levels: seq<CacheLevel>, line: SetWay)
    ensures line in LevelLines(levels, |levels|) <==> Target(levels, line)
  {
    hide LevelLines;
    Occurs(LevelLines(levels, |levels|), line);
    LevelVisits(levels, |levels|, line);
  }

  lemma LegalReadsBack(levels: seq<CacheLevel>, line: SetWay)
    requires Legal(levels) && Bounded(levels) && Target(levels, line)
    ensures ReadsBack(line, levels)
  {
    hide Operand, OperandLevel;
    OperandDecodes(line.level, line.set_, line.way, levels[line.level].g);
  }

  /** Two target lines with one operand between them. */
  lemma IllegalCollides(levels: seq<CacheLevel>) returns (a: SetWay, b: SetWay)
    requires !Legal(levels) && Bounded(levels)
    ensures Target(levels, a) && Target(levels, b) && a != b
    ensures OperandOf(a, levels) == OperandOf(b, levels)
  {
    hide Operand, Geometry.Fits, Geometry.Bounded;
    var i :| 0 <= i < |levels| && levels[i].DataCache? && !levels[i].g.Fits();
    var s := Collision(i, levels[i].g);
    a, b := SetWay(i, s, 0), SetWay(i, 0, 1);
  }

  lemma CannotBoth(levels: seq<CacheLevel>, a: SetWay, b: SetWay)
    requires a != b && OperandOf(a, levels) == OperandOf(b, levels)
    ensures !(ReadsBack(a, levels) && ReadsBack(b, levels))
  {
    hide OperandOf, Decode, OperandLevel;
  }

  // ----- A cache without room -----

  const OVERSIZED := Geometry(11, 0x7fff, 0x3ff)

  /** Registers that describe one cache of 2048-byte lines, 32768 sets and 1024 ways: way 1
      of set 0 and way 0 of set 2048 get the same operand. */
  lemma OversizedCacheCollides(ccsidrs: seq<nat>)
    requires |ccsidrs| == 7 && ccsidrs[0] == 0xfff_ffff
    ensures var h := Hierarchy(0x100_0002, ccsidrs);
            && h == [DataCache(OVERSIZED)] && !Legal(h)
            && Target(h, SetWay(0, 0, 1)) && Target(h, SetWay(0, 2048, 0))
            && OperandOf(SetWay(0, 0, 1), h) == OperandOf(SetWay(0, 2048, 0), h)
  {
    hide Field, GeometryOf, LoC, Operand, Geometry.SetBits, Geometry.WayBits, BitLength;
    OversizedRegisters();
    OversizedBits();
    OversizedOperands();
    assert Levels(0x100_0002, ccsidrs, 0) == [];
  }

  lemma OversizedRegisters()
    ensures LoC(0x100_0002) == 1 && Field(0x100_0002, 0, 3) == 2 && GeometryOf(0xfff_ffff) == OVERSIZED
  {
    hide Shr, Low, Pow2;
    Pow2Table();
    Pow2Step(16);
    Pow2Step(12);
    ShrNone(0x100_0002);
    ShrNone(0xfff_ffff);
    ShrByPower(0x100_0002, 24, 0x100_0000, 1);
    ShrByPower(1, 3, 8, 0);
    ShrByPower(0x100_0002, 3, 8, 0x20_0000);
    ShrByPower(0xfff_ffff, 3, 8, 0x1ff_ffff);
    ShrByPower(0x1ff_ffff, 10, 0x400, 0x7fff);
    ShrByPower(0xfff_ffff, 13, 0x2000, 0x7fff);
    ShrByPower(0x7fff, 15, 0x8000, 0);
  }

  lemma OversizedBits()
    ensures OVERSIZED.SetBits() == 15 && OVERSIZED.WayBits() == 10
  {
    hide BitLength, Pow2;
    Pow2Table();
    Pow2Step(12);
    LengthIs(0x7fff, 15);
    LengthIs(0x3ff, 10);
  }

  lemma LengthIs(n: nat, k: nat)
    requires 0 < k && Pow2(k - 1) <= n < Pow2(k)
    ensures BitLength(n) == k
  {
    BitLengthAtMost(n, k);
    BitLengthBounds(n);
    if BitLength(n) < k {
      Pow2Monotone(BitLength(n), k - 1);
    }
  }

  lemma OversizedOperands()
    ensures Operand(0, 0, 1, OVERSIZED) == Operand(0, 2048, 0, OVERSIZED)
  {
    hide BitLength, Pow2, Or, Shl;
    OversizedBits();
    Pow2Table();
    SameBit(22, 11);
    ZeroFields(0, Shl(1, 22), 22, 11);
    Pow2Step(10);
  }
}
