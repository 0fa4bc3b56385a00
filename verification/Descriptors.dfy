/** The descriptor constructors of kernel/src/mem.c and the address macros of
    kernel/include/mem.h, with what the hardware walk reads back from them. */
module Descriptors {
  import opened Bits
  import opened Memory
  import opened Translation

  const KERNEL_VADDR_BASE := 0xffff_ff80_0000_0000
  const LARGE_PAGE := 0x20_0000
  const OUTPUT_MASK := 0xffff_ffff_f000

  function LargePageEntry(paddr: nat, deviceMem: bool): nat {
    var valid := Or(And(paddr, OUTPUT_MASK), Shl(1, 0));
    var typed := if deviceMem then Or(Or(valid, Or(Shl(1, 54), Shl(1, 53))), Shl(0, 2))
                 else Or(valid, Shl(4, 2));
    Or(typed, Shl(1, 10))
  }

  function TableEntry(paddr: nat): nat {
    Or(Or(And(paddr, OUTPUT_MASK), Shl(1, 1)), Shl(1, 0))
  }

  function KernelPdIndex(x: nat): nat {
    Shr(And((x + KERNEL_VADDR_BASE) % TWO_64, Shl(0x1ff, 30)), 30)
  }

  function IdentPdIndex(x: nat): nat {
    Shr(And(x, Shl(0x1ff, 30)), 30)
  }

  // ----- Encoding as sums of fields -----

  lemma SmallShifts()
    ensures Shl(1, 0) == 1 && Shl(1, 1) == 2 && Shl(0, 2) == 0 && Shl(4, 2) == 16
    ensures Shl(1, 10) == Pow2(10) == Scale(1, 10) == 0x400
    ensures Shl(1, 53) == Pow2(53) && Shl(1, 54) == Scale(1, 54) == Pow2(54)
    ensures Scale(3, 53) == Pow2(54) + Pow2(53) && Scale(0, 53) == 0 && Scale(1, 4) == 16
  {
    hide Pow2, Scale;
    Pow2Table();
    ScaleIsProduct(1, 0);
    ScaleIsProduct(1, 1);
    ScaleIsProduct(0, 2);
    ScaleIsProduct(4, 2);
    ScaleIsProduct(1, 4);
    ScaleIsProduct(1, 10);
    ScaleIsProduct(1, 53);
    ScaleIsProduct(1, 54);
    ScaleIsProduct(3, 53);
    ScaleIsProduct(0, 53);
  }

  lemma OutputBits(paddr: nat)
    ensures And(paddr, OUTPUT_MASK) == Scale(Field(paddr, 12, 36), 12)
  {
    hide Pow2, Scale, And, Field;
    MaskIsScaled(12, 36);
    ScaleIsProduct(Pow2(36) - 1, 12);
    Pow2Table();
    AndField(paddr, 12, 36);
  }

  lemma TableEntrySum(paddr: nat)
    ensures TableEntry(paddr) == Scale(Field(paddr, 12, 36), 12) + 3
  {
    hide Scale, Field, Or, And, Shl, Pow2;
    var a := Field(paddr, 12, 36);
    OutputBits(paddr);
    SmallShifts();
    SmallOrs();
    Pow2Table();
    OrDisjoint(12, a, 2);
    OrLowPart(12, a, 2, 1);
  }

  lemma LargePageSum(paddr: nat, deviceMem: bool)
    ensures LargePageEntry(paddr, deviceMem) ==
            Scale(if deviceMem then 3 else 0, 53) + Scale(Field(paddr, 12, 36), 12) +
            if deviceMem then 0x401 else 0x411
  {
    hide Scale, Field, Or, And, Shl, Pow2;
    var a := Field(paddr, 12, 36);
    OutputBits(paddr);
    SmallShifts();
    SmallOrs();
    Pow2Table();
    OrDisjoint(12, a, 1);
    if deviceMem {
      DeviceOrs(a);
    } else {
      OrLowPart(12, a, 1, 16);
      OrLowPart(12, a, 17, 0x400);
    }
  }

  lemma DeviceOrs(a: nat)
    requires a < Pow2(36)
    ensures Or(Or(Or(Scale(a, 12) + 1, Or(Pow2(54), Pow2(53))), 0), 0x400) ==
            Scale(3, 53) + Scale(a, 12) + 0x401
  {
    hide Scale, Or, Pow2;
    Pow2Table();
    SmallShifts();
    SmallOrs();
    ScaleBound(a, 36, 12);
    OrDisjoint(54, 1, Pow2(53));
    OrDisjoint(53, 3, Scale(a, 12) + 1);
    OrZero(Scale(3, 53) + Scale(a, 12) + 1);
    ScaleScale(3, 41, 12);
    ScaleAdd(Scale(3, 41), a, 12);
    OrLowPart(12, Scale(3, 41) + a, 1, 0x400);
  }

  lemma SmallOrs()
    ensures Or(1, 0x400) == 0x401 && Or(1, 16) == 17 && Or(17, 0x400) == 0x411 && Or(2, 1) == 3
  {
    hide Pow2, Or, Scale;
    Pow2Table();
    SmallShifts();
    ScaleOne(1);
    OrDisjoint(1, 1, 1);
    OrDisjoint(10, 1, 1);
    OrDisjoint(4, 1, 1);
    OrDisjoint(10, 1, 17);
  }

  // ----- What the walk reads back -----

  /** The fields of a descriptor assembled from execute-never bits, an output address
      of 36 bits and twelve low bits. */
  lemma DescriptorFields(xn: nat, a: nat, low: nat)
    requires xn < 4 && a < Pow2(36) && low < Pow2(12)
    ensures var d := Scale(xn, 53) + Scale(a, 12) + low;
            && Field(d, 0, 12) == low && Field(d, 12, 36) == a
            && Field(d, 53, 2) == xn && Field(d, 55, 9) == 0
  {
    hide *;
    ScaleScale(xn, 5, 48);
    FieldOfStack(Scale(xn, 5), a, low, 12, 36);
    ScaleScale(xn, 41, 12);
    ScaleAdd(Scale(xn, 41), a, 12);
    LowField(Scale(xn, 41) + a, low, 12);
    ScaleBound(a, 36, 12);
    HighField(xn, Scale(a, 12) + low);
  }

  lemma LowField(high: nat, low: nat, k: nat)
    requires low < Pow2(k)
    ensures Field(Scale(high, k) + low, 0, k) == low
  {
    Split(high, low, k);
    assert Shr(Scale(high, k) + low, 0) == Scale(high, k) + low;
  }

  lemma HighField(xn: nat, low: nat)
    requires xn < 4 && low < Pow2(48)
    ensures Field(Scale(xn, 53) + low, 53, 2) == xn
    ensures Field(Scale(xn, 53) + low, 55, 9) == 0
  {
    hide Pow2, Scale, Shr, Low;
    var d := Scale(xn, 53) + low;
    ZeroLow(9);
    Pow2Table();
    Split(xn, low, 53);
    LowId(xn, 2);
    ShrShr(d, 53, 2);
  }

  lemma ZeroLow(k: nat)
    ensures Low(0, k) == 0
  {
    ScaleZero(k);
    Split(0, 0, k);
  }

  lemma LowBitsOf(d: nat)
    ensures Field(d, 0, 1) == Field(Field(d, 0, 12), 0, 1) && Field(d, 1, 1) == Field(Field(d, 0, 12), 1, 1)
    ensures Field(d, 2, 3) == Field(Field(d, 0, 12), 2, 3)
    ensures Field(d, 7, 1) == Field(Field(d, 0, 12), 7, 1) && Field(d, 10, 1) == Field(Field(d, 0, 12), 10, 1)
  {
    hide Field;
    FieldOfField(d, 0, 12, 0, 1);
    FieldOfField(d, 0, 12, 1, 1);
    FieldOfField(d, 0, 12, 2, 3);
    FieldOfField(d, 0, 12, 7, 1);
    FieldOfField(d, 0, 12, 10, 1);
  }

  lemma HighBitsOf(d: nat)
    ensures Field(d, 53, 1) == Field(Field(d, 53, 2), 0, 1) && Field(d, 54, 1) == Field(Field(d, 53, 2), 1, 1)
    ensures Field(d, 59, 1) == Field(Field(d, 55, 9), 4, 1) && Field(d, 60, 1) == Field(Field(d, 55, 9), 5, 1)
    ensures Field(d, 62, 1) == Field(Field(d, 55, 9), 7, 1)
  {
    hide Field;
    FieldOfField(d, 53, 2, 0, 1);
    FieldOfField(d, 53, 2, 1, 1);
    FieldOfField(d, 55, 9, 4, 1);
    FieldOfField(d, 55, 9, 5, 1);
    FieldOfField(d, 55, 9, 7, 1);
  }

  const NONE := Inherited(ExecuteNever(false, false), false)

  /** A table descriptor sends the walk to the page it was made for, adding no restriction. */
  lemma TableEntryLeads(m: seq<byte>, regs: Regs, paddr: nat, va: nat, level: nat)
    requires level < 3
    ensures Descend(m, regs, TableEntry(paddr), va, level, NONE) ==
            Walk(m, regs, Scale(Field(paddr, 12, 36), 12), va, level + 1, NONE)
  {
    hide TableEntry, Field, Scale, Pow2, Walk, Leaf, LevelShift;
    var a := Field(paddr, 12, 36);
    TableEntrySum(paddr);
    EntryBits(0, a, 3);
    SmallShifts();
    SmallConstants();
  }

  /** The single-bit and attribute fields, read through the three groups. */
  lemma EntryBits(xn: nat, a: nat, low: nat)
    requires xn < 4 && a < Pow2(36) && low < 0x1000
    ensures var d := Scale(xn, 53) + Scale(a, 12) + low;
            && Bit(d, 0) == Bit(low, 0) && Bit(d, 1) == Bit(low, 1) && Bit(d, 7) == Bit(low, 7)
            && Bit(d, 10) == Bit(low, 10) && Field(d, 2, 3) == Field(low, 2, 3)
            && Bit(d, 53) == Bit(xn, 0) && Bit(d, 54) == Bit(xn, 1)
            && !Bit(d, 59) && !Bit(d, 60) && !Bit(d, 62)
            && Field(d, 12, 36) == a
  {
    hide Field, Scale, Pow2;
    var d := Scale(xn, 53) + Scale(a, 12) + low;
    Pow2Table();
    DescriptorFields(xn, a, low);
    LowBitsOf(d);
    HighBitsOf(d);
    SmallConstants();
  }

  /** A large-page descriptor maps its 2 MiB block: device memory is execute-never and
      uses MAIR entry 0, normal memory is executable and uses entry 4. */
  lemma LargePageMaps(m: seq<byte>, regs: Regs, paddr: nat, deviceMem: bool, va: nat)
    ensures Descend(m, regs, LargePageEntry(paddr, deviceMem), va, 2, NONE) ==
            Mapped(Scale(Field(paddr, 21, 27), 21) + Low(va, 21),
                   Field(regs.mair, if deviceMem then 0 else 32, 8),
                   ExecuteNever(deviceMem, deviceMem), false)
  {
    hide LargePageEntry, Field, Scale, Pow2, Low, Walk;
    var d := LargePageEntry(paddr, deviceMem);
    var a := Field(paddr, 12, 36);
    LargePageSum(paddr, deviceMem);
    EntryBits(if deviceMem then 3 else 0, a, if deviceMem then 0x401 else 0x411);
    SmallConstants();
    FieldOfField(d, 12, 36, 9, 27);
    FieldOfField(paddr, 12, 36, 9, 27);
  }

  lemma SmallConstants()
    ensures Field(0x401, 0, 1) == 1 && Field(0x401, 1, 1) == 0 && Field(0x401, 2, 3) == 0
    ensures Field(0x401, 7, 1) == 0 && Field(0x401, 10, 1) == 1
    ensures Field(0x411, 0, 1) == 1 && Field(0x411, 1, 1) == 0 && Field(0x411, 2, 3) == 4
    ensures Field(0x411, 7, 1) == 0 && Field(0x411, 10, 1) == 1
    ensures Field(3, 0, 1) == 1 && Field(3, 1, 1) == 1 && Field(0, 0, 1) == 0 && Field(0, 1, 1) == 0
    ensures Field(0, 4, 1) == 0 && Field(0, 5, 1) == 0 && Field(0, 7, 1) == 0
  {
    hide Field;
    DeviceConstants();
    NormalConstants();
    TableConstants();
  }

  lemma DeviceConstants()
    ensures Field(0x401, 0, 1) == 1 && Field(0x401, 1, 1) == 0 && Field(0x401, 2, 3) == 0
    ensures Field(0x401, 7, 1) == 0 && Field(0x401, 10, 1) == 1
  {
  }

  lemma NormalConstants()
    ensures Field(0x411, 0, 1) == 1 && Field(0x411, 1, 1) == 0 && Field(0x411, 2, 3) == 4
    ensures Field(0x411, 7, 1) == 0 && Field(0x411, 10, 1) == 1
  {
    AttributeConstant();
  }

  lemma AttributeConstant()
    ensures Field(0x411, 2, 3) == 4
  {
  }

  lemma TableConstants()
    ensures Field(3, 0, 1) == 1 && Field(3, 1, 1) == 1 && Field(0, 0, 1) == 0 && Field(0, 1, 1) == 0
    ensures Field(0, 4, 1) == 0 && Field(0, 5, 1) == 0 && Field(0, 7, 1) == 0
  {
  }

  /** Encoding and decoding are inverse on aligned addresses of 48 bits, and on no others. */
  lemma BlockAddressIff(paddr: nat)
    ensures Scale(Field(paddr, 21, 27), 21) == paddr <==> paddr % LARGE_PAGE == 0 && paddr < Pow2(48)
  {
    hide Pow2, Scale, Field;
    var q := Field(paddr, 21, 27);
    Pow2Table();
    ScaleIsProduct(q, 21);
    ScaleBound(q, 27, 21);
    BlockQuotient(paddr);
  }

  lemma BlockQuotient(paddr: nat)
    ensures paddr < Pow2(48) ==> Field(paddr, 21, 27) == paddr / LARGE_PAGE
  {
    hide Pow2, Shr, Low;
    Pow2Table();
    Pow2Step(24);
    var r := paddr / LARGE_PAGE;
    ShrByPower(paddr, 21, LARGE_PAGE, r);
    if paddr < Pow2(48) {
      LowId(r, 27);
    }
  }

  /** The index macros pick the gigabyte of the physical address. */
  lemma PdIndices(x: nat)
    requires x < 512 * GIB
    ensures KernelPdIndex(x) == IdentPdIndex(x) == x / GIB
  {
    hide Shr, And, Shl;
    var y := (x + KERNEL_VADDR_BASE) % TWO_64;
    assert y == if x + KERNEL_VADDR_BASE < TWO_64 then x + KERNEL_VADDR_BASE else x + KERNEL_VADDR_BASE - TWO_64;
    PdIndex(x, x / GIB, 0);
    assert x + KERNEL_VADDR_BASE < TWO_64;
    PdIndex(y, x / GIB, 0x1ff_ffff);
  }

  lemma PdIndex(y: nat, g: nat, above: nat)
    requires g < 512
    requires (above * 512 + g) * GIB <= y < (above * 512 + g) * GIB + GIB
    ensures Shr(And(y, Shl(0x1ff, 30)), 30) == g
  {
    hide Pow2, Scale, And, Shr, Low;
    Pow2Table();
    ScaleIsProduct(0x1ff, 30);
    MaskIsScaled(30, 9);
    AndField(y, 30, 9);
    var q := above * 512 + g;
    ShrByPower(y, 30, GIB, q);
    ScaleIsProduct(above, 9);
    Split(above, g, 9);
    Split(g, 0, 30);
  }
}
