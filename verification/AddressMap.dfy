/** What the finished tables mean: the translation of every 64-bit virtual address,
    and the consistency of memory types across both tables. */
module AddressMap {
  import opened Bits
  import opened Memory
  import opened Translation
  import opened Descriptors
  import opened KernelTables

  // ----- The registers written by el1_mmu_enable -----

  const DEVICE_nGnRnE: nat := 0
  const NORMAL_WRITE_BACK: nat := 0xff

  /** MAIR_EL1, as kernel/src/mmu.S assembles it. */
  function Mair(): nat {
    Or(Or(Or(Or(Shl(0x00, 0), Shl(0x04, 8)), Shl(0x0c, 16)), Shl(0x44, 24)), Shl(0xff, 32))
  }

  /** Entries 0 and 4, the two that the descriptors use. */
  lemma MairTypes()
    ensures Field(Mair(), 0, 8) == DEVICE_nGnRnE
    ensures Field(Mair(), 32, 8) == NORMAL_WRITE_BACK
    ensures forall ident, kernel :: Tables(ident, kernel, Mair()).Typed()
  {
    hide Pow2, Scale, Or, Field;
    Pow2Table();
    MairShifts();
    ScaleIsProduct(0xff, 32);
    OrZero(0x400);
    ScaleIsProduct(0x0c, 16);
    OrDisjoint(16, 0x0c, 0x400);
    Pow2Step(16);
    ScaleIsProduct(0x44, 24);
    OrDisjoint(24, 0x44, 0xc0400);
    OrDisjoint(32, 0xff, 0x440c0400);
    MairFields(0xff_440c_0400);
  }

  lemma MairShifts()
    ensures Shl(0x00, 0) == 0 && Shl(0x04, 8) == 0x400 && Shl(0x0c, 16) == 0xc_0000
    ensures Shl(0x44, 24) == 0x4400_0000 && Shl(0xff, 32) == 0xff_0000_0000
  {
    hide Pow2, Scale;
    Pow2Table();
    Pow2Step(16);
    ScaleIsProduct(0, 0);
    ScaleIsProduct(0x04, 8);
    ScaleIsProduct(0x0c, 16);
    ScaleIsProduct(0x44, 24);
    ScaleIsProduct(0xff, 32);
  }

  lemma MairFields(mair: nat)
    requires mair == 0xff_440c_0400
    ensures Field(mair, 0, 8) == 0 && Field(mair, 32, 8) == 0xff
  {
    hide Pow2, Scale, Low;
    Pow2Table();
    ShrByPower(mair, 32, TWO_32, 0xff);
    LowId(0xff, 8);
    ShrByPower(mair, 8, 0x100, 0xff_440c04);
  }

  // ----- One set of tables -----

  /** Reading a finished set of tables for one address. */
  function TableMap(t: TableSet, mair: nat, va: nat): Outcome {
    var gigabyte := Field(va, 30, 9);
    if Field(va, 39, 9) != t.top then Fault
    else if gigabyte == 0 then
      Mapped(Low(va, 30), Field(mair, 0, 8), ExecuteNever(true, true), false)
    else if gigabyte == t.normal then
      Mapped(Scale(gigabyte, 30) + Low(va, 30), Field(mair, 32, 8), ExecuteNever(false, false), false)
    else Fault
  }

  lemma WalkOfBuilt(m: seq<byte>, regs: Regs, t: TableSet, va: nat)
    requires t.Aligned(|m|) && t.Built(m) && t.top < 512 && 0 < t.normal < 512
    ensures Walk(m, regs, t.pgd, va, 0, NONE) == TableMap(t, regs.mair, va)
  {
    hide Pow2, Scale, Field, Load64, Descend, TableEntry, TableSet.PdEntry, TableSet.Built, Low;
    var i, g := Field(va, 39, 9), Field(va, 30, 9);
    IndexRange(va);
    Slots(m, t, i, g, Field(va, 21, 9));
    assert Walk(m, regs, t.pgd, va, 0, NONE) == Descend(m, regs, t.PgdEntry(i), va, 0, NONE);
    if i == t.top {
      TableEntryLeads(m, regs, t.pud, va, 0);
      PageAddress(t.pud);
      assert Walk(m, regs, t.pud, va, 1, NONE) == Descend(m, regs, t.PudEntry(g), va, 1, NONE);
      TableEntryLeads(m, regs, t.pds + PAGE * g, va, 1);
      PageAddress(t.pds + PAGE * g);
      DirectoryMap(m, regs, t, va);
    } else {
      ZeroFaults(m, regs, va, 0);
    }
  }

  lemma IndexRange(va: nat)
    ensures Field(va, 39, 9) < 512 && Field(va, 30, 9) < 512 && Field(va, 21, 9) < 512
  {
    hide Field, Pow2;
    Pow2Table();
  }

  /** The three entries a walk can meet. */
  lemma Slots(m: seq<byte>, t: TableSet, i: nat, g: nat, j: nat)
    requires t.Aligned(|m|) && t.Built(m) && i < 512 && g < 512 && j < 512
    ensures Load64(m, t.pgd + 8 * i) == t.PgdEntry(i)
    ensures Load64(m, t.pud + 8 * g) == t.PudEntry(g)
    ensures Load64(m, t.pds + PAGE * g + 8 * j) == t.PdEntry(g, j)
  {
    hide Load64, TableSet.PgdEntry, TableSet.PudEntry, TableSet.PdEntry;
  }

  lemma PageAddress(a: nat)
    requires a % PAGE == 0 && a < 0x1_0000_0000_0000
    ensures Scale(Field(a, 12, 36), 12) == a
  {
    hide Pow2, Scale, Low;
    Pow2Table();
    ShrByPower(a, 12, PAGE, a / PAGE);
    LowId(a / PAGE, 36);
    ScaleIsProduct(a / PAGE, 12);
  }

  lemma ZeroFaults(m: seq<byte>, regs: Regs, va: nat, level: nat)
    requires level <= 3
    ensures Descend(m, regs, 0, va, level, NONE) == Fault
  {
    hide Walk, Leaf;
    SmallConstants();
  }

  /** The page directory level: a block of device memory, a block of normal memory, or nothing. */
  lemma DirectoryMap(m: seq<byte>, regs: Regs, t: TableSet, va: nat)
    requires t.Aligned(|m|) && t.Built(m) && 0 < t.normal < 512
    ensures var g := Field(va, 30, 9);
            Walk(m, regs, t.pds + PAGE * g, va, 2, NONE) ==
            if g == 0 then Mapped(Low(va, 30), Field(regs.mair, 0, 8), ExecuteNever(true, true), false)
            else if g == t.normal then
              Mapped(Scale(g, 30) + Low(va, 30), Field(regs.mair, 32, 8), ExecuteNever(false, false), false)
            else Fault
  {
    hide Pow2, Scale, Field, Load64, Descend, LargePageEntry, TableSet.Built, Low;
    var g, j := Field(va, 30, 9), Field(va, 21, 9);
    IndexRange(va);
    Slots(m, t, 0, g, j);
    assert Walk(m, regs, t.pds + PAGE * g, va, 2, NONE) == Descend(m, regs, t.PdEntry(g, j), va, 2, NONE);
    BlockOffset(g, j, va);
    if g == 0 {
      LargePageMaps(m, regs, LARGE_PAGE * j, true, va);
    } else if g == t.normal {
      LargePageMaps(m, regs, GIB * t.normal + LARGE_PAGE * j, false, va);
    } else {
      ZeroFaults(m, regs, va, 2);
    }
  }

  /** Block j of gigabyte g, and the offset into it, rebuild the offset into the gigabyte. */
  lemma BlockOffset(g: nat, j: nat, va: nat)
    requires g < 512 && j == Field(va, 21, 9) < 512
    ensures var paddr := GIB * g + LARGE_PAGE * j;
            Scale(Field(paddr, 21, 27), 21) + Low(va, 21) == Scale(g, 30) + Low(va, 30)
    ensures g == 0 ==> Scale(g, 30) == 0
  {
    hide Pow2, Scale, Field, Low;
    var paddr := GIB * g + LARGE_PAGE * j;
    Pow2Table();
    BlockAddressIff(paddr);
    ScaleIsProduct(g, 30);
    ScaleIsProduct(j, 21);
    LowSplit(va, 21, 9);
  }

  // ----- The address space -----

  /** Both sets of tables, at the addresses the translation table base registers hold, and
      the memory attribute register. */
  datatype Tables = Tables(ident: TableSet, kernel: TableSet, mair: nat) {
    function Registers(): Regs {
      Regs(ident.pgd, kernel.pgd, mair)
    }

    /** The two attribute entries that descriptors use; see MairTypes. */
    predicate Typed() {
      Field(mair, 0, 8) == DEVICE_nGnRnE && Field(mair, 32, 8) == NORMAL_WRITE_BACK
    }

    ghost predicate Ready(m: seq<byte>) {
      && ident == IdentSet(ident.pgd, ident.pud, ident.pds)
      && kernel == KernelSet(kernel.pgd, kernel.pud, kernel.pds)
      && ident.Aligned(|m|) && ident.Built(m)
      && kernel.Aligned(|m|) && kernel.Built(m)
      && Typed()
    }
  }

  const DEVICE_XN := ExecuteNever(true, true)
  const EXECUTABLE := ExecuteNever(false, false)

  /** The intended map: the low half maps the first two gigabytes to themselves, the
      kernel window maps gigabytes 0 and 2; first gigabytes are device memory. */
  function Intended(va: nat): Outcome {
    if va < GIB then Mapped(va, DEVICE_nGnRnE, DEVICE_XN, false)
    else if va < 2 * GIB then Mapped(va, NORMAL_WRITE_BACK, EXECUTABLE, false)
    else if KERNEL_VADDR_BASE <= va < KERNEL_VADDR_BASE + GIB then
      Mapped(va - KERNEL_VADDR_BASE, DEVICE_nGnRnE, DEVICE_XN, false)
    else if KERNEL_VADDR_BASE + 2 * GIB <= va < KERNEL_VADDR_BASE + 3 * GIB then
      Mapped(va - KERNEL_VADDR_BASE, NORMAL_WRITE_BACK, EXECUTABLE, false)
    else Fault
  }

  /** Every 64-bit virtual address translates as intended. */
  lemma TranslationIsIntended(m: seq<byte>, t: Tables, va: nat)
    requires t.Ready(m) && va < TWO_64
    ensures Translate(m, t.Registers(), va) == Intended(va)
  {
    hide Pow2, Scale, Field, Low, Shr, Walk, TableMap, TableSet.Built;
    TopBits(va);
    if va < 0x1_0000_0000_0000 {
      WalkOfBuilt(m, t.Registers(), t.ident, va);
      LowHalf(t.ident, t.mair, va);
    } else if va >= 0xffff_0000_0000_0000 {
      WalkOfBuilt(m, t.Registers(), t.kernel, va);
      HighHalf(t.kernel, t.mair, va);
    }
  }

  lemma TopBits(va: nat)
    requires va < TWO_64
    ensures Shr(va, 48) == va / 0x1_0000_0000_0000
  {
    hide Pow2, Shr;
    Pow2Table();
    ShrByPower(va, 48, 0x1_0000_0000_0000, va / 0x1_0000_0000_0000);
  }

  /** The index fields of an address are its quotients. */
  lemma Indices(va: nat)
    ensures Field(va, 39, 9) == va / 0x80_0000_0000 % 512
    ensures Field(va, 30, 9) == va / GIB % 512
    ensures Low(va, 30) == va % GIB
    ensures Scale(va / GIB % 512, 30) == va / GIB % 512 * GIB
  {
    hide Pow2, Scale, Shr, Low;
    Pow2Table();
    var top, g := va / 0x80_0000_0000, va / GIB;
    ShrByPower(va, 39, 0x80_0000_0000, top);
    ShrByPower(va, 30, GIB, g);
    ShrByPower(top, 9, 512, top / 512);
    ShrByPower(g, 9, 512, g / 512);
    ScaleIsProduct(g % 512, 30);
  }

  lemma LowHalf(t: TableSet, mair: nat, va: nat)
    requires Field(mair, 0, 8) == DEVICE_nGnRnE && Field(mair, 32, 8) == NORMAL_WRITE_BACK
    requires t.top == 0 && t.normal == 1 && va < 0x1_0000_0000_0000
    ensures TableMap(t, mair, va) == Intended(va)
  {
    hide Pow2, Scale, Low, Field;
    Indices(va);
  }

  lemma HighHalf(t: TableSet, mair: nat, va: nat)
    requires Field(mair, 0, 8) == DEVICE_nGnRnE && Field(mair, 32, 8) == NORMAL_WRITE_BACK
    requires t.top == 511 && t.normal == 2 && 0xffff_0000_0000_0000 <= va < TWO_64
    ensures TableMap(t, mair, va) == Intended(va)
  {
    hide Pow2, Scale, Low, Field;
    Indices(va);
    assert va / 0x80_0000_0000 % 512 == 511 <==> va >= KERNEL_VADDR_BASE;
    if va >= KERNEL_VADDR_BASE {
      var x := va - KERNEL_VADDR_BASE;
      assert va == 0x3ff_fffe00 * GIB + x;
      assert va / GIB % 512 == x / GIB && va % GIB == x % GIB;
    }
  }

  /** No physical address has two memory types, and no normal address is mapped twice. */
  lemma AttributesConsistent(m: seq<byte>, t: Tables, va: nat, va': nat)
    requires t.Ready(m) && va < TWO_64 && va' < TWO_64
    requires Translate(m, t.Registers(), va).Mapped? && Translate(m, t.Registers(), va').Mapped?
    requires Translate(m, t.Registers(), va).pa == Translate(m, t.Registers(), va').pa
    ensures Translate(m, t.Registers(), va) == Translate(m, t.Registers(), va')
    ensures Translate(m, t.Registers(), va).attr == NORMAL_WRITE_BACK ==> va == va'
  {
    hide Translate, Tables.Ready;
    TranslationIsIntended(m, t, va);
    TranslationIsIntended(m, t, va');
  }
}
