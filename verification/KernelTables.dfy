/** Construction of the kernel and identity tables (kernel/src/mem.c) in physical
    memory, and the address map the hardware walk derives from them. */
module KernelTables {
  import opened Bits
  import opened Memory
  import opened Descriptors

  const TABLE_BYTES := 0x1000
  const PDS_BYTES := 0x20_0000

  /** Where one set of tables lies, which top-level slot it uses and which gigabyte of
      physical memory it maps as normal memory. */
  datatype TableSet = TableSet(pgd: nat, pud: nat, pds: nat, top: nat, normal: nat) {

    predicate Aligned(memory: nat) {
      && pgd % PAGE == 0 && pud % PAGE == 0 && pds % PAGE == 0
      && pgd + TABLE_BYTES <= memory && pud + TABLE_BYTES <= memory && pds + PDS_BYTES <= memory
      && pgd + TABLE_BYTES <= 0x1_0000_0000_0000 && pud + TABLE_BYTES <= 0x1_0000_0000_0000
      && pds + PDS_BYTES <= 0x1_0000_0000_0000
    }

    predicate Placed(memory: nat) {
      && Aligned(memory)
      && Apart(pgd, TABLE_BYTES, pud, TABLE_BYTES)
      && Apart(pgd, TABLE_BYTES, pds, PDS_BYTES)
      && Apart(pud, TABLE_BYTES, pds, PDS_BYTES)
    }

    predicate Covers(a: nat) {
      || pgd <= a < pgd + TABLE_BYTES
      || pud <= a < pud + TABLE_BYTES
      || pds <= a < pds + PDS_BYTES
    }

    function PgdEntry(i: nat): nat {
      if i == top then TableEntry(pud) else 0
    }

    function PudEntry(i: nat): nat {
      TableEntry(pds + PAGE * i)
    }

    /** Entry j of page directory i: the first gigabyte is device memory. */
    function PdEntry(i: nat, j: nat): nat {
      if i == 0 then LargePageEntry(LARGE_PAGE * j, true)
      else if i == normal then LargePageEntry(GIB * normal + LARGE_PAGE * j, false)
      else 0
    }

    /** The tables in memory, entry by entry. */
    ghost predicate Built(m: seq<byte>)
      requires Aligned(|m|)
    {
      && (forall i :: 0 <= i < 512 ==> Load64(m, pgd + 8 * i) == PgdEntry(i))
      && (forall i :: 0 <= i < 512 ==> Load64(m, pud + 8 * i) == PudEntry(i))
      && (forall i, j :: 0 <= i < 512 && 0 <= j < 512 ==> Load64(m, pds + PAGE * i + 8 * j) == PdEntry(i, j))
    }

    /** Static storage starts out zero. */
    ghost predicate Blank(m: seq<byte>) {
      forall a :: 0 <= a < |m| && Covers(a) ==> m[a] == 0
    }

    ghost predicate SameElsewhere(m: seq<byte>, m': seq<byte>) {
      |m| == |m'| && forall a :: 0 <= a < |m| && !Covers(a) ==> m[a] == m'[a]
    }
  }

  // ----- The builders -----

  lemma EntryRange(paddr: nat, deviceMem: bool)
    ensures TableEntry(paddr) < TWO_64 && LargePageEntry(paddr, deviceMem) < TWO_64
  {
    hide TableEntry, LargePageEntry, Scale, Field, Pow2;
    TableEntrySum(paddr);
    LargePageSum(paddr, deviceMem);
    ScaleBound(Field(paddr, 12, 36), 36, 12);
    SmallShifts();
    Pow2Table();
  }

  /** The loop that points every upper-directory entry at its page directory. */
  method FillPud(mem: array<byte>, pud: nat, pds: nat)
    requires pud + TABLE_BYTES <= mem.Length
    modifies mem
    ensures SameOutside(old(mem[..]), mem[..], pud, pud + TABLE_BYTES)
    ensures forall i :: 0 <= i < 512 ==> Load64(mem[..], pud + 8 * i) == TableEntry(pds + PAGE * i)
  {
    hide TableEntry, Load64;
    var i := 0;
    while i < 512
      invariant 0 <= i <= 512
      invariant SameOutside(old(mem[..]), mem[..], pud, pud + 8 * i)
      invariant forall k :: 0 <= k < i ==> Load64(mem[..], pud + 8 * k) == TableEntry(pds + PAGE * k)
    {
      ghost var before := mem[..];
      EntryRange(pds + PAGE * i, false);
      Store64(mem, pud + 8 * i, TableEntry(pds + PAGE * i));
      forall k | 0 <= k < i ensures Load64(mem[..], pud + 8 * k) == Load64(before, pud + 8 * k) {
        SameWord(before, mem[..], pud + 8 * i, 8, pud + 8 * k);
      }
      i := i + 1;
    }
  }

  lemma SameWord(m: seq<byte>, m': seq<byte>, lo: nat, size: nat, a: nat)
    requires SameOutside(m, m', lo, lo + size) && Apart(lo, size, a, 8) && a + 8 <= |m|
    ensures Load64(m, a) == Load64(m', a)
  {
    LoadSame(m, m', a, 8);
  }

  lemma ZeroWord(m: seq<byte>, a: nat)
    requires a + 8 <= |m| && forall k :: a <= k < a + 8 ==> m[k] == 0
    ensures Load64(m, a) == 0
  {
    LoadZero(m, a, 8);
  }

  lemma EqualWord(m: seq<byte>, m': seq<byte>, a: nat)
    requires a + 8 <= |m| && a + 8 <= |m'| && forall k :: a <= k < a + 8 ==> m[k] == m'[k]
    ensures Load64(m, a) == Load64(m', a)
  {
    LoadSame(m, m', a, 8);
  }

  function PdIndex(kernel: bool, x: nat): nat {
    if kernel then KernelPdIndex(x) else IdentPdIndex(x)
  }

  /** The loop that fills one page directory with 2 MiB blocks from `start`; the
      directory is chosen again by the index macro for every entry. */
  method FillLargePages(mem: array<byte>, pds: nat, start: nat, deviceMem: bool, kernel: bool)
    requires start % GIB == 0 && start < 512 * GIB && pds + PDS_BYTES <= mem.Length
    modifies mem
    ensures var pd := pds + PAGE * (start / GIB);
            && SameOutside(old(mem[..]), mem[..], pd, pd + TABLE_BYTES)
            && forall i :: 0 <= i < 512 ==>
                 Load64(mem[..], pd + 8 * i) == LargePageEntry(start + LARGE_PAGE * i, deviceMem)
  {
    hide LargePageEntry, Load64, PdIndex;
    ghost var pd := pds + PAGE * (start / GIB);
    var paddr := start;
    var i := 0;
    while i < 512
      invariant 0 <= i <= 512 && paddr == start + LARGE_PAGE * i
      invariant SameOutside(old(mem[..]), mem[..], pd, pd + 8 * i)
      invariant forall k :: 0 <= k < i ==>
        Load64(mem[..], pd + 8 * k) == LargePageEntry(start + LARGE_PAGE * k, deviceMem)
    {
      ghost var before := mem[..];
      EntryRange(paddr, deviceMem);
      PdIndexWithin(kernel, start, i);
      Store64(mem, pds + PAGE * PdIndex(kernel, paddr) + 8 * i, LargePageEntry(paddr, deviceMem));
      forall k | 0 <= k < i ensures Load64(mem[..], pd + 8 * k) == Load64(before, pd + 8 * k) {
        SameWord(before, mem[..], pd + 8 * i, 8, pd + 8 * k);
      }
      paddr := paddr + LARGE_PAGE;
      i := i + 1;
    }
  }

  lemma PdIndexWithin(kernel: bool, start: nat, i: nat)
    requires start % GIB == 0 && start < 512 * GIB && i < 512
    ensures PdIndex(kernel, start + LARGE_PAGE * i) == start / GIB < 512
  {
    hide KernelPdIndex, IdentPdIndex;
    PdIndices(start + LARGE_PAGE * i);
  }

  /** The body shared by both builders: the top-level entry, the upper directory, one
      gigabyte of device memory from address 0 and one of normal memory. */
  method FillTables(mem: array<byte>, t: TableSet, kernel: bool)
    requires t.Placed(mem.Length) && t.Blank(mem[..]) && t.top < 512 && 0 < t.normal < 512
    modifies mem
    ensures t.Built(mem[..])
    ensures t.SameElsewhere(old(mem[..]), mem[..])
  {
    hide TableEntry, LargePageEntry, Load64;
    ghost var m0 := mem[..];
    EntryRange(t.pud, false);
    Store64(mem, t.pgd + 8 * t.top, TableEntry(t.pud));
    ghost var m1 := mem[..];
    FillPud(mem, t.pud, t.pds);
    ghost var m2 := mem[..];
    FillLargePages(mem, t.pds, 0, true, kernel);
    ghost var m3 := mem[..];
    FillLargePages(mem, t.pds, GIB * t.normal, false, kernel);
    PgdBuilt(t, m0, m1, m2, m3, mem[..]);
    PudBuilt(t, m2, m3, mem[..]);
    PdsBuilt(t, m0, m1, m2, m3, mem[..]);
  }

  ghost predicate Steps(t: TableSet, m0: seq<byte>, m1: seq<byte>, m2: seq<byte>, m3: seq<byte>, m4: seq<byte>) {
    && SameOutside(m0, m1, t.pgd + 8 * t.top, t.pgd + 8 * t.top + 8)
    && SameOutside(m1, m2, t.pud, t.pud + TABLE_BYTES)
    && SameOutside(m2, m3, t.pds, t.pds + TABLE_BYTES)
    && SameOutside(m3, m4, t.pds + PAGE * t.normal, t.pds + PAGE * t.normal + TABLE_BYTES)
  }

  lemma PgdBuilt(t: TableSet, m0: seq<byte>, m1: seq<byte>, m2: seq<byte>, m3: seq<byte>, m4: seq<byte>)
    requires t.Placed(|m0|) && t.Blank(m0) && t.top < 512 && 0 < t.normal < 512
    requires Steps(t, m0, m1, m2, m3, m4)
    requires Load64(m1, t.pgd + 8 * t.top) == TableEntry(t.pud)
    ensures forall i :: 0 <= i < 512 ==> Load64(m4, t.pgd + 8 * i) == t.PgdEntry(i)
  {
    hide TableEntry, Load64;
    forall i | 0 <= i < 512 ensures Load64(m4, t.pgd + 8 * i) == t.PgdEntry(i) {
      var a := t.pgd + 8 * i;
      EqualWord(m4, m1, a);
      if i != t.top {
        ZeroWord(m1, a);
      }
    }
  }

  lemma PudBuilt(t: TableSet, m2: seq<byte>, m3: seq<byte>, m4: seq<byte>)
    requires t.Placed(|m2|) && 0 < t.normal < 512
    requires SameOutside(m2, m3, t.pds, t.pds + TABLE_BYTES)
    requires SameOutside(m3, m4, t.pds + PAGE * t.normal, t.pds + PAGE * t.normal + TABLE_BYTES)
    requires forall i :: 0 <= i < 512 ==> Load64(m2, t.pud + 8 * i) == TableEntry(t.pds + PAGE * i)
    ensures forall i :: 0 <= i < 512 ==> Load64(m4, t.pud + 8 * i) == t.PudEntry(i)
  {
    hide TableEntry, Load64;
    forall i | 0 <= i < 512 ensures Load64(m4, t.pud + 8 * i) == t.PudEntry(i) {
      EqualWord(m4, m2, t.pud + 8 * i);
    }
  }

  lemma PdsBuilt(t: TableSet, m0: seq<byte>, m1: seq<byte>, m2: seq<byte>, m3: seq<byte>, m4: seq<byte>)
    requires t.Placed(|m0|) && t.Blank(m0) && t.top < 512 && 0 < t.normal < 512
    requires Steps(t, m0, m1, m2, m3, m4)
    requires forall i :: 0 <= i < 512 ==> Load64(m3, t.pds + 8 * i) == LargePageEntry(LARGE_PAGE * i, true)
    requires forall i :: 0 <= i < 512 ==>
      Load64(m4, t.pds + PAGE * t.normal + 8 * i) == LargePageEntry(GIB * t.normal + LARGE_PAGE * i, false)
    ensures forall i, j :: 0 <= i < 512 && 0 <= j < 512 ==> Load64(m4, t.pds + PAGE * i + 8 * j) == t.PdEntry(i, j)
  {
    hide LargePageEntry, Load64;
    forall i, j | 0 <= i < 512 && 0 <= j < 512
      ensures Load64(m4, t.pds + PAGE * i + 8 * j) == t.PdEntry(i, j)
    {
      var a := t.pds + PAGE * i + 8 * j;
      if i == 0 {
        EqualWord(m4, m3, a);
      } else if i != t.normal {
        ZeroWord(m4, a);
      }
    }
  }

  /** kernel_setup_traslation_tables: slot 511, normal memory from 2 GiB. */
  function KernelSet(pgd: nat, pud: nat, pds: nat): TableSet {
    TableSet(pgd, pud, pds, 511, 2)
  }

  /** setup_ident_map: slot 0, normal memory from 1 GiB. */
  function IdentSet(pgd: nat, pud: nat, pds: nat): TableSet {
    TableSet(pgd, pud, pds, 0, 1)
  }

  const QEMU_PHYS_MEM_START := 0x4000_0000
  const QEMU_MEM_SIZE := 0x8000_0000

  method KernelSetupTranslationTables(mem: array<byte>, pgd: nat, pud: nat, pds: nat)
    requires KernelSet(pgd, pud, pds).Placed(mem.Length) && KernelSet(pgd, pud, pds).Blank(mem[..])
    modifies mem
    ensures KernelSet(pgd, pud, pds).Built(mem[..])
    ensures KernelSet(pgd, pud, pds).SameElsewhere(old(mem[..]), mem[..])
  {
    hide TableSet.Built, TableSet.Placed, TableSet.Blank, TableSet.SameElsewhere;
    FillTables(mem, TableSet(pgd, pud, pds, 511, (QEMU_PHYS_MEM_START + QEMU_MEM_SIZE / 2) / GIB), true);
  }

  method SetupIdentMap(mem: array<byte>, pgd: nat, pud: nat, pds: nat)
    requires IdentSet(pgd, pud, pds).Placed(mem.Length) && IdentSet(pgd, pud, pds).Blank(mem[..])
    modifies mem
    ensures IdentSet(pgd, pud, pds).Built(mem[..])
    ensures IdentSet(pgd, pud, pds).SameElsewhere(old(mem[..]), mem[..])
  {
    hide TableSet.Built, TableSet.Placed, TableSet.Blank, TableSet.SameElsewhere;
    FillTables(mem, TableSet(pgd, pud, pds, 0, QEMU_PHYS_MEM_START / GIB), false);
  }
}
