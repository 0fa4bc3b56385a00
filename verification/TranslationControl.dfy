/** TCR_EL1 as kernel/src/mmu.S assembles it, and the walk geometry it selects. */
module TranslationControl {
  import opened Bits

  /** The instruction `bfi`: the low len bits of y replace bits lo .. lo+len-1 of x. */
  function Bfi(x: nat, y: nat, lo: nat, len: nat): nat {
    Scale(Shr(x, lo + len), lo + len) + Scale(Low(y, len), lo) + Low(x, lo)
  }

  function TxSz(bits: nat): nat
    requires bits <= 64
  {
    Or(64 - bits, Shl(64 - bits, 16))
  }

  const IRGN_WBWA := Or(Shl(1, 8), Shl(1, 24))
  const ORGN_WBWA := Or(Shl(1, 10), Shl(1, 26))
  const TG0_4K := Shl(0, 14)
  const TG1_4K := Shl(2, 30)
  const ASID16 := Shl(1, 36)

  /** The constant, with the physical address size of ID_AA64MMFR0_EL1 inserted. */
  function Tcr(mmfr0: nat): nat {
    Bfi(Or(Or(Or(Or(Or(TxSz(48), IRGN_WBWA), ORGN_WBWA), TG0_4K), TG1_4K), ASID16), mmfr0, 32, 3)
  }

  lemma Shifts()
    ensures Shl(16, 16) == Scale(1, 20) == 0x10_0000
    ensures Shl(1, 8) == Scale(1, 8) == 0x100 && Shl(1, 24) == Scale(1, 24) == 0x100_0000
    ensures Shl(1, 10) == Scale(1, 10) == 0x400 && Shl(1, 26) == Scale(1, 26) == 0x400_0000
    ensures Shl(0, 14) == 0 && Shl(2, 30) == Scale(1, 31) == 0x8000_0000
    ensures Shl(1, 36) == Scale(1, 36) == 0x10_0000_0000
    ensures Scale(0x11, 20) == 0x110_0000
  {
    hide Pow2, Scale;
    Pow2Table();
    Pow2Step(16);
    Pow2Step(24);
    ScaleIsProduct(16, 16);
    ScaleIsProduct(1, 20);
    ScaleIsProduct(1, 8);
    ScaleIsProduct(1, 24);
    ScaleIsProduct(1, 10);
    ScaleIsProduct(1, 26);
    ScaleIsProduct(0, 14);
    ScaleIsProduct(2, 30);
    ScaleIsProduct(1, 31);
    ScaleIsProduct(1, 36);
    ScaleIsProduct(0x11, 20);
  }

  /** Sizes and cacheability, ORed field by field. */
  lemma LowConstant()
    ensures Or(Or(TxSz(48), IRGN_WBWA), ORGN_WBWA) == 0x510_0510
  {
    hide Pow2, Scale, Or, Shl;
    Pow2Table();
    Pow2Step(16);
    Pow2Step(24);
    Shifts();
    OrDisjoint(20, 1, 0x10);
    OrDisjoint(24, 1, 0x100);
    OrDisjoint(8, 1, 0x10);
    OrLowPart(20, 1, 0x10, 0x100);
    OrCommutes(0x100, 0x10_0010);
    OrLowPart(24, 1, 0x100, 0x10_0010);
    OrCommutes(0x10_0010, 0x100_0100);
    OrDisjoint(26, 1, 0x400);
    OrDisjoint(10, 1, 0x110);
    OrLowPart(20, 0x11, 0x110, 0x400);
    OrCommutes(0x400, 0x110_0110);
    OrLowPart(26, 1, 0x400, 0x110_0110);
    OrCommutes(0x110_0110, 0x400_0400);
  }

  lemma TcrValue(mmfr0: nat)
    ensures Tcr(mmfr0) == 0x10_8510_0510 + Scale(Low(mmfr0, 3), 32)
    ensures Low(mmfr0, 3) < 8
  {
    hide Pow2, Scale, Or, Shl, Low, Shr;
    Pow2Table();
    Pow2Step(24);
    Shifts();
    LowConstant();
    OrZero(0x510_0510);
    OrDisjoint(31, 1, 0x510_0510);
    OrDisjoint(36, 1, 0x8510_0510);
    ShrByPower(0x10_8510_0510, 32, TWO_32, 0x10);
    ShrByPower(0x10, 3, 8, 2);
    ShrShr(0x10_8510_0510, 32, 3);
    ScaleScale(2, 3, 32);
    ScaleIsProduct(2, 3);
    ScaleIsProduct(0x10, 32);
  }

  /** Both halves of the address space have 48 bits and 4 KiB granules, walks are enabled,
      top bytes are not ignored, and the physical size is the processor's. */
  lemma TcrSelectsWalk(mmfr0: nat)
    ensures var tcr := Tcr(mmfr0);
            && Field(tcr, 0, 6) == 64 - 48 && Field(tcr, 16, 6) == 64 - 48
            && Field(tcr, 14, 2) == 0 && Field(tcr, 30, 2) == 2
            && Field(tcr, 7, 1) == 0 && Field(tcr, 23, 1) == 0
            && Field(tcr, 32, 3) == Low(mmfr0, 3) && Field(tcr, 37, 2) == 0
  {
    hide Field, Scale, Tcr;
    var ips := Low(mmfr0, 3);
    TcrValue(mmfr0);
    assert Scale(ips, 32) == ips * TWO_32 by { ScaleBy32(ips); }
    LowFields(Tcr(mmfr0), ips);
    HighFields(Tcr(mmfr0), ips);
  }

  lemma ScaleBy32(x: nat)
    ensures Scale(x, 32) == x * TWO_32
  {
    hide Pow2, Scale;
    Pow2Table();
    ScaleIsProduct(x, 32);
  }

  lemma LowFields(tcr: nat, ips: nat)
    requires tcr == 0x10_8510_0510 + ips * TWO_32 && ips < 8
    ensures Field(tcr, 0, 6) == 16 && Field(tcr, 7, 1) == 0 && Field(tcr, 14, 2) == 0
    ensures Field(tcr, 16, 6) == 16 && Field(tcr, 23, 1) == 0
  {
    hide Pow2, Field;
    Pow2Table();
    Pow2Step(0);
    Pow2Step(8);
    Pow2Step(16);
    var high := 0x10_8510 + ips * 0x1_0000;
    FieldIs(tcr, 0, 1, tcr, 6, 64, tcr / 64);
    FieldIs(tcr, 7, 0x80, high * 0x200 + 0xa, 1, 2, high * 0x100 + 5);
    FieldIs(tcr, 14, 0x4000, high * 4, 2, 4, high);
    FieldIs(tcr, 16, 0x1_0000, high, 6, 64, high / 64);
    FieldIs(tcr, 23, 0x80_0000, high / 0x80, 1, 2, high / 0x100);
  }

  lemma HighFields(tcr: nat, ips: nat)
    requires tcr == 0x10_8510_0510 + ips * TWO_32 && ips < 8
    ensures Field(tcr, 30, 2) == 2 && Field(tcr, 32, 3) == ips && Field(tcr, 37, 2) == 0
  {
    hide Pow2, Field;
    Pow2Table();
    Pow2Step(32);
    FieldIs(tcr, 30, 0x4000_0000, (0x10 + ips) * 4 + 2, 2, 4, 0x10 + ips);
    FieldIs(tcr, 32, TWO_32, 0x10 + ips, 3, 8, 2);
    FieldIs(tcr, 37, 0x20_0000_0000, 0, 2, 4, 0);
  }

  lemma FieldIs(x: nat, lo: nat, p: nat, q: nat, len: nat, r: nat, above: nat)
    requires p == Pow2(lo) && q * p <= x < q * p + p
    requires r == Pow2(len) && above * r <= q < above * r + r
    ensures Field(x, lo, len) == q - above * r
  {
    hide Pow2, Low, Shr;
    ShrByPower(x, lo, p, q);
    ShrByPower(q, len, r, above);
  }
}
