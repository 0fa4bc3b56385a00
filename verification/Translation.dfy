/** The stage 1 translation table walk of section D8.3 of the Arm Architecture
    Reference Manual (DDI 0487): 4 KiB granule, 48-bit addresses, four levels.
    Nothing here comes from the kernel; it is what the hardware does with the
    tables the kernel writes. */
module Translation {
  import opened Bits
  import opened Memory

  /** Registers that steer the walk. */
  datatype Regs = Regs(ttbr0: nat, ttbr1: nat, mair: nat)

  /** `attr` is the byte of MAIR_EL1 that the leaf descriptor selects. */
  datatype Outcome =
    | Fault
    | Mapped(pa: nat, attr: nat, xn: ExecuteNever, readOnly: bool)

  datatype ExecuteNever = ExecuteNever(user: bool, privileged: bool)

  /** Restrictions collected from table descriptors on the way down. */
  datatype Inherited = Inherited(xn: ExecuteNever, readOnly: bool)

  function Bit(x: nat, k: nat): bool {
    Field(x, k, 1) == 1
  }

  /** Translation of a 64-bit virtual address: the top 16 bits choose the table. */
  function Translate(m: seq<byte>, regs: Regs, va: nat): Outcome {
    var none := Inherited(ExecuteNever(false, false), false);
    if Shr(va, 48) == 0 then Walk(m, regs, regs.ttbr0, va, 0, none)
    else if Shr(va, 48) == 0xffff then Walk(m, regs, regs.ttbr1, va, 0, none)
    else Fault
  }

  /** The lowest address bit that a descriptor at this level resolves. */
  function LevelShift(level: nat): nat
    requires level <= 3
  {
    39 - 9 * level
  }

  function Walk(m: seq<byte>, regs: Regs, table: nat, va: nat, level: nat, above: Inherited): Outcome
    requires level <= 3
    decreases 3 - level, 1, va
  {
    var slot := table + 8 * Field(va, LevelShift(level), 9);
    if slot + 8 > |m| then Fault
    else Descend(m, regs, Load64(m, slot), va, level, above)
  }

  /** What one descriptor says: invalid, table, block or page. */
  function Descend(m: seq<byte>, regs: Regs, d: nat, va: nat, level: nat, above: Inherited): Outcome
    requires level <= 3
    decreases 3 - level, 0, va
  {
    if !Bit(d, 0) then Fault
    else if Bit(d, 1) then
      if level == 3 then Leaf(regs, d, va, 12, above)
      else Walk(m, regs, Scale(Field(d, 12, 36), 12), va, level + 1,
                Inherited(ExecuteNever(above.xn.user || Bit(d, 60), above.xn.privileged || Bit(d, 59)),
                          above.readOnly || Bit(d, 62)))
    else if level == 1 || level == 2 then Leaf(regs, d, va, LevelShift(level), above)
    else Fault
  }

  /** A block or page descriptor covering 2^shift bytes; a clear access flag faults. */
  function Leaf(regs: Regs, d: nat, va: nat, shift: nat, above: Inherited): Outcome
    requires shift <= 48
  {
    if !Bit(d, 10) then Fault
    else Mapped(Scale(Field(d, shift, 48 - shift), shift) + Low(va, shift),
                Field(regs.mair, 8 * Field(d, 2, 3), 8),
                ExecuteNever(above.xn.user || Bit(d, 54), above.xn.privileged || Bit(d, 53)),
                above.readOnly || Bit(d, 7))
  }
}
