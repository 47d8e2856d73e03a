/** CSRs by number: what each holds, who may access it, and what an instruction leaves in rd. */
module CsrNumbers {
  import opened Words
  import opened Trap
  import opened StatusBits
  import opened TrapProofs
  import opened Csr
  import opened Core
  import opened CsrRules
  import opened CsrViews
  import opened Protection
  import opened Privilege
  import opened PmpLocks
  import Pmp

  // The registers of section 2.2 of the Privileged Spec

  /** The four bytes of a pmpcfg register, the lowest entry in the lowest byte. */
  function CfgBytes(p: Pmp.PmpState, r: nat): Word
    requires p.Valid() && r < 4
  {
    var b0: int, b1: int, b2: int, b3: int := p.cfg[4 * r], p.cfg[4 * r + 1], p.cfg[4 * r + 2], p.cfg[4 * r + 3];
    b0 + 0x100 * b1 + 0x1_0000 * b2 + 0x100_0000 * b3
  }

  /** The whole register behind a number; shared registers stand behind two. */
  function Named(s: State, a: CsrAddress): Option<bv32>
    requires s.Valid()
  {
    if a == 0x100 || a == 0x300 then Some(s.trap.status)
    else if a == 0x104 || a == 0x304 then Some(s.trap.ie)
    else if a == 0x144 || a == 0x344 then Some(s.trap.ip)
    else if 0x300 <= a < 0x345 then NamedOf(s.trap.m, a - 0x200)
    else if 0x100 <= a < 0x145 && a != 0x101 then NamedOf(s.trap.s, a)
    else if a == 0x180 then Some(Bits(s.satp))
    else if 0x3A0 <= a < 0x3A4 then Some(Bits(CfgBytes(s.pmp, a - 0x3A0)))
    else if 0x3B0 <= a < 0x3C0 then Some(Bits(s.pmp.addr[a - 0x3B0]))
    else None
  }

  /** The registers that a level has for itself, by their supervisor numbers; only machine mode has misa. */
  function NamedOf(r: LevelRegs, a: int): Option<bv32> {
    if a == 0x101 then Some(Bits(r.isa))
    else if a == 0x102 then Some(r.edeleg)
    else if a == 0x103 then Some(r.ideleg)
    else if a == 0x105 then Some(Bits(r.tvec))
    else if a == 0x140 then Some(Bits(r.scratch))
    else if a == 0x141 then Some(Bits(r.epc))
    else if a == 0x142 then Some(Bits(r.cause))
    else if a == 0x143 then Some(Bits(r.tval))
    else None
  }

  // Fields of mstatus, from the top
  const SD: bv32 := 0x8000_0000
  const TRAPPING: bv32 := 0x70_0000
  const ACCESS_CONTROL: bv32 := 0xC_0000
  const LOAN: bv32 := 0x2_0000
  const XS: bv32 := 0x1_8000
  const FS: bv32 := 0x6000
  const MPP_FIELD: bv32 := 0x1800
  const SPP_FIELD: bv32 := 0x100
  const MACHINE_ENABLES: bv32 := 0x88
  const SUPERVISOR_ENABLES: bv32 := 0x22
  const USER_ENABLES: bv32 := 0x11

  /** The bits that a number shows and lets be written. */
  function NamedMask(a: CsrAddress): bv32 {
    if a == 0x100 then SD | ACCESS_CONTROL | XS | FS | SPP_FIELD | SUPERVISOR_ENABLES | USER_ENABLES
    else if a == 0x300 then
      SD | TRAPPING | ACCESS_CONTROL | LOAN | XS | FS | MPP_FIELD | SPP_FIELD
      | MACHINE_ENABLES | SUPERVISOR_ENABLES | USER_ENABLES
    else if a == 0x103 || a == 0x104 || a == 0x144 then 0x333
    else if a == 0x303 || a == 0x304 || a == 0x344 then 0xBBB
    else if a == 0x302 then 0xFFFF & !0xC00
    else if a == 0x102 then 0xFFFF & !0xE00
    else if a == 0x105 || a == 0x305 then !3
    else if a == 0x180 then 0x8000_0000 | 0x3F_FFFF
    else 0xFFFF_FFFF
  }

  lemma MasksAreFields()
    ensures SSTATUS_MASK == NamedMask(0x100) && MSTATUS_MASK == NamedMask(0x300)
    ensures MEDELEG_MASK == NamedMask(0x302) && SEDELEG_MASK == NamedMask(0x102)
    ensures TVEC_MASK == NamedMask(0x305) && TVEC_MASK == NamedMask(0x105) && SATP_MASK == NamedMask(0x180)
    ensures ALL == 0xFFFF_FFFF && SIP_SIE_MASK == 0x333 && MIP_MIE_MASK == 0xBBB
  {
  }

  /** A number has one of these numbers if it names a register. */
  lemma NamedNumbers(s: State, a: CsrAddress)
    requires s.Valid() && Named(s, a).Some?
    ensures a == 0x300 || a == 0x301 || a == 0x302 || a == 0x303 || a == 0x304 || a == 0x305
         || 0x340 <= a <= 0x344 || a == 0x100 || a == 0x102 || a == 0x103 || a == 0x104 || a == 0x105
         || 0x140 <= a <= 0x144 || a == 0x180 || 0x3A0 <= a < 0x3A4 || 0x3B0 <= a < 0x3C0
  {
    hide Bits;
  }

  /** What stands behind a supervisor or machine number of the trap unit. */
  function NamedReg(a: CsrAddress): Option<TrapReg> {
    var n := a % 0x100;
    if n == 0 then Some(Status) else if n == 1 then Some(Isa) else if n == 2 then Some(Edeleg) else if n == 3 then Some(Ideleg)
    else if n == 4 then Some(Ie) else if n == 5 then Some(Tvec) else if n == 0x40 then Some(Scratch) else if n == 0x41 then Some(Epc)
    else if n == 0x42 then Some(TrapReg.Cause) else if n == 0x43 then Some(Tval) else if n == 0x44 then Some(Ip) else None
  }

  predicate SupervisorNumber(a: CsrAddress) {
    a == 0x100 || 0x102 <= a <= 0x105 || 0x140 <= a <= 0x144
  }

  predicate MachineNumber(a: CsrAddress) {
    0x300 <= a <= 0x305 || 0x340 <= a <= 0x344
  }

  lemma SupervisorTarget(a: CsrAddress)
    requires SupervisorNumber(a)
    ensures NamedReg(a).Some? && Describe(a).target == TrapRegister(SUPERVISOR, NamedReg(a).value)
  {
  }

  lemma MachineTarget(a: CsrAddress)
    requires MachineNumber(a)
    ensures NamedReg(a).Some? && Describe(a).target == TrapRegister(MACHINE, NamedReg(a).value)
  {
  }

  lemma OtherTargets(a: CsrAddress)
    ensures a == 0x180 ==> Describe(a).target == Satp
    ensures 0x3A0 <= a < 0x3A4 ==> Describe(a).target == PmpCfg(a - 0x3A0)
    ensures 0x3B0 <= a < 0x3C0 ==> Describe(a).target == PmpAddr(a - 0x3B0)
  {
  }

  lemma KindsOfNumbers(s: State, a: CsrAddress)
    requires s.Valid() && Named(s, a).Some?
    ensures SupervisorNumber(a) || MachineNumber(a) || a == 0x180 || 0x3A0 <= a < 0x3A4 || 0x3B0 <= a < 0x3C0
  {
    hide Bits;
  }

  /** The register of supervisor or machine mode behind a number. */
  lemma SupervisorValue(s: State, a: CsrAddress)
    requires s.Valid() && SupervisorNumber(a)
    ensures NamedReg(a).Some? && Some(ReadReg(s.trap, SUPERVISOR, NamedReg(a).value)) == Named(s, a)
  {
    hide Bits;
  }

  lemma MachineValue(s: State, a: CsrAddress)
    requires s.Valid() && MachineNumber(a)
    ensures NamedReg(a).Some? && Some(ReadReg(s.trap, MACHINE, NamedReg(a).value)) == Named(s, a)
  {
    hide Bits;
  }

  lemma OtherValues(s: State, a: CsrAddress)
    requires s.Valid()
    ensures a == 0x180 ==> Named(s, a) == Some(Bits(s.satp))
    ensures 0x3A0 <= a < 0x3A4 ==> Named(s, a) == Some(Bits(Pmp.CfgWord(s.pmp, a - 0x3A0)))
    ensures 0x3B0 <= a < 0x3C0 ==> Named(s, a) == Some(Bits(s.pmp.addr[a - 0x3B0]))
  {
    hide Bits;
    if 0x3A0 <= a < 0x3A4 {
      CfgWordBytes(s.pmp, a - 0x3A0);
    }
  }

  lemma TableValue(s: State, a: CsrAddress)
    requires s.Valid() && Named(s, a).Some?
    ensures CsrValue(s, Describe(a).target, a) == Named(s, a).value
  {
    hide Describe, ReadReg, NamedReg, Bits, Named, SupervisorNumber, MachineNumber, Pmp.CfgWord;
    KindsOfNumbers(s, a);
    if SupervisorNumber(a) {
      SupervisorTarget(a);
      SupervisorValue(s, a);
    } else if MachineNumber(a) {
      MachineTarget(a);
      MachineValue(s, a);
    } else {
      OtherTargets(a);
      OtherValues(s, a);
    }
  }

  lemma TableMask(s: State, a: CsrAddress)
    requires s.Valid() && Named(s, a).Some?
    ensures Describe(a).mask == NamedMask(a)
  {
    hide Bits, NamedMask;
    MasksAreFields();
    AllMasks(a);
    NamedNumbers(s, a);
    hide Named;
  }

  /** The table of the code shows every named register under its number, through its mask. */
  lemma TableIsNamed(s: State, a: CsrAddress)
    requires s.Valid() && Named(s, a).Some?
    ensures var d := Describe(a);
      CsrValue(s, d.target, a) == Named(s, a).value && d.mask == NamedMask(a)
  {
    hide Bits, Named, NamedMask, Describe, CsrValue;
    TableValue(s, a);
    TableMask(s, a);
  }

  lemma AllMasks(a: CsrAddress)
    ensures a == 0x301 || 0x340 <= a <= 0x343 || 0x140 <= a <= 0x143 || 0x3A0 <= a < 0x3C0 ==> NamedMask(a) == 0xFFFF_FFFF
    ensures a == 0x303 || a == 0x304 || a == 0x344 ==> NamedMask(a) == 0xBBB
    ensures a == 0x103 || a == 0x104 || a == 0x144 ==> NamedMask(a) == 0x333
  {
  }

  // Section 2.1 of the Privileged Spec: rights are part of the number

  /** The lowest mode that may access a number: its bits 9 and 8. */
  function LowestMode(a: CsrAddress): Priv {
    a / 0x100 % 4
  }

  /**
    * No mode below that one reads or writes a CSR, every mode from it up may read it if any may,
    * numbers from 0xC00 up are never written, and whoever writes also reads.
    */
  lemma RightsFollowNumbers(a: CsrAddress, mode: Priv)
    requires IsLevel(mode)
    ensures var d := Describe(a);
      && (mode in d.readers <==> d.readers != {} && mode >= LowestMode(a))
      && (mode in d.writers ==> mode in d.readers)
      && (d.writers != {} && mode >= LowestMode(a) ==> mode in d.writers)
      && (a >= 0xC00 ==> d.writers == {})
  {
    assert M_ONLY != {} && M_AND_S != {} && EVERYONE != {};
    assert MACHINE in M_ONLY && MACHINE in M_AND_S && MACHINE in EVERYONE;
  }

  /** The numbers of the registers that software may use. */
  lemma NamedRights(s: State, a: CsrAddress)
    requires s.Valid() && Named(s, a).Some?
    ensures MACHINE in Describe(a).readers && (MACHINE in Describe(a).writers <==> a != 0x301)
  {
    hide Bits;
    NamedNumbers(s, a);
  }

  /** The registers that are there and always zero. */
  predicate ZeroNumber(a: CsrAddress) {
    a == 0x106 || a == 0x306 || 0x3A4 <= a <= 0x3AF || 0x3C0 <= a <= 0x3EF || 0xB03 <= a <= 0xB1F || 0xB83 <= a <= 0xB9F
    || a == 0xC20 || a == 0xCA0 || 0xF11 <= a <= 0xF14
  }

  predicate CounterNumber(a: CsrAddress) {
    a == 0xB00 || a == 0xB02 || a == 0xB80 || a == 0xB82 || a == 0xC00 || a == 0xC01 || a == 0xC80 || a == 0xC81
  }

  predicate WritableZero(a: CsrAddress) {
    a == 0x106 || a == 0x306 || 0xB83 <= a <= 0xB9F
  }

  /** Zero registers and counters are values of the table, shown through no bit and through every bit. */
  lemma TableValues(a: CsrAddress)
    ensures var d := Describe(a);
      && (ZeroNumber(a) ==> d.target == Plain && d.mask == 0 && d.readers != {} && (d.writers != {} <==> WritableZero(a)))
      && (CounterNumber(a) ==> d.target == Plain && d.mask == 0xFFFF_FFFF && d.readers != {} && (d.writers != {} <==> a < 0xC00))
  {
    assert MACHINE in M_ONLY && MACHINE in M_AND_S && MACHINE in EVERYONE;
  }

  /** No mode may read or write a number that is neither named, zero nor a counter. */
  lemma NoOtherNumbers(s: State, a: CsrAddress)
    requires s.Valid() && Named(s, a).None? && !ZeroNumber(a) && !CounterNumber(a)
    ensures Describe(a).readers == {} && Describe(a).writers == {}
  {
    hide Bits;
  }

  // What an instruction does

  /** The operand: a register, or the five bits of its number. */
  lemma OperandIs(s: State, o: Operand)
    requires s.Valid()
    ensures match o case Register(r) => OperandValue(s, o) == Bits(s.x[r])
                    case Immediate(n) => Value(OperandValue(s, o)) == n
  {
    hide Bits;
    if o.Immediate? {
      SmallBits(o.r);
    }
  }

  lemma SmallBits(n: Reg)
    ensures Value(Bits(n)) == n
  {
  }

  /** Exactly the masked bits of a register. */
  predicate Shows(v: Word, w: bv32, mask: bv32) {
    Agree(Bits(v), w, mask) && Inside(Bits(v), mask)
  }

  lemma MaskedRaw(w: bv32, mask: bv32)
    ensures Agree(Visible(w, mask), w, mask) && Inside(Visible(w, mask), mask)
  {
  }

  lemma VisibleShows(w: bv32, mask: bv32)
    ensures Shows(Value(Visible(w, mask)), w, mask)
  {
    hide Bits, Value, Agree, Inside, Visible;
    BitsOfValue(Visible(w, mask));
    MaskedRaw(w, mask);
  }

  /**
    * An accepted CSR instruction that reads leaves in rd the bits of the old register that its
    * number shows, and zeros elsewhere; no other register of the hart changes.
    */
  lemma DestinationShowsRegister(s: State, op: CsrOp, rd: Reg, o: Operand, a: CsrAddress)
    requires s.Valid() && !Refused(s.mode, op, rd, o, a) && Named(s, a).Some?
    ensures var r := DoCsr(s, op, rd, o, a);
      && (CsrReads(op, rd) ==> Shows(r.x[rd], Named(s, a).value, NamedMask(a)))
      && (forall k: Reg :: k != rd ==> r.x[k] == s.x[k])
  {
    hide Refused, PutCsr, NewValue, CsrValue, Visible, Value, Shows, Named, NamedMask, Describe;
    TableIsNamed(s, a);
    CsrOutcome(s, op, rd, o, a);
    PutFrame(s, a, NewValue(s, op, rd, o, a));
    VisibleShows(Before(s, op, rd, a), Describe(a).mask);
    hide DoCsr;
  }

  /** A plain read of mcause gives the whole of mcause. */
  lemma ReadingMcause(s: State, rd: Reg)
    requires s.Valid() && s.mode == MACHINE && rd != 0
    ensures Bits(DoCsr(s, ReadSet, rd, Register(0), 0x342).x[rd]) == Bits(s.trap.m.cause)
  {
    hide Bits, Value, DoCsr;
    assert Named(s, 0x342) == Some(Bits(s.trap.m.cause));
    NamedRights(s, 0x342);
    hide Named, Describe;
    DestinationShowsRegister(s, ReadSet, rd, Register(0), 0x342);
    FullMask32(Bits(DoCsr(s, ReadSet, rd, Register(0), 0x342).x[rd]), Bits(s.trap.m.cause));
    AllMasks(0x342);
  }

  lemma FullMask32(a: bv32, b: bv32)
    requires Agree(a, b, 0xFFFF_FFFF)
    ensures a == b
  {
  }

  /** After an accepted write, the number stands for the new value, except behind PMP's locks. */
  lemma WriteReachesNumber(s: State, a: CsrAddress, v: bv32)
    requires s.Valid() && Named(s, a).Some? && !(0x3A0 <= a < 0x3C0)
    ensures Named(PutCsr(s, Describe(a), a, v), a) == Some(v)
  {
    hide Named, Describe, PutCsr, NamedMask;
    var r := PutCsr(s, Describe(a), a, v);
    TargetOfNumber(s, a);
    PutTarget(s, a, v);
    PutFrame(s, a, v);
    BitsOfValue(v);
    NamedStays(s, r, a);
    TableIsNamed(r, a);
    if Describe(a).target.TrapRegister? {
      ReadAfterWrite(s.trap, Describe(a).target.level, Describe(a).target.reg, v, Describe(a).target.level, Describe(a).target.reg);
    }
  }

  lemma TargetOfNumber(s: State, a: CsrAddress)
    requires s.Valid() && Named(s, a).Some? && !(0x3A0 <= a < 0x3C0)
    ensures Describe(a).target.TrapRegister? || Describe(a).target.Satp?
  {
    hide Bits;
    NamedNumbers(s, a);
  }

  /** Which numbers name a register does not depend on the state. */
  lemma NamedStays(s: State, r: State, a: CsrAddress)
    requires s.Valid() && r.Valid()
    ensures Named(s, a).Some? == Named(r, a).Some?
  {
    hide Bits;
  }

  /**
    * The register behind a number other than PMP's after an accepted instruction: written as the
    * instruction says within the mask of the number, or not at all.
    */
  lemma RegisterBecomes(s: State, op: CsrOp, rd: Reg, o: Operand, a: CsrAddress)
    requires s.Valid() && !Refused(s.mode, op, rd, o, a) && Named(s, a).Some? && !(0x3A0 <= a < 0x3C0)
    ensures var r := DoCsr(s, op, rd, o, a);
      if CsrWrites(op, o) then
        Named(r, a).Some? && ViewBecomes(op, Named(s, a).value, OperandValue(s, o), NamedMask(a), Named(r, a).value)
      else Named(r, a) == Named(s, a)
  {
    hide Refused, PutCsr, CsrValue, Visible, Value, Named, NamedMask, Describe, ViewBecomes, Combine, OperandValue, Bits;
    TableIsNamed(s, a);
    CsrOutcome(s, op, rd, o, a);
    var v := NewValue(s, op, rd, o, a);
    var put := if CsrWrites(op, o) then PutCsr(s, Describe(a), a, v) else s;
    SetKeepsNamed(put, rd, Value(Visible(Before(s, op, rd, a), Describe(a).mask)), a);
    hide DoCsr;
    if CsrWrites(op, o) {
      WriteReachesNumber(s, a, v);
      CombineView(op, Named(s, a).value, Before(s, op, rd, a), OperandValue(s, o), Describe(a).mask);
    }
  }

  lemma SetKeepsNamed(s: State, rd: Reg, v: Word, a: CsrAddress)
    requires s.Valid()
    ensures Named(Set(s, rd, v), a) == Named(s, a)
  {
    hide Bits;
  }

  /** An accepted read of a zero register gives 0, one of a counter gives the counter; writes leave zero, or the value. */
  lemma PlainRegisters(s: State, op: CsrOp, rd: Reg, o: Operand, a: CsrAddress)
    requires s.Valid() && !Refused(s.mode, op, rd, o, a) && (ZeroNumber(a) || CounterNumber(a))
    ensures var r := DoCsr(s, op, rd, o, a);
      && (CsrReads(op, rd) && ZeroNumber(a) ==> r.x[rd] == 0)
      && (CsrReads(op, rd) && CounterNumber(a) ==> Bits(r.x[rd]) == Bits(s.csr[a]))
      && (CsrWrites(op, o) && ZeroNumber(a) ==> r.csr[a] == 0)
      && (!CsrWrites(op, o) ==> r.csr == s.csr)
  {
    hide Refused, NewValue, Visible, Value, Bits, Describe, DoCsr, ZeroNumber, CounterNumber;
    TableValues(a);
    var d := Describe(a);
    CsrOutcome(s, op, rd, o, a);
    MaskEnds(Before(s, op, rd, a));
    MaskEnds(NewValue(s, op, rd, o, a));
    BitsOfValue(Visible(Before(s, op, rd, a), d.mask));
    ZeroValue();
  }

  lemma MaskEnds(w: bv32)
    ensures Visible(w, 0) == 0 && w & 0 == 0 && Visible(w, 0xFFFF_FFFF) == w
  {
  }

  lemma ZeroValue()
    ensures Value(0) == 0
  {
  }

  // Counters

  /** Every cycle counts one, and the counter registers hold both halves of the count. */
  lemma CountersTick(s: State)
    requires s.Valid()
    ensures var r := Advance(s);
      && r.cycle == (s.cycle + 1) % 0x1_0000_0000_0000_0000
      && (forall a :: a == 0xB00 || a == 0xB02 || a == 0xC00 || a == 0xC01 ==> r.csr[a] == r.cycle % 0x1_0000_0000)
      && (forall a :: a == 0xB80 || a == 0xB82 || a == 0xC80 || a == 0xC81 ==> r.csr[a] == r.cycle / 0x1_0000_0000)
      && (forall a :: 0 <= a < 0xFFF && a !in {0xB00, 0xB02, 0xC00, 0xC01, 0xB80, 0xB82, 0xC80, 0xC81} ==> r.csr[a] == s.csr[a])
  {
  }

  /** Reset: machine mode at 0x1000 with every register 0, and misa for RV32 with A, I, M, S and U. */
  lemma ResetState(mem: Memory)
    ensures var s := Reset(mem);
      && s.mode == 3 && s.pc == 0x1000 && !s.pending && s.satp == 0 && s.cycle == 0 && !s.lrValid && s.mem == mem
      && (forall k: Reg :: s.x[k] == 0)
      && (forall k :: 0 <= k < 16 ==> s.pmp.cfg[k] == 0 && s.pmp.addr[k] == 0)
      && s.trap.m.isa == 0x4000_0000 + 1 + 0x100 + 0x1000 + 0x4_0000 + 0x10_0000
      && s.trap.status == 0 && s.trap.ie == 0 && s.trap.ip == 0 && s.trap.m.edeleg == 0 && s.trap.m.ideleg == 0
  {
  }
}
