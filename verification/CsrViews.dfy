/** The values CSRs can hold in reachable states, and the views that share a register. */
module CsrViews {
  import opened Words
  import opened Mmu
  import opened Trap
  import opened TrapProofs
  import opened StatusBits
  import opened Csr
  import opened Core
  import opened CsrRules
  import opened Protection
  import opened Privilege
  import opened Precise

  // Registers are independent

  predicate Shared(reg: TrapReg) {
    reg == Status || reg == Ie || reg == Ip
  }

  /** A write changes the register it names, at every level if it is shared, and no other. */
  lemma ReadAfterWrite(t: TrapState, level: Priv, reg: TrapReg, v: bv32, other: Priv, r: TrapReg)
    requires IsLevel(level) && IsLevel(other)
    ensures ReadReg(WriteReg(t, level, reg, v), other, r)
         == if r == reg && (other == level || Shared(reg)) then v else ReadReg(t, other, r)
  {
    if Shared(reg) {
      SharedReadAfterWrite(t, level, reg, v, other, r);
    } else {
      OwnReadAfterWrite(t, level, reg, v, other, r);
    }
  }

  lemma SharedReadAfterWrite(t: TrapState, level: Priv, reg: TrapReg, v: bv32, other: Priv, r: TrapReg)
    requires IsLevel(level) && IsLevel(other) && Shared(reg)
    ensures ReadReg(WriteReg(t, level, reg, v), other, r) == if r == reg then v else ReadReg(t, other, r)
  {
    hide Field, WithField, SetRegs;
    SameRegs(t, WriteReg(t, level, reg, v));
    hide Regs;
  }

  lemma FieldOfWith(r: LevelRegs, reg: TrapReg, v: bv32, other: TrapReg)
    requires !Shared(reg) && !Shared(other)
    ensures Field(WithField(r, reg, v), other) == if other == reg then v else Field(r, other)
  {
    BitsOfValue(v);
    hide Bits, Value;
  }

  lemma WriteIsField(t: TrapState, level: Priv, reg: TrapReg, v: bv32)
    requires IsLevel(level) && !Shared(reg)
    ensures WriteReg(t, level, reg, v) == SetRegs(t, level, WithField(Regs(t, level), reg, v))
  {
    hide WithField, SetRegs, Regs;
  }

  lemma ReadIsField(t: TrapState, level: Priv, reg: TrapReg)
    requires IsLevel(level) && !Shared(reg)
    ensures ReadReg(t, level, reg) == Field(Regs(t, level), reg)
  {
    hide Field, Regs;
  }

  lemma ReadsShared(t: TrapState, q: TrapState, level: Priv, reg: TrapReg)
    requires IsLevel(level) && Shared(reg) && q.status == t.status && q.ie == t.ie && q.ip == t.ip
    ensures ReadReg(q, level, reg) == ReadReg(t, level, reg)
  {
  }

  lemma OwnReadAfterWrite(t: TrapState, level: Priv, reg: TrapReg, v: bv32, other: Priv, r: TrapReg)
    requires IsLevel(level) && IsLevel(other) && !Shared(reg)
    ensures ReadReg(WriteReg(t, level, reg, v), other, r)
         == if r == reg && other == level then v else ReadReg(t, other, r)
  {
    hide Field, WithField, SetRegs, Regs, ReadReg, WriteReg, Shared;
    var q := WriteReg(t, level, reg, v);
    WriteIsField(t, level, reg, v);
    RegsOfSetRegs(t, level, WithField(Regs(t, level), reg, v), other);
    if Shared(r) {
      ReadsShared(t, q, other, r);
    } else {
      ReadIsField(q, other, r);
      ReadIsField(t, other, r);
      FieldOfWith(Regs(t, level), reg, v, r);
    }
  }

  // Bits within a mask

  predicate Inside(w: bv32, mask: bv32) {
    w & !mask == 0
  }

  /** All bits that a register can ever have. */
  function FullMask(level: Priv, reg: TrapReg): bv32 {
    match reg
    case Status => MSTATUS_MASK
    case Ie | Ip => MIP_MIE_MASK
    case Edeleg => if level == MACHINE then MEDELEG_MASK else if level == SUPERVISOR then SEDELEG_MASK else 0
    case Ideleg => if level == MACHINE then MIP_MIE_MASK else if level == SUPERVISOR then SIP_SIE_MASK else 0
    case Tvec => if level == USER then 0 else TVEC_MASK
    case _ => ALL
  }

  ghost predicate TidyTrap(t: TrapState) {
    forall level: Priv, reg: TrapReg :: IsLevel(level) ==> Inside(ReadReg(t, level, reg), FullMask(level, reg))
  }

  /** What every reachable state satisfies. */
  ghost predicate Tidy(s: State) {
    && s.Valid() && s.x[0] == 0 && !s.pending
    && TidyTrap(s.trap) && Inside(Bits(s.satp), SATP_MASK)
  }

  lemma ZeroInside(full: bv32)
    ensures Inside(0, full)
  {
  }

  lemma AllInside(w: bv32)
    ensures Inside(w, ALL)
  {
  }

  lemma ReplaceInside(before: bv32, v: bv32, mask: bv32, full: bv32)
    requires Inside(before, full) && Inside(mask, full)
    ensures Inside(Combine(ReadWrite, before, v, mask), full)
  {
  }

  lemma SetInside(before: bv32, v: bv32, mask: bv32, full: bv32)
    requires Inside(before, full) && Inside(mask, full)
    ensures Inside(Combine(ReadSet, before, v, mask), full)
  {
  }

  lemma ClearInside(before: bv32, v: bv32, mask: bv32, full: bv32)
    requires Inside(before, full)
    ensures Inside(Combine(ReadClear, before, v, mask), full)
  {
  }

  lemma CombineInside(op: CsrOp, before: bv32, v: bv32, mask: bv32, full: bv32)
    requires Inside(before, full) && Inside(mask, full)
    ensures Inside(Combine(op, before, v, mask), full)
  {
    hide Inside, Combine;
    ReplaceInside(before, v, mask, full);
    SetInside(before, v, mask, full);
    ClearInside(before, v, mask, full);
  }

  /** What the table gives for the registers of the trap unit. */
  function ViewMask(level: Priv, reg: TrapReg): bv32 {
    match reg
    case Status => if level == MACHINE then MSTATUS_MASK else SSTATUS_MASK
    case Ie | Ip | Ideleg => if level == MACHINE then MIP_MIE_MASK else SIP_SIE_MASK
    case Edeleg => if level == MACHINE then MEDELEG_MASK else SEDELEG_MASK
    case Tvec => TVEC_MASK
    case _ => ALL
  }

  lemma TableMasks(a: CsrAddress)
    ensures var d := Describe(a);
      && (d.target.TrapRegister? ==> d.mask == ViewMask(d.target.level, d.target.reg))
      && (d.target.Satp? ==> d.mask == SATP_MASK)
  {
  }

  lemma MasksInside(level: Priv, reg: TrapReg)
    requires level == MACHINE || level == SUPERVISOR
    ensures Inside(ViewMask(level, reg), FullMask(level, reg))
  {
  }

  /** The mask of each view lies within the register behind it. */
  lemma ViewInside(a: CsrAddress)
    ensures var d := Describe(a);
      && (d.target.TrapRegister? ==> Inside(d.mask, FullMask(d.target.level, d.target.reg)))
      && (d.target.Satp? ==> d.mask == SATP_MASK)
  {
    hide Describe, Inside, ViewMask, FullMask;
    TableMasks(a);
    if Describe(a).target.TrapRegister? {
      MasksInside(Describe(a).target.level, Describe(a).target.reg);
    }
  }

  // Status, enable and pending bits

  lemma RaiseInside(w: bv32, mask: bv32, full: bv32)
    requires Inside(w, full) && Inside(mask, full)
    ensures Inside(Assign(w, mask, true), full)
  {
  }

  lemma LowerInside(w: bv32, mask: bv32, full: bv32)
    requires Inside(w, full)
    ensures Inside(Assign(w, mask, false), full) && Inside(Trap.Clear(w, mask), full)
  {
  }

  lemma AssignInside(w: bv32, mask: bv32, b: bool, full: bv32)
    requires Inside(w, full) && Inside(mask, full)
    ensures Inside(Assign(w, mask, b), full)
  {
    hide Inside, Assign;
    RaiseInside(w, mask, full);
    LowerInside(w, mask, full);
  }

  lemma EnableInside(level: Priv)
    requires IsLevel(level)
    ensures Inside(IeBit(level), MSTATUS_MASK) && Inside(PieBit(level), MSTATUS_MASK)
  {
  }

  lemma LeaveInside(status: bv32, level: Priv)
    requires IsLevel(level) && Inside(status, MSTATUS_MASK)
    ensures Inside(LeaveStatus(status, level), MSTATUS_MASK)
  {
    EnableInside(level);
    hide Inside, Assign, Trap.Clear, IsSet, IeBit, PieBit;
    var b := IsSet(status, PieBit(level));
    AssignInside(status, IeBit(level), b, MSTATUS_MASK);
    LowerInside(Assign(status, IeBit(level), b), PieBit(level), MSTATUS_MASK);
  }

  lemma MppInside(status: bv32, v: bv32)
    requires Inside(status, MSTATUS_MASK)
    ensures Inside(AssignField(status, MPP, v, 3), MSTATUS_MASK)
  {
  }

  lemma SppInside(status: bv32, v: bv32)
    requires Inside(status, MSTATUS_MASK)
    ensures Inside(AssignField(status, SPP, v, 1), MSTATUS_MASK)
  {
  }

  lemma SaveInside(status: bv32, level: Priv, previous: Priv)
    requires Inside(status, MSTATUS_MASK)
    ensures Inside(SavePrivilege(status, level, previous), MSTATUS_MASK)
  {
    hide Inside, PrivBits, AssignField;
    MppInside(status, PrivBits(previous));
    SppInside(status, PrivBits(previous));
  }

  lemma EnterInside(status: bv32, level: Priv, previous: Priv)
    requires IsLevel(level) && Inside(status, MSTATUS_MASK)
    ensures Inside(EnterStatus(status, level, previous), MSTATUS_MASK)
  {
    EnableInside(level);
    hide Inside, Assign, Trap.Clear, IsSet, IeBit, PieBit, SavePrivilege;
    SaveInside(status, level, previous);
    var saved := SavePrivilege(status, level, previous);
    var b := IsSet(saved, IeBit(level));
    AssignInside(saved, PieBit(level), b, MSTATUS_MASK);
    LowerInside(Assign(saved, PieBit(level), b), IeBit(level), MSTATUS_MASK);
  }

  lemma FollowInside(ie: bv32, ip: bv32, irq: Words.Cause, line: bool)
    requires Inside(ip, MIP_MIE_MASK) && Inside(CauseBit(irq), MIP_MIE_MASK)
    ensures Inside(Follow(ie, ip, irq, line), MIP_MIE_MASK)
  {
    hide Inside, CauseBit, Assign, IsSet;
    AssignInside(ip, CauseBit(irq), line, MIP_MIE_MASK);
  }

  lemma PendingInside(t: TrapState, lines: Lines)
    requires Inside(t.ip, MIP_MIE_MASK)
    ensures Inside(SetPending(t, lines.ext, lines.tim, lines.sw).ip, MIP_MIE_MASK)
  {
    assert CauseBit(MEI) == 0x800 && CauseBit(SEI) == 0x200 && CauseBit(MTI) == 0x80 && CauseBit(MSI) == 8;
    hide Follow, CauseBit;
    var ip1 := Follow(t.ie, t.ip, MEI, lines.ext);
    FollowInside(t.ie, t.ip, MEI, lines.ext);
    var ip2 := Follow(t.ie, ip1, SEI, lines.ext);
    FollowInside(t.ie, ip1, SEI, lines.ext);
    var ip3 := Follow(t.ie, ip2, MTI, lines.tim);
    FollowInside(t.ie, ip2, MTI, lines.tim);
    FollowInside(t.ie, ip3, MSI, lines.sw);
  }

  // What every step keeps

  lemma WriteKeepsTidy(t: TrapState, level: Priv, reg: TrapReg, v: bv32)
    requires TidyTrap(t) && IsLevel(level) && Inside(v, FullMask(level, reg))
    ensures TidyTrap(WriteReg(t, level, reg, v))
  {
    hide Inside, ReadReg, WriteReg;
    forall other: Priv, r: TrapReg | IsLevel(other)
      ensures Inside(ReadReg(WriteReg(t, level, reg, v), other, r), FullMask(other, r))
    {
      ReadAfterWrite(t, level, reg, v, other, r);
      assert Shared(reg) ==> FullMask(other, reg) == FullMask(level, reg);
    }
  }

  lemma StatusIsTidy(t: TrapState)
    requires TidyTrap(t)
    ensures Inside(t.status, MSTATUS_MASK) && Inside(t.ip, MIP_MIE_MASK)
  {
    hide Inside;
    assert Inside(ReadReg(t, MACHINE, Status), FullMask(MACHINE, Status));
    assert Inside(ReadReg(t, MACHINE, Ip), FullMask(MACHINE, Ip));
  }

  lemma PutKeepsTidy(s: State, op: CsrOp, rd: Reg, o: Operand, a: CsrAddress)
    requires s.Valid() && TidyTrap(s.trap) && Inside(Bits(s.satp), SATP_MASK)
    requires Describe(a).target.TrapRegister? ==> Describe(a).target.reg != Isa
    ensures var r := PutCsr(s, Describe(a), a, NewValue(s, op, rd, o, a));
      TidyTrap(r.trap) && Inside(Bits(r.satp), SATP_MASK)
  {
    var d := Describe(a);
    var v := NewValue(s, op, rd, o, a);
    PutTarget(s, a, v);
    ViewInside(a);
    SatpInside();
    BitsOfValue(v);
    hide Describe, Inside, PutCsr, Combine, OperandValue, Bits, Value, WriteReg, ReadReg, FullMask, TidyTrap;
    match d.target
    case TrapRegister(level, reg) =>
      var full := FullMask(level, reg);
      TidyRead(s.trap, level, reg);
      ZeroInside(full);
      CombineInside(op, Before(s, op, rd, a), OperandValue(s, o), d.mask, full);
      WriteKeepsTidy(s.trap, level, reg, v);
    case Satp =>
      ZeroInside(SATP_MASK);
      CombineInside(op, Before(s, op, rd, a), OperandValue(s, o), d.mask, SATP_MASK);
    case _ =>
  }

  lemma SatpInside()
    ensures Inside(SATP_MASK, SATP_MASK)
  {
  }

  lemma TidyRead(t: TrapState, level: Priv, reg: TrapReg)
    requires TidyTrap(t) && IsLevel(level)
    ensures Inside(ReadReg(t, level, reg), FullMask(level, reg))
  {
  }

  lemma NobodyWritesIsa(a: CsrAddress)
    ensures var d := Describe(a); d.target.TrapRegister? && d.target.reg == Isa ==> d.writers == {}
  {
  }

  lemma CsrKeepsTidy(s: State, op: CsrOp, rd: Reg, o: Operand, a: CsrAddress)
    requires s.Valid() && TidyTrap(s.trap) && Inside(Bits(s.satp), SATP_MASK)
    ensures var r := DoCsr(s, op, rd, o, a);
      TidyTrap(r.trap) && Inside(Bits(r.satp), SATP_MASK)
  {
    hide Describe, Inside, PutCsr, NewValue, Before, Visible, Value, Bits, DoCsr, TidyTrap;
    CsrOutcome(s, op, rd, o, a);
    if !Refused(s.mode, op, rd, o, a) && CsrWrites(op, o) {
      NobodyWritesIsa(a);
      PutKeepsTidy(s, op, rd, o, a);
    }
  }

  lemma StatusKeepsTidy(t: TrapState, status: bv32)
    requires TidyTrap(t) && Inside(status, MSTATUS_MASK)
    ensures TidyTrap(t.(status := status))
  {
    hide Inside, TidyTrap;
    assert WriteReg(t, MACHINE, Status, status) == t.(status := status);
    WriteKeepsTidy(t, MACHINE, Status, status);
  }

  lemma ReturnKeepsTidy(s: State, epc: Word)
    requires TidyTrap(s.trap) && IsLevel(s.mode)
    ensures TidyTrap(DoReturn(s, epc).trap)
  {
    hide Inside, TidyTrap, LeaveStatus, PreviousPrivilege;
    StatusIsTidy(s.trap);
    LeaveInside(s.trap.status, s.mode);
    StatusKeepsTidy(s.trap, LeaveStatus(s.trap.status, s.mode));
  }

  lemma ExecuteKeepsTidy(s: State, i: Instr)
    requires s.Valid() && IsLevel(s.mode) && TidyTrap(s.trap) && Inside(Bits(s.satp), SATP_MASK)
    ensures var r := Execute(s, i); TidyTrap(r.trap) && Inside(Bits(r.satp), SATP_MASK)
  {
    hide Inside, TidyTrap, Bits, DoLoad, DoStore, DoLoadReserved, DoStoreConditional, DoAmo, DoCsr, DoReturn, Wrap;
    match i
    case CsrAccess(op, rd, o, a) => CsrKeepsTidy(s, op, rd, o, a);
    case Mret =>
      ReturnFrame(s, s.trap.m.epc);
      ReturnKeepsTidy(s, s.trap.m.epc);
    case Sret =>
      ReturnFrame(s, s.trap.s.epc);
      ReturnKeepsTidy(s, s.trap.s.epc);
    case _ => OthersKeepCsrs(s, i);
  }

  lemma OthersKeepCsrs(s: State, i: Instr)
    requires s.Valid() && !i.CsrAccess? && !i.Mret? && !i.Sret?
    ensures var r := Execute(s, i); r.trap == s.trap && r.satp == s.satp
  {
    hide DoLoad, DoStore, DoLoadReserved, DoStoreConditional, DoAmo, Wrap;
    match i
    case Load(rd, rs1, offset, len, signed) => LoadFrame(s, rd, Wrap(s.x[rs1] + offset), len, signed);
    case LoadReserved(rd, rs1) =>
      LoadReservedIs(s, rd, rs1);
      LoadFrame(s.(lrAddress := s.x[rs1], lrValid := true), rd, s.x[rs1], 4, false);
    case Store(rs1, rs2, offset, len) => StoreFrame(s, Wrap(s.x[rs1] + offset), len, s.x[rs2]);
    case StoreConditional(_, _, _) => PartialFrame(s, i);
    case Amo(_, _, _, _) => PartialFrame(s, i);
    case _ =>
  }

  lemma ServeReads(t: TrapState, serving: Priv, previous: Priv, interrupt: bool, cause: Words.Cause, pc: Word, tval: Word,
                   level: Priv, reg: TrapReg)
    requires IsLevel(serving) && IsLevel(level)
    ensures reg != Status && reg != Epc && reg != TrapReg.Cause && reg != Tval ==>
      ReadReg(Serve(t, serving, previous, interrupt, cause, pc, tval), level, reg) == ReadReg(t, level, reg)
    ensures ReadReg(Serve(t, serving, previous, interrupt, cause, pc, tval), level, Status) == EnterStatus(t.status, serving, previous)
  {
    hide EnterStatus, Bits, Serve, Regs;
    ServeRegs(t, serving, previous, interrupt, cause, pc, tval, level);
  }

  lemma ServeKeepsTidy(t: TrapState, serving: Priv, previous: Priv, interrupt: bool, cause: Words.Cause, pc: Word, tval: Word)
    requires TidyTrap(t) && IsLevel(serving)
    ensures TidyTrap(Serve(t, serving, previous, interrupt, cause, pc, tval))
  {
    hide Inside, EnterStatus, Serve, ReadReg;
    var r := Serve(t, serving, previous, interrupt, cause, pc, tval);
    forall level: Priv, reg: TrapReg | IsLevel(level)
      ensures Inside(ReadReg(r, level, reg), FullMask(level, reg))
    {
      ServeReads(t, serving, previous, interrupt, cause, pc, tval, level, reg);
      AllInside(ReadReg(r, level, reg));
      StatusIsTidy(t);
      EnterInside(t.status, serving, previous);
    }
  }

  lemma LinesKeepTidy(t: TrapState, lines: Lines)
    requires TidyTrap(t)
    ensures TidyTrap(SetPending(t, lines.ext, lines.tim, lines.sw))
  {
    hide Inside, TidyTrap, PendingBits;
    var ip := SetPending(t, lines.ext, lines.tim, lines.sw).ip;
    StatusIsTidy(t);
    PendingInside(t, lines);
    assert WriteReg(t, MACHINE, Ip, ip) == SetPending(t, lines.ext, lines.tim, lines.sw);
    WriteKeepsTidy(t, MACHINE, Ip, ip);
  }

  lemma RunKeepsTidy(s: State, t: Protection.Turn)
    requires Tidy(s) && IsLevel(s.mode)
    ensures var q := BeforeTraps(s, t);
      TidyTrap(q.trap) && Inside(Bits(q.satp), SATP_MASK) && q.x[0] == 0
  {
    hide Inside, TidyTrap, Bits, Execute, CheckedAccess, ReadBytes, SetPending, Counters, Wrap;
    var s0 := s.(nextPc := 0);
    var i := Executed(s, t.decode);
    if i.Some? {
      ExecuteKeepsTidy(s0, i.value);
    }
    LinesKeepTidy(Run(s, t.decode).trap, t.lines);
  }

  lemma PrepareKeepsTidy(q: State)
    requires TidyTrap(q.trap) && IsLevel(q.mode)
    ensures var c := PrepareInterrupts(q);
      TidyTrap(c.trap) && c.satp == q.satp && c.x == q.x && !c.pending
  {
    hide TidyTrap, Serve, ExceptionLevel, FirstInterrupt;
    if q.pending {
      ServeKeepsTidy(q.trap, ExceptionLevel(q.trap, q.mode, q.cause), q.mode, false, q.cause, q.pc, q.tval);
    } else if FirstInterrupt(q.trap, q.mode, LAST_INTERRUPT).Some? {
      var hit := FirstInterrupt(q.trap, q.mode, LAST_INTERRUPT).value;
      ServeKeepsTidy(q.trap, hit.1, q.mode, true, hit.0, q.pc, q.tval);
    }
  }

  /** Only a return reaches the reserved mode, and a return raises no exception. */
  lemma ReservedIsQuiet(s: State, t: Protection.Turn)
    requires s.Valid() && IsLevel(s.mode) && !s.pending && BeforeTraps(s, t).mode == RESERVED
    ensures !BeforeTraps(s, t).pending
  {
    hide BeforeTraps, CheckedAccess, Executed, Wrap, Refused;
    RunMode(s, t);
    QuietRun(s, t);
  }

  lemma CycleKeepsTidy(s: State, t: Protection.Turn)
    requires Tidy(s) && IsLevel(s.mode)
    ensures Tidy(Cycle(s, t.decode, t.lines))
  {
    hide Inside, TidyTrap, Bits, Cycle, BeforeTraps, PrepareInterrupts;
    var q := BeforeTraps(s, t);
    CycleIsValid(s, t);
    CycleAfter(s, t);
    RunKeepsTidy(s, t);
    if q.mode == RESERVED {
      ReservedIsQuiet(s, t);
    } else {
      PrepareKeepsTidy(q);
    }
  }

  lemma ResetIsTidy(mem: Memory)
    ensures Tidy(Reset(mem))
  {
    hide Inside;
    assert Bits(0) == 0;
    forall level: Priv, reg: TrapReg | IsLevel(level)
      ensures Inside(ReadReg(Reset(mem).trap, level, reg), FullMask(level, reg))
    {
      ZeroInside(FullMask(level, reg));
      AllInside(ReadReg(Reset(mem).trap, level, reg));
    }
    ZeroInside(SATP_MASK);
  }

  lemma {:induction false} RunsStayTidy(s: State, turns: seq<Protection.Turn>)
    requires Tidy(s)
    ensures Tidy(RunAll(s, turns))
    decreases turns
  {
    hide TidyTrap, Inside, Bits, Cycle;
    if turns != [] && s.mode != RESERVED {
      CycleKeepsTidy(s, turns[0]);
      RunsStayTidy(Cycle(s, turns[0].decode, turns[0].lines), turns[1..]);
    }
  }

  /**
    * In every state that a run from reset reaches, no CSR of the trap unit nor satp holds a bit
    * outside its mask, x0 is 0 and no exception waits to be taken.
    */
  lemma ReachableStatesAreTidy(mem: Memory, turns: seq<Protection.Turn>)
    ensures Tidy(RunAll(Reset(mem), turns))
  {
    hide Tidy;
    ResetIsTidy(mem);
    RunsStayTidy(Reset(mem), turns);
  }

  // Views

  /** The bits of a view after a CSR instruction with the operand `v`. */
  predicate ViewBecomes(op: CsrOp, now: bv32, v: bv32, mask: bv32, after: bv32) {
    after & mask == match op
                    case ReadWrite => v & mask
                    case ReadSet => (now & mask) | (v & mask)
                    case ReadClear => (now & mask) & !(v & mask)
  }

  predicate SameOutside(before: bv32, after: bv32, mask: bv32) {
    after & !mask == before & !mask
  }

  lemma ReplaceOutside(now: bv32, v: bv32, mask: bv32)
    ensures SameOutside(now, Combine(ReadWrite, now, v, mask), mask)
  {
  }

  lemma ZeroOutside(now: bv32, v: bv32, mask: bv32)
    ensures SameOutside(now, Combine(ReadWrite, 0, v, mask), mask) <==> Inside(now, mask)
  {
  }

  lemma ReplaceView(now: bv32, before: bv32, v: bv32, mask: bv32)
    ensures ViewBecomes(ReadWrite, now, v, mask, Combine(ReadWrite, before, v, mask))
  {
  }

  lemma SetOutside(now: bv32, v: bv32, mask: bv32)
    ensures SameOutside(now, Combine(ReadSet, now, v, mask), mask)
  {
  }

  lemma SetView(now: bv32, v: bv32, mask: bv32)
    ensures ViewBecomes(ReadSet, now, v, mask, Combine(ReadSet, now, v, mask))
  {
  }

  lemma ClearOutside(now: bv32, v: bv32, mask: bv32)
    ensures SameOutside(now, Combine(ReadClear, now, v, mask), mask)
  {
  }

  lemma ClearView(now: bv32, v: bv32, mask: bv32)
    ensures ViewBecomes(ReadClear, now, v, mask, Combine(ReadClear, now, v, mask))
  {
  }

  lemma CombineView(op: CsrOp, now: bv32, before: bv32, v: bv32, mask: bv32)
    requires before == now || (op == ReadWrite && before == 0)
    ensures var r := Combine(op, before, v, mask);
      && (before == now ==> SameOutside(now, r, mask))
      && (before == 0 && op == ReadWrite ==> (SameOutside(now, r, mask) <==> Inside(now, mask)))
      && ViewBecomes(op, now, v, mask, r)
  {
    hide Combine, SameOutside, Inside, ViewBecomes;
    match op
    case ReadWrite =>
      ReplaceOutside(now, v, mask);
      ZeroOutside(now, v, mask);
      ReplaceView(now, before, v, mask);
    case ReadSet =>
      SetOutside(now, v, mask);
      SetView(now, v, mask);
    case ReadClear =>
      ClearOutside(now, v, mask);
      ClearView(now, v, mask);
  }

  /** What an accepted write to a trap register leaves in the CSRs. */
  lemma TrapWriteReads(s: State, op: CsrOp, rd: Reg, o: Operand, a: CsrAddress)
    requires s.Valid() && Describe(a).target.TrapRegister?
    requires !Refused(s.mode, op, rd, o, a) && CsrWrites(op, o)
    ensures var d := Describe(a);
      DoCsr(s, op, rd, o, a).trap == WriteReg(s.trap, d.target.level, d.target.reg, NewValue(s, op, rd, o, a))
  {
    hide Describe, Refused, PutCsr, DoCsr, NewValue, Before, Value, Visible, WriteReg;
    CsrOutcome(s, op, rd, o, a);
    PutTarget(s, a, NewValue(s, op, rd, o, a));
  }

  /** No other register changes. */
  lemma OtherRegistersStay(s: State, op: CsrOp, rd: Reg, o: Operand, a: CsrAddress, level: Priv, reg: TrapReg)
    requires s.Valid() && Describe(a).target.TrapRegister? && IsLevel(level)
    requires !Refused(s.mode, op, rd, o, a) && CsrWrites(op, o)
    ensures var d := Describe(a);
      ReadReg(DoCsr(s, op, rd, o, a).trap, level, reg)
      == if reg == d.target.reg && (level == d.target.level || Shared(reg)) then NewValue(s, op, rd, o, a)
         else ReadReg(s.trap, level, reg)
  {
    hide Describe, Refused, DoCsr, NewValue, ReadReg, WriteReg;
    TrapWriteReads(s, op, rd, o, a);
    ReadAfterWrite(s.trap, Describe(a).target.level, Describe(a).target.reg, NewValue(s, op, rd, o, a), level, reg);
  }

  /**
    * An accepted write through the view `a` of a trap register: the view itself changes as the
    * instruction says, and the register's bits outside the view stay, unless the instruction is a
    * CSRRW into x0, which zeroes them: then they stay exactly if there were none.
    */
  lemma ViewsAreIsolated(s: State, op: CsrOp, rd: Reg, o: Operand, a: CsrAddress)
    requires s.Valid() && Describe(a).target.TrapRegister?
    requires !Refused(s.mode, op, rd, o, a) && CsrWrites(op, o)
    ensures var d := Describe(a);
      var now, after := CsrValue(s, d.target, a), CsrValue(DoCsr(s, op, rd, o, a), d.target, a);
      && ViewBecomes(op, now, OperandValue(s, o), d.mask, after)
      && (SameOutside(now, after, d.mask) <==> CsrReads(op, rd) || Inside(now, d.mask))
  {
    hide Describe, Refused, DoCsr, Combine, OperandValue, Value, Visible, ReadReg, WriteReg, ViewBecomes, Inside, SameOutside;
    var d := Describe(a);
    OtherRegistersStay(s, op, rd, o, a, d.target.level, d.target.reg);
    CombineView(op, CsrValue(s, d.target, a), Before(s, op, rd, a), OperandValue(s, o), d.mask);
  }
}
