/** What code below machine mode can reach, over whole runs. */
module Isolation {
  import opened Words
  import opened Pmp
  import opened Mmu
  import opened Trap
  import opened Csr
  import opened Core
  import opened CsrRules
  import opened Protection
  import opened TrapProofs
  import opened StatusBits
  import opened Privilege
  import opened CsrViews

  /** Outside `mask`, bits were cleared at most. */
  predicate OnlyClears(before: bv32, after: bv32, mask: bv32) {
    after & !mask & !before == 0
  }

  /** Some store made below machine mode can reach byte `b`. */
  ghost predicate Writable(p: PmpState, b: Word)
    requires p.Valid()
  {
    exists a: Word, len: nat :: Width(len) && InAccess(b, a, len) && Allowed(p, USER, a, len, Write)
  }

  /** MPRV does not lend machine privilege to data accesses. */
  predicate NoLoan(status: bv32) {
    !(IsSet(status, MPRV) && Mpp(status) == MACHINE)
  }

  /**
    * From `s` to `r`, everything that belongs to machine mode kept its value, except that bits of
    * mstatus and mie outside the supervisor's view may have been cleared.
    */
  ghost predicate Confined(s: State, r: State)
    requires s.Valid()
  {
    && r.Valid() && r.pmp == s.pmp && r.trap.m == s.trap.m
    && OnlyClears(s.trap.status, r.trap.status, SSTATUS_MASK)
    && OnlyClears(s.trap.ie, r.trap.ie, SIP_SIE_MASK)
    && (forall b: Word :: !Writable(s.pmp, b) ==> r.mem(b) == s.mem(b))
  }

  // The privilege of an access

  /**
    * Fetches use the current mode; loads and stores use it exactly if MPRV is clear or MPP holds it.
    * Below machine mode an access has machine privilege exactly if it is not a fetch and there is a loan.
    */
  lemma LoanIsExact(s: State, access: Access)
    ensures Effective(s, Fetch) == s.mode && Effective(s, Read) == Effective(s, Write)
    ensures (forall a: Access :: Effective(s, a) == s.mode) <==> !IsSet(s.trap.status, MPRV) || Mpp(s.trap.status) == s.mode
    ensures s.mode <= SUPERVISOR ==> (Effective(s, access) == MACHINE <==> access != Fetch && !NoLoan(s.trap.status))
  {
    hide IsSet, Mpp;
    assert Effective(s, Read) == if IsSet(s.trap.status, MPRV) then Mpp(s.trap.status) else s.mode;
  }

  // Bits

  lemma ClearsNothing(w: bv32, mask: bv32)
    ensures OnlyClears(w, w, mask)
  {
  }

  lemma ClearsRaw(a: bv32, b: bv32, c: bv32, mask: bv32)
    requires b & !mask & !a == 0 && c & !mask & !b == 0
    ensures c & !mask & !a == 0
  {
  }

  lemma ClearsTwice(a: bv32, b: bv32, c: bv32, mask: bv32)
    requires OnlyClears(a, b, mask) && OnlyClears(b, c, mask)
    ensures OnlyClears(a, c, mask)
  {
    ClearsRaw(a, b, c, mask);
  }

  lemma LoanRaw(before: bv32, after: bv32)
    requires after & !0x800D_E133 & !before == 0
    requires !(before & 0x2_0000 != 0 && (before >> 11) & 3 == 3)
    ensures !(after & 0x2_0000 != 0 && (after >> 11) & 3 == 3)
  {
  }

  /** The supervisor cannot make MPRV lend machine privilege. */
  lemma NoLoanStays(before: bv32, after: bv32)
    requires OnlyClears(before, after, SSTATUS_MASK) && NoLoan(before)
    ensures NoLoan(after)
  {
    hide Mpp;
    MppIsThree(before);
    MppIsThree(after);
    LoanRaw(before, after);
  }

  lemma MppIsThree(status: bv32)
    ensures Mpp(status) == MACHINE <==> (status >> 11) & 3 == 3
  {
    var f := (status >> 11) & 3;
    FieldRange(status);
    assert Mpp(status) == PrivOf(f);
  }

  lemma ReplaceOnlyClears(now: bv32, v: bv32, mask: bv32)
    ensures OnlyClears(now, Combine(ReadWrite, now, v, mask), mask)
    ensures OnlyClears(now, Combine(ReadWrite, 0, v, mask), mask)
  {
  }

  lemma SetOnlyClears(now: bv32, v: bv32, mask: bv32)
    ensures OnlyClears(now, Combine(ReadSet, now, v, mask), mask)
  {
  }

  lemma ClearOnlyClears(now: bv32, v: bv32, mask: bv32)
    ensures OnlyClears(now, Combine(ReadClear, now, v, mask), mask)
  {
  }

  lemma CombineOnlyClears(op: CsrOp, now: bv32, before: bv32, v: bv32, mask: bv32)
    requires before == now || (op == ReadWrite && before == 0)
    ensures OnlyClears(now, Combine(op, before, v, mask), mask)
  {
    hide OnlyClears, Combine;
    ReplaceOnlyClears(now, v, mask);
    SetOnlyClears(now, v, mask);
    ClearOnlyClears(now, v, mask);
  }

  lemma AgreeOnlyClears(before: bv32, after: bv32, mask: bv32)
    requires Agree(after, before, !mask)
    ensures OnlyClears(before, after, mask)
  {
  }

  /** All that lower levels stack lies in the supervisor's view of the status. */
  lemma LowerFieldsInView(level: Priv)
    requires level <= SUPERVISOR
    ensures Apart(level, !SSTATUS_MASK)
  {
  }

  lemma LeaveOnlyClears(status: bv32, level: Priv)
    requires level <= SUPERVISOR
    ensures OnlyClears(status, LeaveStatus(status, level), SSTATUS_MASK)
  {
    hide Agree, Disjoint, OnlyClears, LeaveStatus, IeBit, PieBit, PpMask;
    LowerFieldsInView(level);
    LeaveApart(status, level, !SSTATUS_MASK);
    AgreeOnlyClears(status, LeaveStatus(status, level), SSTATUS_MASK);
  }

  lemma EnterOnlyClears(status: bv32, level: Priv, previous: Priv)
    requires previous <= level <= SUPERVISOR
    ensures OnlyClears(status, EnterStatus(status, level, previous), SSTATUS_MASK)
  {
    hide Agree, Apart, OnlyClears, EnterStatus;
    LowerFieldsInView(level);
    EnterApart(status, level, previous, !SSTATUS_MASK);
    AgreeOnlyClears(status, EnterStatus(status, level, previous), SSTATUS_MASK);
  }

  /** The view of the supervisor and the fields MPP and MPIE, which entering machine mode writes. */
  const ENTRY_MASK: bv32 := 0x800D_F9B3

  /** All of them and MIE, which entering machine mode clears. */
  lemma EntryFields()
    ensures Apart(MACHINE, !0x800D_F9BB)
  {
  }

  lemma ClearedToo(before: bv32, after: bv32)
    requires Agree(after, before, !0x800D_F9BB) && !IsSet(after, 8)
    ensures OnlyClears(before, after, ENTRY_MASK)
  {
  }

  lemma EnterMachineOnlyClears(status: bv32, previous: Priv)
    ensures OnlyClears(status, EnterStatus(status, MACHINE, previous), ENTRY_MASK)
  {
    hide Agree, Apart, OnlyClears, EnterStatus, IsSet;
    EntryFields();
    EnterApart(status, MACHINE, previous, !0x800D_F9BB);
    EnterFields(status, MACHINE, previous);
    ClearedToo(status, EnterStatus(status, MACHINE, previous));
  }

  lemma OnlyClearsMore(before: bv32, after: bv32)
    requires OnlyClears(before, after, SSTATUS_MASK)
    ensures OnlyClears(before, after, ENTRY_MASK)
    ensures IsSet(after, 8) ==> IsSet(before, 8)
  {
  }

  // One instruction

  lemma ConfinedChain(s: State, r: State, q: State)
    requires s.Valid() && Confined(s, r) && Confined(r, q)
    ensures Confined(s, q)
  {
    hide OnlyClears, Writable;
    ClearsTwice(s.trap.status, r.trap.status, q.trap.status, SSTATUS_MASK);
    ClearsTwice(s.trap.ie, r.trap.ie, q.trap.ie, SIP_SIE_MASK);
  }

  lemma Alike(s: State, r: State)
    requires s.Valid() && r.Valid()
    requires r.pmp == s.pmp && r.mem == s.mem && r.trap.m == s.trap.m && r.trap.ie == s.trap.ie
    requires OnlyClears(s.trap.status, r.trap.status, SSTATUS_MASK)
    ensures Confined(s, r)
  {
    ClearsNothing(s.trap.ie, SIP_SIE_MASK);
  }

  lemma SameBelowMachine(p: PmpState, priv: Priv, a: Word, len: nat, access: Access)
    requires p.Valid() && priv != MACHINE
    ensures Allowed(p, priv, a, len, access) == Allowed(p, USER, a, len, access)
  {
    var e := Wrap(a + (len - 1));
    hide Matches, Locked, Mode, Grants;
    forall j: nat | j < ENTRIES
      ensures Hit(p, priv, j, a, e) == Hit(p, USER, j, a, e)
    {
    }
    hide Hit;
    FirstHitIs(p, USER, a, e, 0, FirstHit(p, priv, a, e, 0));
  }

  lemma StoreConfined(s: State, va: Word, len: nat, v: Word)
    requires s.Valid() && s.mode <= SUPERVISOR && NoLoan(s.trap.status) && Width(len)
    ensures Confined(s, DoStore(s, va, len, v))
  {
    var r := DoStore(s, va, len, v);
    hide Translate, Allowed, WriteBytes, IsSet, Mpp, OnlyClears;
    ClearsNothing(s.trap.ie, SIP_SIE_MASK);
    ClearsNothing(s.trap.status, SSTATUS_MASK);
    if CheckedAccess(s, Write, va, len).Success? {
      var pa := CheckedAccess(s, Write, va, len).value;
      SameBelowMachine(s.pmp, Effective(s, Write), pa, len, Write);
      forall b: Word | !Writable(s.pmp, b)
        ensures r.mem(b) == s.mem(b)
      {
        Written(s.mem, pa, len, v, b);
        assert !InAccess(b, pa, len);
      }
    }
  }

  lemma AmoConfined(s: State, op: AmoOp, rd: Reg, rs1: Reg, rs2: Reg)
    requires s.Valid() && s.mode <= SUPERVISOR && NoLoan(s.trap.status)
    ensures Confined(s, DoAmo(s, op, rd, rs1, rs2))
  {
    hide DoLoad, DoStore, AmoResult, OnlyClears, Writable, NoLoan;
    var loaded := DoLoad(s, rd, s.x[rs1], 4, false);
    LoadFrame(s, rd, s.x[rs1], 4, false);
    ClearsNothing(s.trap.status, SSTATUS_MASK);
    Alike(s, loaded);
    StoreConfined(loaded, s.x[rs1], 4, AmoResult(op, loaded.x[rd], s.x[rs2]));
    ConfinedChain(s, loaded, DoAmo(s, op, rd, rs1, rs2));
  }

  lemma StoreConditionalConfined(s: State, rd: Reg, rs1: Reg, rs2: Reg)
    requires s.Valid() && s.mode <= SUPERVISOR && NoLoan(s.trap.status)
    ensures Confined(s, DoStoreConditional(s, rd, rs1, rs2))
  {
    hide DoStore, OnlyClears, Writable, NoLoan;
    ClearsNothing(s.trap.ie, SIP_SIE_MASK);
    ClearsNothing(s.trap.status, SSTATUS_MASK);
    if s.lrValid && s.lrAddress == s.x[rs1] {
      StoreConfined(s, s.x[rs1], 4, s.x[rs2]);
    }
  }

  /** What a mode below machine mode may write. */
  lemma WritableBelowMachine(a: CsrAddress, mode: Priv)
    requires mode < MACHINE && mode in Describe(a).writers
    ensures var d := Describe(a);
      && !d.target.PmpCfg? && !d.target.PmpAddr?
      && (d.target.TrapRegister? ==>
            d.target.level == SUPERVISOR
            && (d.target.reg == Status ==> d.mask == SSTATUS_MASK)
            && (d.target.reg == Ie || d.target.reg == Ip ==> d.mask == SIP_SIE_MASK))
  {
  }

  lemma WriteRegFrame(t: TrapState, level: Priv, reg: TrapReg, v: bv32)
    requires level == SUPERVISOR
    ensures var r := WriteReg(t, level, reg, v);
      && r.m == t.m
      && r.status == (if reg == Status then v else t.status)
      && r.ie == (if reg == Ie then v else t.ie)
  {
    hide SetRegs, Value;
    forall regs: LevelRegs
      ensures var q := SetRegs(t, level, regs); q.m == t.m && q.status == t.status && q.ie == t.ie
    {
      SetRegsFrame(t, level, regs);
    }
  }

  lemma SetRegsFrame(t: TrapState, level: Priv, regs: LevelRegs)
    requires level == SUPERVISOR
    ensures var q := SetRegs(t, level, regs); q.m == t.m && q.status == t.status && q.ie == t.ie
  {
  }

  lemma SharedValue(s: State, a: CsrAddress)
    requires s.Valid()
    ensures var d := Describe(a);
      && (d.target.TrapRegister? && d.target.reg == Status ==> CsrValue(s, d.target, a) == s.trap.status)
      && (d.target.TrapRegister? && d.target.reg == Ie ==> CsrValue(s, d.target, a) == s.trap.ie)
  {
    hide Describe, Bits;
  }

  lemma PutConfined(s: State, op: CsrOp, rd: Reg, o: Operand, a: CsrAddress)
    requires s.Valid() && s.mode <= SUPERVISOR && s.mode in Describe(a).writers
    ensures Confined(s, PutCsr(s, Describe(a), a, NewValue(s, op, rd, o, a)))
  {
    var d := Describe(a);
    var v := NewValue(s, op, rd, o, a);
    WritableBelowMachine(a, s.mode);
    hide Describe, Combine, OperandValue, PutCsr, Value, CsrValue, OnlyClears, Writable, WriteReg;
    PutFrame(s, a, v);
    PutTarget(s, a, v);
    ClearsNothing(s.trap.ie, SIP_SIE_MASK);
    ClearsNothing(s.trap.status, SSTATUS_MASK);
    if d.target.TrapRegister? {
      WriteRegFrame(s.trap, d.target.level, d.target.reg, v);
      SharedValue(s, a);
      CombineOnlyClears(op, CsrValue(s, d.target, a), Before(s, op, rd, a), OperandValue(s, o), d.mask);
    }
  }

  lemma CsrConfined(s: State, op: CsrOp, rd: Reg, o: Operand, a: CsrAddress)
    requires s.Valid() && s.mode <= SUPERVISOR
    ensures Confined(s, DoCsr(s, op, rd, o, a))
  {
    hide Describe, PutCsr, NewValue, Before, Visible, Value, DoCsr, OnlyClears, Writable;
    CsrOutcome(s, op, rd, o, a);
    ClearsNothing(s.trap.ie, SIP_SIE_MASK);
    ClearsNothing(s.trap.status, SSTATUS_MASK);
    if !Refused(s.mode, op, rd, o, a) && CsrWrites(op, o) {
      PutConfined(s, op, rd, o, a);
    }
  }

  lemma QuietFrame(s: State, instr: Instr)
    requires s.Valid() && !ReachesMemory(instr) && !instr.CsrAccess? && !instr.Mret? && !instr.Sret?
    ensures Execute(s, instr).trap == s.trap && Execute(s, instr).mode == s.mode
  {
    hide DoLoad, DoStore, DoLoadReserved, DoReturn, Wrap;
    match instr
    case Load(rd, rs1, offset, len, signed) => LoadFrame(s, rd, Wrap(s.x[rs1] + offset), len, signed);
    case LoadReserved(rd, rs1) =>
      LoadReservedIs(s, rd, rs1);
      LoadFrame(s.(lrAddress := s.x[rs1], lrValid := true), rd, s.x[rs1], 4, false);
    case _ =>
  }

  lemma ExecuteConfined(s: State, instr: Instr)
    requires s.Valid() && s.mode <= SUPERVISOR && NoLoan(s.trap.status) && instr.Legal()
    ensures Confined(s, Execute(s, instr))
  {
    hide DoLoad, DoStore, DoLoadReserved, DoStoreConditional, DoAmo, DoCsr, DoReturn, Confined, NoLoan, Wrap;
    if !ReachesMemory(instr) && !instr.CsrAccess? {
      ExecuteFrame(s, instr);
      if instr.Mret? || instr.Sret? {
        hide LeaveStatus, OnlyClears;
        ReturnFrame(s, s.trap.m.epc);
        ReturnFrame(s, s.trap.s.epc);
        ReturnStatus(s, s.trap.m.epc);
        ReturnStatus(s, s.trap.s.epc);
        LeaveOnlyClears(s.trap.status, s.mode);
      } else {
        QuietFrame(s, instr);
        ClearsNothing(s.trap.status, SSTATUS_MASK);
      }
      Alike(s, Execute(s, instr));
    } else {
      match instr
      case Store(rs1, rs2, offset, len) => StoreConfined(s, Wrap(s.x[rs1] + offset), len, s.x[rs2]);
      case StoreConditional(rd, rs1, rs2) => StoreConditionalConfined(s, rd, rs1, rs2);
      case Amo(op, rd, rs1, rs2) => AmoConfined(s, op, rd, rs1, rs2);
      case CsrAccess(op, rd, o, a) => CsrConfined(s, op, rd, o, a);
    }
  }

  lemma ReturnStatus(s: State, epc: Word)
    ensures DoReturn(s, epc).trap.status == LeaveStatus(s.trap.status, s.mode)
  {
  }

  // Cycles and runs

  lemma RunConfined(s: State, t: Protection.Turn)
    requires s.Valid() && s.mode <= SUPERVISOR && NoLoan(s.trap.status) && LegalDecoder(t.decode)
    ensures Confined(s, BeforeTraps(s, t))
  {
    hide Execute, CheckedAccess, ReadBytes, PendingBits, Counters, Wrap, OnlyClears, NoLoan, Writable;
    var s0 := s.(nextPc := 0);
    var i := Executed(s, t.decode);
    if i.Some? {
      ExecuteConfined(s0, i.value);
    }
    ClearsNothing(s.trap.status, SSTATUS_MASK);
    ClearsNothing(s.trap.ie, SIP_SIE_MASK);
  }

  /** Serving a trap at a lower level. */
  lemma TrapConfined(q: State, level: Priv, interrupt: bool, cause: Words.Cause)
    requires q.Valid() && q.mode <= level <= SUPERVISOR
    ensures Confined(q, TakeTrap(q, level, interrupt, cause))
  {
    hide EnterStatus, OnlyClears, Writable, Wrap;
    EnterOnlyClears(q.trap.status, level, q.mode);
    Alike(q, TakeTrap(q, level, interrupt, cause));
  }

  /**
    * Machine mode was entered: at its vector, with the mode that was left in MPP and the old MIE
    * in MPIE, and otherwise with no bit set outside the supervisor's views.
    */
  ghost predicate EnteredMachine(s: State, c: State)
    requires s.Valid()
  {
    && c.Valid() && c.mode == MACHINE && c.pc == s.trap.m.tvec && Mpp(c.trap.status) <= SUPERVISOR
    && c.pmp == s.pmp
    && OnlyClears(s.trap.ie, c.trap.ie, SIP_SIE_MASK) && OnlyClears(s.trap.status, c.trap.status, ENTRY_MASK)
    && !IsSet(c.trap.status, IeBit(MACHINE)) && (IsSet(c.trap.status, PieBit(MACHINE)) ==> IsSet(s.trap.status, IeBit(MACHINE)))
    && c.trap.m == s.trap.m.(epc := c.trap.m.epc, cause := c.trap.m.cause, tval := c.trap.m.tval)
    && (forall b: Word :: !Writable(s.pmp, b) ==> c.mem(b) == s.mem(b))
  }

  lemma MachineTrap(q: State, interrupt: bool, cause: Words.Cause)
    requires q.Valid() && q.mode <= SUPERVISOR
    ensures EnteredMachine(q, TakeTrap(q, MACHINE, interrupt, cause))
  {
    TakeTrapTraps(q, MACHINE, interrupt, cause);
    ClearsNothing(q.trap.ie, SIP_SIE_MASK);
    EnterMachineOnlyClears(q.trap.status, q.mode);
    hide EnterStatus, Mpp, Spp, IsSet, IeBit, PieBit, Writable, Wrap, OnlyClears;
  }

  ghost predicate ConfinedOrEntered(s: State, c: State)
    requires s.Valid()
  {
    if c.mode == MACHINE then EnteredMachine(s, c) else c.mode <= SUPERVISOR && Confined(s, c)
  }

  lemma TakeTrapConfined(q: State, level: Priv, interrupt: bool, cause: Words.Cause)
    requires q.Valid() && q.mode <= SUPERVISOR && IsLevel(level) && q.mode <= level
    ensures ConfinedOrEntered(q, TakeTrap(q, level, interrupt, cause))
  {
    hide Confined, EnteredMachine, Serve;
    if level == MACHINE {
      MachineTrap(q, interrupt, cause);
    } else {
      TrapConfined(q, level, interrupt, cause);
    }
  }

  lemma PrepareConfined(q: State)
    requires q.Valid() && q.mode <= SUPERVISOR
    ensures ConfinedOrEntered(q, PrepareInterrupts(q))
  {
    hide Serve, InterruptLevel, Writable, OnlyClears, Mpp, TakeTrap, IsSet;
    if q.pending {
      var level := ExceptionLevel(q.trap, q.mode, q.cause);
      ExceptionLevelIsExact(q.trap, q.mode, q.cause, level);
      hide ExceptionLevel;
      TakeTrapConfined(q, level, false, q.cause);
    } else if FirstInterrupt(q.trap, q.mode, LAST_INTERRUPT).Some? {
      var hit := FirstInterrupt(q.trap, q.mode, LAST_INTERRUPT).value;
      TakeTrapConfined(q, hit.1, true, hit.0);
    } else {
      ClearsNothing(q.trap.status, SSTATUS_MASK);
      ClearsNothing(q.trap.ie, SIP_SIE_MASK);
    }
  }

  lemma EnteredChain(s: State, q: State, c: State)
    requires s.Valid() && Confined(s, q) && ConfinedOrEntered(q, c)
    ensures ConfinedOrEntered(s, c)
  {
    hide OnlyClears, Writable, Mpp, IsSet;
    if c.mode != MACHINE {
      ConfinedChain(s, q, c);
    } else {
      OnlyClearsMore(s.trap.status, q.trap.status);
      ClearsTwice(s.trap.status, q.trap.status, c.trap.status, ENTRY_MASK);
      ClearsTwice(s.trap.ie, q.trap.ie, c.trap.ie, SIP_SIE_MASK);
    }
  }

  lemma CycleConfined(s: State, t: Protection.Turn)
    requires s.Valid() && s.mode <= SUPERVISOR && NoLoan(s.trap.status) && LegalDecoder(t.decode)
    ensures ConfinedOrEntered(s, Cycle(s, t.decode, t.lines))
  {
    hide Cycle, BeforeTraps, PrepareInterrupts, Confined, ConfinedOrEntered, NoLoan;
    RunMode(s, t);
    RunConfined(s, t);
    CycleAfter(s, t);
    PrepareConfined(BeforeTraps(s, t));
    EnteredChain(s, BeforeTraps(s, t), Cycle(s, t.decode, t.lines));
  }

  /** Every state of the run but its last one is below machine mode. */
  ghost predicate StaysBelow(s: State, turns: seq<Protection.Turn>)
    requires s.Valid()
    decreases turns
  {
    turns == [] ||
    (CycleIsValid(s, turns[0]);
     s.mode <= SUPERVISOR && StaysBelow(Cycle(s, turns[0].decode, turns[0].lines), turns[1..]))
  }

  /**
    * Whatever code runs below machine mode, until it enters machine mode it changes no PMP entry,
    * no register of machine mode and no byte that the PMP entries do not let it write, and it sets
    * no bit of mstatus or mie outside its own view. It enters machine mode at mtvec only, and then
    * mepc, mcause and mtval are the only machine registers with new values, and MPP and MPIE the
    * only further fields of mstatus.
    */
  lemma {:induction false} LowerModesAreConfined(s: State, turns: seq<Protection.Turn>)
    requires s.Valid() && s.mode <= SUPERVISOR && NoLoan(s.trap.status)
    requires LegalTurns(turns) && StaysBelow(s, turns)
    ensures ConfinedOrEntered(s, RunAll(s, turns))
    decreases turns
  {
    hide Cycle, Writable, OnlyClears, Mpp, NoLoan, IsSet;
    ClearsNothing(s.trap.status, SSTATUS_MASK);
    ClearsNothing(s.trap.ie, SIP_SIE_MASK);
    if turns != [] {
      var c := Cycle(s, turns[0].decode, turns[0].lines);
      CycleConfined(s, turns[0]);
      if c.mode == MACHINE {
        assert turns[1..] == [];
      } else {
        NoLoanStays(s.trap.status, c.trap.status);
        LowerModesAreConfined(c, turns[1..]);
        EnteredChain(s, c, RunAll(c, turns[1..]));
      }
    }
  }

  // Pending machine interrupts

  /** The line behind a machine interrupt's pending bit. */
  predicate Drives(lines: Lines, bit: bv32) {
    (bit == 0x800 && lines.ext) || (bit == 0x80 && lines.tim) || (bit == 8 && lines.sw)
  }

  predicate MachineBit(bit: bv32) {
    bit == 0x800 || bit == 0x80 || bit == 8
  }

  lemma OnlyClearsBit(before: bv32, after: bv32, bit: bv32)
    requires OnlyClears(before, after, SIP_SIE_MASK) && MachineBit(bit)
    ensures IsSet(after, bit) ==> IsSet(before, bit)
  {
  }

  lemma PutKeepsPending(s: State, op: CsrOp, rd: Reg, o: Operand, a: CsrAddress)
    requires s.Valid() && s.mode <= SUPERVISOR && s.mode in Describe(a).writers
    ensures OnlyClears(s.trap.ip, PutCsr(s, Describe(a), a, NewValue(s, op, rd, o, a)).trap.ip, SIP_SIE_MASK)
  {
    var d := Describe(a);
    var v := NewValue(s, op, rd, o, a);
    WritableBelowMachine(a, s.mode);
    hide Describe, Combine, OperandValue, PutCsr, Value, CsrValue, OnlyClears, WriteReg;
    ClearsNothing(s.trap.ip, SIP_SIE_MASK);
    PutTarget(s, a, v);
    hide NewValue;
    if d.target.TrapRegister? {
      WritePending(s.trap, d.target.level, d.target.reg, v);
      PendingValue(s, a);
      CombineOnlyClears(op, CsrValue(s, d.target, a), Before(s, op, rd, a), OperandValue(s, o), d.mask);
    }
  }

  lemma WritePending(t: TrapState, level: Priv, reg: TrapReg, v: bv32)
    requires level == SUPERVISOR
    ensures WriteReg(t, level, reg, v).ip == if reg == Ip then v else t.ip
  {
    hide WithField;
  }

  lemma PendingValue(s: State, a: CsrAddress)
    requires s.Valid()
    ensures var d := Describe(a);
      d.target.TrapRegister? && d.target.reg == Ip ==> CsrValue(s, d.target, a) == s.trap.ip
  {
    hide Describe, Bits;
  }

  lemma ExecuteKeepsPending(s: State, i: Instr)
    requires s.Valid() && s.mode <= SUPERVISOR
    ensures OnlyClears(s.trap.ip, Execute(s, i).trap.ip, SIP_SIE_MASK)
  {
    hide DoLoad, DoStore, DoLoadReserved, DoStoreConditional, DoAmo, DoCsr, DoReturn, OnlyClears, Wrap;
    ClearsNothing(s.trap.ip, SIP_SIE_MASK);
    match i
    case CsrAccess(op, rd, o, a) =>
      hide Describe, Refused, PutCsr, NewValue, Before, Value, Visible;
      CsrOutcome(s, op, rd, o, a);
      if !Refused(s.mode, op, rd, o, a) && CsrWrites(op, o) {
        WriteIsGranted(s, op, rd, o, a);
        PutKeepsPending(s, op, rd, o, a);
      }
    case Mret => ReturnFrame(s, s.trap.m.epc);
    case Sret => ReturnFrame(s, s.trap.s.epc);
    case _ => OthersKeepCsrs(s, i);
  }

  lemma WriteIsGranted(s: State, op: CsrOp, rd: Reg, o: Operand, a: CsrAddress)
    requires !Refused(s.mode, op, rd, o, a) && CsrWrites(op, o)
    ensures s.mode in Describe(a).writers
  {
    hide Describe;
  }

  lemma RunKeepsPending(s: State, t: Protection.Turn, bit: bv32)
    requires s.Valid() && s.mode <= SUPERVISOR && MachineBit(bit) && NoLoan(s.trap.status) && LegalDecoder(t.decode)
    ensures var q := BeforeTraps(s, t);
      && (IsSet(q.trap.ip, bit) ==> IsSet(s.trap.ip, bit) || (IsSet(s.trap.ie, bit) && Drives(t.lines, bit)))
      && (IsSet(q.trap.ie, bit) ==> IsSet(s.trap.ie, bit))
  {
    RunConfined(s, t);
    OnlyClearsBit(s.trap.ie, BeforeTraps(s, t).trap.ie, bit);
    hide Execute, CheckedAccess, ReadBytes, PendingBits, Counters, Wrap, IsSet, OnlyClears, FollowsLine, Agree;
    var s0 := s.(nextPc := 0);
    var r := Run(s, t.decode);
    var i := Executed(s, t.decode);
    ClearsNothing(s.trap.ip, SIP_SIE_MASK);
    if i.Some? {
      ExecuteKeepsPending(s0, i.value);
    }
    OnlyClearsBit(s.trap.ip, r.trap.ip, bit);
    LineSets(r.trap, t.lines, bit);
  }

  lemma LineSets(t: TrapState, lines: Lines, bit: bv32)
    requires MachineBit(bit)
    ensures var ip := SetPending(t, lines.ext, lines.tim, lines.sw).ip;
      IsSet(ip, bit) ==> IsSet(t.ip, bit) || (IsSet(t.ie, bit) && Drives(lines, bit))
  {
    hide IsSet, PendingBits, Agree;
    PendingFollowsLines(t, lines.ext, lines.tim, lines.sw);
  }

  lemma PrepareKeepsPending(q: State)
    requires IsLevel(q.mode)
    ensures PrepareInterrupts(q).trap.ip == q.trap.ip && PrepareInterrupts(q).trap.ie == q.trap.ie
  {
    hide EnterStatus, ExceptionLevel, FirstInterrupt, Wrap;
  }

  /**
    * Over every run below machine mode, a machine interrupt becomes pending only if it was enabled
    * in mie from the start and its own line was raised.
    */
  lemma {:induction false} MachineInterruptsComeFromLines(s: State, turns: seq<Protection.Turn>, bit: bv32)
    requires s.Valid() && s.mode <= SUPERVISOR && NoLoan(s.trap.status) && MachineBit(bit)
    requires LegalTurns(turns) && StaysBelow(s, turns)
    ensures IsSet(RunAll(s, turns).trap.ip, bit) ==>
      IsSet(s.trap.ip, bit) || (IsSet(s.trap.ie, bit) && exists t :: t in turns && Drives(t.lines, bit))
    decreases turns
  {
    hide Cycle, BeforeTraps, Writable, OnlyClears, Mpp, NoLoan, IsSet, Drives, MachineBit;
    if turns != [] {
      var c := Cycle(s, turns[0].decode, turns[0].lines);
      assert turns[0] in turns;
      CycleConfined(s, turns[0]);
      RunMode(s, turns[0]);
      CycleAfter(s, turns[0]);
      RunKeepsPending(s, turns[0], bit);
      hide PrepareInterrupts;
      PrepareKeepsPending(BeforeTraps(s, turns[0]));
      if c.mode == MACHINE {
        assert turns[1..] == [] && RunAll(c, turns[1..]) == c;
      } else {
        NoLoanStays(s.trap.status, c.trap.status);
        MachineInterruptsComeFromLines(c, turns[1..], bit);
        assert forall t :: t in turns[1..] ==> t in turns;
      }
    }
  }
}
