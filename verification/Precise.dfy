/** Exceptions are precise: one trap, at the faulting instruction, with the first fault. */
module Precise {
  import opened Words
  import opened Mmu
  import opened Trap
  import opened TrapProofs
  import opened StatusBits
  import opened Csr
  import opened Core
  import opened CsrRules
  import opened Protection
  import opened Privilege

  function FaultOf(r: Result<Word, Fault>): Option<Fault> {
    match r case Success(_) => None case Failure(f) => Some(f)
  }

  function Or(f: Option<Fault>, g: Option<Fault>): Option<Fault> {
    if f.Some? then f else g
  }

  /** The first exception of an instruction, decided in the state before it. */
  function Raises(s: State, i: Instr): Option<Fault>
    requires s.Valid()
  {
    match i
    case Load(_, rs1, offset, len, _) => FaultOf(CheckedAccess(s, Read, Wrap(s.x[rs1] + offset), len))
    case Store(rs1, _, offset, len) => FaultOf(CheckedAccess(s, Write, Wrap(s.x[rs1] + offset), len))
    case LoadReserved(_, rs1) => FaultOf(CheckedAccess(s, Read, s.x[rs1], 4))
    case StoreConditional(_, rs1, _) =>
      if s.lrValid && s.lrAddress == s.x[rs1] then FaultOf(CheckedAccess(s, Write, s.x[rs1], 4)) else None
    case Amo(_, _, rs1, _) =>
      Or(FaultOf(CheckedAccess(s, Read, s.x[rs1], 4)), FaultOf(CheckedAccess(s, Write, s.x[rs1], 4)))
    case CsrAccess(op, rd, o, a) => if Refused(s.mode, op, rd, o, a) then Some(Fault(ILLEGAL, 0)) else None
    case Ecall => Some(Fault(USER_ECALL + s.mode, 0))
    case _ => None
  }

  /** Nothing is pending after `None`, and exactly the given fault after `Some`. */
  predicate PendingIs(pending: bool, cause: Words.Cause, tval: Word, f: Option<Fault>) {
    match f
    case None => !pending
    case Some(g) => pending && cause == g.cause && tval == g.tval
  }

  lemma LoadRaises(s: State, rd: Reg, va: Word, len: nat, signed: bool)
    requires s.Valid() && !s.pending
    ensures var r, f := DoLoad(s, rd, va, len, signed), FaultOf(CheckedAccess(s, Read, va, len));
      PendingIs(r.pending, r.cause, r.tval, f) && (f.Some? ==> r == Latch(s, f.value))
  {
    hide CheckedAccess, ReadBytes, SignExtend;
  }

  lemma StoreRaises(s: State, va: Word, len: nat, v: Word)
    requires s.Valid()
    ensures var r, f := DoStore(s, va, len, v), FaultOf(CheckedAccess(s, Write, va, len));
      && (!s.pending ==> PendingIs(r.pending, r.cause, r.tval, f))
      && (s.pending ==> r.pending && r.cause == s.cause && r.tval == s.tval)
      && (f.Some? ==> r == Latch(s, f.value))
  {
    hide CheckedAccess, WriteBytes;
  }

  lemma AccessIgnoresRegisters(s: State, r: State, access: Access, va: Word, len: nat)
    requires s.Valid() && SameButFault(s.(x := r.x), r) && r.Valid()
    ensures CheckedAccess(r, access, va, len) == CheckedAccess(s, access, va, len)
  {
    hide Translate, Pmp.Allowed, IsSet, Mpp;
  }

  lemma ReservationIgnored(s: State, r: State, access: Access, va: Word, len: nat)
    requires s.Valid() && r == s.(lrAddress := r.lrAddress, lrValid := r.lrValid)
    ensures CheckedAccess(r, access, va, len) == CheckedAccess(s, access, va, len)
  {
    hide Translate, Pmp.Allowed, IsSet, Mpp;
  }

  lemma AmoRaises(s: State, op: AmoOp, rd: Reg, rs1: Reg, rs2: Reg)
    requires s.Valid() && !s.pending
    ensures var r := DoAmo(s, op, rd, rs1, rs2);
      PendingIs(r.pending, r.cause, r.tval, Raises(s, Amo(op, rd, rs1, rs2)))
  {
    hide DoLoad, DoStore, AmoResult, CheckedAccess;
    var loaded := DoLoad(s, rd, s.x[rs1], 4, false);
    LoadFrame(s, rd, s.x[rs1], 4, false);
    LoadRaises(s, rd, s.x[rs1], 4, false);
    AccessIgnoresRegisters(s, loaded, Write, s.x[rs1], 4);
    StoreRaises(loaded, s.x[rs1], 4, AmoResult(op, loaded.x[rd], s.x[rs2]));
  }

  lemma ConditionalRaises(s: State, rd: Reg, rs1: Reg, rs2: Reg)
    requires s.Valid() && !s.pending
    ensures var r := DoStoreConditional(s, rd, rs1, rs2);
      PendingIs(r.pending, r.cause, r.tval, Raises(s, StoreConditional(rd, rs1, rs2)))
  {
    hide DoStore, CheckedAccess;
    StoreRaises(s, s.x[rs1], 4, s.x[rs2]);
  }

  lemma ReservedRaises(s: State, rd: Reg, rs1: Reg)
    requires s.Valid() && !s.pending
    ensures var r := DoLoadReserved(s, rd, rs1);
      PendingIs(r.pending, r.cause, r.tval, Raises(s, LoadReserved(rd, rs1)))
  {
    hide DoLoad, CheckedAccess;
    var s1 := s.(lrAddress := s.x[rs1], lrValid := true);
    LoadRaises(s1, rd, s.x[rs1], 4, false);
    ReservationIgnored(s, s1, Read, s.x[rs1], 4);
  }

  lemma CsrRaises(s: State, op: CsrOp, rd: Reg, o: Operand, a: CsrAddress)
    requires s.Valid() && !s.pending
    ensures var r := DoCsr(s, op, rd, o, a);
      PendingIs(r.pending, r.cause, r.tval, Raises(s, CsrAccess(op, rd, o, a)))
  {
    hide DoCsr, Refused, Describe, NewValue, Before, Visible, Value;
    RefusedIsPending(s, op, rd, o, a);
    CsrOutcome(s, op, rd, o, a);
  }

  /** What an instruction leaves pending is its first exception. */
  lemma ExecuteRaises(s: State, i: Instr)
    requires s.Valid() && !s.pending
    ensures var r := Execute(s, i); PendingIs(r.pending, r.cause, r.tval, Raises(s, i))
  {
    hide DoLoad, DoStore, DoLoadReserved, DoStoreConditional, DoAmo, DoCsr, DoReturn, CheckedAccess, Refused, Wrap;
    match i
    case Load(rd, rs1, offset, len, signed) => LoadRaises(s, rd, Wrap(s.x[rs1] + offset), len, signed);
    case Store(rs1, rs2, offset, len) => StoreRaises(s, Wrap(s.x[rs1] + offset), len, s.x[rs2]);
    case LoadReserved(rd, rs1) => ReservedRaises(s, rd, rs1);
    case StoreConditional(rd, rs1, rs2) => ConditionalRaises(s, rd, rs1, rs2);
    case Amo(op, rd, rs1, rs2) => AmoRaises(s, op, rd, rs1, rs2);
    case CsrAccess(op, rd, o, a) => CsrRaises(s, op, rd, o, a);
    case Mret => ReturnFrame(s, s.trap.m.epc);
    case Sret => ReturnFrame(s, s.trap.s.epc);
    case _ =>
  }

  /** The instructions of which a part may take effect before their store faults. */
  predicate Partial(i: Instr) {
    i.Amo? || i.StoreConditional?
  }

  /** Every other faulting instruction changes no register, no CSR and no memory. */
  lemma FaultChangesNothing(s: State, i: Instr)
    requires s.Valid() && !s.pending && !Partial(i) && Raises(s, i).Some?
    ensures var r := Execute(s, i);
      SameButFault(s.(lrValid := r.lrValid, lrAddress := r.lrAddress), r)
  {
    hide DoLoad, DoStore, DoLoadReserved, DoCsr, CheckedAccess, Refused, Wrap;
    match i
    case Load(rd, rs1, offset, len, signed) => LoadRaises(s, rd, Wrap(s.x[rs1] + offset), len, signed);
    case Store(rs1, rs2, offset, len) => StoreRaises(s, Wrap(s.x[rs1] + offset), len, s.x[rs2]);
    case LoadReserved(rd, rs1) =>
      var s1 := s.(lrAddress := s.x[rs1], lrValid := true);
      LoadReservedIs(s, rd, rs1);
      LoadRaises(s1, rd, s.x[rs1], 4, false);
      ReservationIgnored(s, s1, Read, s.x[rs1], 4);
    case CsrAccess(op, rd, o, a) => CsrOutcome(s, op, rd, o, a);
    case Ecall =>
  }

  /** A faulting AMO or SC leaves the mode, the CSRs and the next pc alone. */
  lemma PartialFrame(s: State, i: Instr)
    requires s.Valid() && Partial(i)
    ensures var r := Execute(s, i);
      SameButFault(s.(x := r.x, mem := r.mem, lrValid := r.lrValid, lrAddress := r.lrAddress), r)
  {
    hide DoStoreConditional, DoAmo;
    match i
    case StoreConditional(rd, rs1, rs2) => StoreConditionalFrame(s, rd, rs1, rs2);
    case Amo(op, rd, rs1, rs2) => AmoFrame(s, op, rd, rs1, rs2);
  }

  /** The first exception of a cycle: that of the fetch, or else that of the instruction. */
  function FirstFault(s: State, decode: Decoder): Option<Fault>
    requires s.Valid()
  {
    var i := Executed(s, decode);
    if i.None? then FaultOf(CheckedAccess(s.(nextPc := 0), Fetch, s.pc, 4)) else Raises(s.(nextPc := 0), i.value)
  }

  predicate IsPartial(i: Option<Instr>) {
    i.Some? && Partial(i.value)
  }

  /** The registers x1 to x31 are the same. */
  ghost predicate SameRegisters(s: State, r: State) {
    |r.x| == 32 && |s.x| == 32 && forall k :: 1 <= k < 32 ==> r.x[k] == s.x[k]
  }

  /** The state before the traps, when the cycle raised an exception. */
  lemma FaultingRun(s: State, t: Protection.Turn)
    requires s.Valid() && !s.pending && FirstFault(s, t.decode).Some?
    ensures var q, f := BeforeTraps(s, t), FirstFault(s, t.decode).value;
      && q.pending && q.cause == f.cause && q.tval == f.tval
      && q.mode == s.mode && q.pc == Wrap(s.pc + 4)
      && q.trap == SetPending(s.trap, t.lines.ext, t.lines.tim, t.lines.sw)
      && q.pmp == s.pmp && q.satp == s.satp
      && (!IsPartial(Executed(s, t.decode)) ==> q.mem == s.mem && SameRegisters(s, q))
  {
    hide Execute, CheckedAccess, ReadBytes, SetPending, Counters, Raises, Wrap, Partial;
    var s0 := s.(nextPc := 0);
    var i := Executed(s, t.decode);
    if i.Some? {
      ExecuteRaises(s0, i.value);
      if Partial(i.value) {
        PartialFrame(s0, i.value);
      } else {
        FaultChangesNothing(s0, i.value);
      }
    }
  }

  lemma QuietRun(s: State, t: Protection.Turn)
    requires s.Valid() && !s.pending && FirstFault(s, t.decode).None?
    ensures !BeforeTraps(s, t).pending
  {
    hide Execute, CheckedAccess, ReadBytes, SetPending, Counters, Raises, Wrap;
    var s0 := s.(nextPc := 0);
    var i := Executed(s, t.decode);
    if i.Some? {
      ExecuteRaises(s0, i.value);
    }
  }

  lemma StepBack(pc: Word)
    ensures Wrap(Wrap(pc + 4) - 4) == pc
  {
  }

  lemma LinesKeepDelegation(trap: TrapState, lines: Lines, mode: Priv, cause: Words.Cause)
    ensures ExceptionLevel(SetPending(trap, lines.ext, lines.tim, lines.sw), mode, cause) == ExceptionLevel(trap, mode, cause)
    ensures var q := SetPending(trap, lines.ext, lines.tim, lines.sw);
      q.status == trap.status && q.m == trap.m && q.s == trap.s && q.u == trap.u
  {
    hide PendingBits, IsSet;
  }

  lemma TrapFacts(q: State, level: Priv, interrupt: bool, cause: Words.Cause)
    requires IsLevel(level)
    ensures var c := TakeTrap(q, level, interrupt, cause);
      && c == q.(trap := c.trap, pc := Regs(q.trap, level).tvec, mode := level)
      && c.trap.status == EnterStatus(q.trap.status, level, q.mode)
      && Regs(c.trap, level) == Regs(q.trap, level).(epc := if interrupt then q.pc else Wrap(q.pc - 4),
                                                     cause := if interrupt then 0x8000_0000 + cause else cause,
                                                     tval := q.tval)
      && (forall p: Priv :: IsLevel(p) && p != level ==> Regs(c.trap, p) == Regs(q.trap, p))
      && c.trap.ie == q.trap.ie && c.trap.ip == q.trap.ip
  {
    hide EnterStatus, Wrap;
  }

  /** The trap that a pending exception leads to. */
  lemma PendingIsTaken(q: State)
    requires q.pending && IsLevel(q.mode)
    ensures var c, level := PrepareInterrupts(q), ExceptionLevel(q.trap, q.mode, q.cause);
      && c == q.(trap := c.trap, pc := Regs(q.trap, level).tvec, mode := level, pending := false, cause := 0, tval := 0)
      && c.trap.status == EnterStatus(q.trap.status, level, q.mode)
      && Regs(c.trap, level) == Regs(q.trap, level).(epc := Wrap(q.pc - 4), cause := q.cause, tval := q.tval)
      && (forall p: Priv :: IsLevel(p) && p != level ==> Regs(c.trap, p) == Regs(q.trap, p))
  {
    hide TakeTrap, ExceptionLevel, EnterStatus, Regs, Wrap;
    TrapFacts(q, ExceptionLevel(q.trap, q.mode, q.cause), false, q.cause);
  }

  lemma PrepareInterrupt(q: State)
    requires !q.pending && IsLevel(q.mode)
    ensures PrepareInterrupts(q) ==
      match FirstInterrupt(q.trap, q.mode, LAST_INTERRUPT)
      case None => q
      case Some((irq, level)) => TakeTrap(q, level, true, irq)
  {
    hide TakeTrap, FirstInterrupt;
  }

  /**
    * If the instruction at pc raises an exception, the cycle takes exactly one trap, at the level
    * that delegation selects: xepc is that pc, xcause and xtval are those of the first fault, the
    * status word is entered once, and nothing stays pending.
    */
  lemma ExceptionsArePrecise(s: State, t: Protection.Turn)
    requires s.Valid() && IsLevel(s.mode) && !s.pending && FirstFault(s, t.decode).Some?
    ensures var f, c := FirstFault(s, t.decode).value, Cycle(s, t.decode, t.lines);
      var level := ExceptionLevel(s.trap, s.mode, f.cause);
      && c.mode == level && c.pc == Regs(s.trap, level).tvec && !c.pending
      && Regs(c.trap, level) == Regs(s.trap, level).(epc := s.pc, cause := f.cause, tval := f.tval)
      && c.trap.status == EnterStatus(s.trap.status, level, s.mode)
      && (forall p: Priv :: IsLevel(p) && p != level ==> Regs(c.trap, p) == Regs(s.trap, p))
  {
    hide Cycle, BeforeTraps, FirstFault, Executed, IsPartial, SetPending, ExceptionLevel, EnterStatus, PrepareInterrupts,
         Regs, Wrap;
    var q := BeforeTraps(s, t);
    FaultingRun(s, t);
    CycleAfter(s, t);
    StepBack(s.pc);
    LinesKeepDelegation(s.trap, t.lines, s.mode, q.cause);
    SameRegs(s.trap, q.trap);
    PendingIsTaken(q);
  }

  /** Registers, memory, PMP and satp are those from before the instruction, except after an AMO or SC. */
  lemma FaultsChangeNothing(s: State, t: Protection.Turn)
    requires s.Valid() && IsLevel(s.mode) && !s.pending && FirstFault(s, t.decode).Some?
    ensures var c := Cycle(s, t.decode, t.lines);
      && c.pmp == s.pmp && c.satp == s.satp
      && (!IsPartial(Executed(s, t.decode)) ==> c.mem == s.mem && SameRegisters(s, c))
  {
    hide Cycle, BeforeTraps, FirstFault, Executed, IsPartial, SetPending, ExceptionLevel, EnterStatus, PrepareInterrupts,
         Regs, Wrap;
    FaultingRun(s, t);
    CycleAfter(s, t);
    PendingIsTaken(BeforeTraps(s, t));
  }

  /**
    * Without an exception, the cycle takes the highest-numbered interrupt up to 11 that some level
    * takes, if there is one: xepc is the next instruction, and the status word is entered once.
    */
  lemma InterruptsResumeAtNext(s: State, t: Protection.Turn)
    requires s.Valid() && !s.pending && FirstFault(s, t.decode).None?
    ensures var q, c := BeforeTraps(s, t), Cycle(s, t.decode, t.lines);
      && !c.pending && c.mem == q.mem && c.x == q.x
      && if q.mode == RESERVED || forall j: Words.Cause :: j <= 11 ==> InterruptLevel(q.trap, q.mode, j).None? then c == q
         else exists irq: Words.Cause, level: Priv ::
            && irq <= 11 && InterruptLevel(q.trap, q.mode, irq) == Some(level)
            && (forall j: Words.Cause :: irq < j <= 11 ==> InterruptLevel(q.trap, q.mode, j).None?)
            && c.mode == level && c.pc == Regs(q.trap, level).tvec
            && Regs(c.trap, level) == Regs(q.trap, level).(epc := q.pc, cause := 0x8000_0000 + irq, tval := q.tval)
            && c.trap.status == EnterStatus(q.trap.status, level, q.mode)
            && c.trap.ie == q.trap.ie && c.trap.ip == q.trap.ip
  {
    hide Cycle, BeforeTraps, FirstFault, InterruptLevel, EnterStatus, FirstInterrupt, PrepareInterrupts, TakeTrap, Wrap;
    var q := BeforeTraps(s, t);
    QuietRun(s, t);
    CycleAfter(s, t);
    if q.mode != RESERVED {
      PrepareInterrupt(q);
      FirstInterruptIs(q.trap, q.mode, LAST_INTERRUPT);
      var hit := FirstInterrupt(q.trap, q.mode, LAST_INTERRUPT);
      if hit.Some? {
        TrapFacts(q, hit.value.1, true, hit.value.0);
      }
    }
  }

  lemma {:induction false} FirstInterruptIs(t: TrapState, mode: Priv, from: int)
    requires -1 <= from < 32
    ensures var hit := FirstInterrupt(t, mode, from);
      match hit
      case Some((irq, level)) =>
        irq <= from && InterruptLevel(t, mode, irq) == Some(level)
        && forall j: Words.Cause :: irq < j <= from ==> InterruptLevel(t, mode, j).None?
      case None => forall j: Words.Cause :: j <= from ==> InterruptLevel(t, mode, j).None?
    decreases from + 1
  {
    hide InterruptLevel;
    if from >= 0 {
      FirstInterruptIs(t, mode, from - 1);
    }
  }

  /** MRET, SRET and jumps reach their target unless it is 0, which stands for "no jump". */
  lemma JumpsLandUnlessAtZero(s: State, t: Protection.Turn)
    requires s.Valid() && Executed(s, t.decode).Some?
    ensures var i, q := Executed(s, t.decode).value, BeforeTraps(s, t);
      && (i.Jump? ==> (q.pc == i.target <==> i.target != 0 || Wrap(s.pc + 4) == 0))
      && (i.Mret? ==> (q.pc == s.trap.m.epc <==> s.trap.m.epc != 0 || Wrap(s.pc + 4) == 0))
      && (i.Sret? ==> (q.pc == s.trap.s.epc <==> s.trap.s.epc != 0 || Wrap(s.pc + 4) == 0))
  {
    hide CheckedAccess, ReadBytes, SetPending, Counters, Wrap, DoLoad, DoStore, DoLoadReserved, DoStoreConditional,
         DoAmo, DoCsr, DoReturn;
    var s0 := s.(nextPc := 0);
    ReturnFrame(s0, s.trap.m.epc);
    ReturnFrame(s0, s.trap.s.epc);
  }

  /** The level that a return is named after. */
  function NamedLevel(i: Instr): Priv {
    if i.Mret? then MACHINE else SUPERVISOR
  }

  /** All bits but the xIE and xPIE bit of a level. */
  function OtherBits(level: Priv): bv32 {
    !(IeBit(level) | PieBit(level))
  }

  lemma OtherBitsApart(level: Priv)
    requires IsLevel(level)
    ensures Disjoint(IeBit(level), OtherBits(level)) && Disjoint(PieBit(level), OtherBits(level))
  {
  }

  /**
    * Both returns restore the stack of the current mode, whatever their name says: the mode in its
    * xPP field, its xIE bit from xPIE. The name only selects the epc. No return raises an exception.
    */
  lemma ReturnsUseCurrentMode(s: State, i: Instr)
    requires s.Valid() && IsLevel(s.mode) && (i.Mret? || i.Sret?)
    ensures var r, level := Execute(s, i), s.mode;
      && r.mode == PreviousPrivilege(s.trap.status, level) && r.nextPc == Regs(s.trap, NamedLevel(i)).epc
      && IsSet(r.trap.status, IeBit(level)) == IsSet(s.trap.status, PieBit(level))
      && !IsSet(r.trap.status, PieBit(level))
      && Agree(r.trap.status, s.trap.status, OtherBits(level))
      && r == s.(mode := r.mode, nextPc := r.nextPc, trap := s.trap.(status := r.trap.status))
      && Raises(s, i).None?
  {
    hide LeaveStatus, PreviousPrivilege, Agree, Disjoint, OtherBits, IsSet, IeBit, PieBit, CheckedAccess;
    LeaveFields(s.trap.status, s.mode);
    OtherBitsApart(s.mode);
    LeaveApart(s.trap.status, s.mode, OtherBits(s.mode));
  }

  /**
    * Where the specification allows a return, it restores the mode in the xPP field of the level in
    * its name. The code does so exactly if that is the current mode or, for SRET in machine mode,
    * MPP and SPP hold the same mode. It also takes returns above the current mode, which the
    * specification refuses; they restore the current mode's own fields and never raise the mode.
    */
  lemma ReturnModeAgainstSpec(s: State, i: Instr)
    requires s.Valid() && IsLevel(s.mode) && (i.Mret? || i.Sret?)
    ensures var r, spec := Execute(s, i), PreviousPrivilege(s.trap.status, NamedLevel(i));
      && (NamedLevel(i) <= s.mode ==>
            (r.mode == spec <==> NamedLevel(i) == s.mode || Mpp(s.trap.status) == Spp(s.trap.status)))
      && (NamedLevel(i) > s.mode ==> !r.pending || s.pending)
      && r.mode <= s.mode
  {
    hide LeaveStatus, Mpp, Spp, CheckedAccess;
    ReturnsUseCurrentMode(s, i);
    hide Execute;
    PreviousIsNotHigher(s.trap.status, s.mode);
  }

  /** MRET in M-mode and SRET in S-mode leave the trap exactly as in the nesting of contexts. */
  lemma ReturnsLeave(s: State, i: Instr)
    requires s.Valid() && ((i.Mret? && s.mode == MACHINE) || (i.Sret? && s.mode == SUPERVISOR))
    ensures var r := Execute(s, i);
      Context(r.trap, r.mode, r.nextPc) == Leave(Context(s.trap, s.mode, s.pc), s.mode)
  {
    hide LeaveStatus, PreviousPrivilege;
  }

  /** Taking a trap is entering its frame. */
  lemma TrapsEnter(q: State, level: Priv, interrupt: bool, cause: Words.Cause)
    requires IsLevel(level)
    ensures var c := TakeTrap(q, level, interrupt, cause);
      Context(c.trap, c.mode, c.pc) == Enter(Context(q.trap, q.mode, q.pc), Frame(level, interrupt, cause, q.pc, q.tval))
  {
    hide EnterStatus;
  }
}
