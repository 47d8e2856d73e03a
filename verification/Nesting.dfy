/** Traps and their returns over runs: what a handler leaves to the context it interrupted. */
module Nesting {
  import opened Words
  import opened Mmu
  import opened Trap
  import opened StatusBits
  import opened TrapProofs
  import opened Csr
  import opened Core
  import opened CsrRules
  import opened CsrViews
  import opened Protection
  import opened Privilege
  import opened Precise

  // Instructions and the trap stack

  /** The instruction writes a status or an epc register by hand. */
  predicate WritesStack(i: Instr) {
    i.CsrAccess? && CsrWrites(i.csrOp, i.operand)
    && (var d := Describe(i.address); d.target.TrapRegister? && (d.target.reg == Status || d.target.reg == Epc))
  }

  /** The status word and all epc registers are the same. */
  predicate SameStack(t: TrapState, u: TrapState) {
    t.status == u.status && forall p: Priv :: IsLevel(p) ==> Regs(t, p).epc == Regs(u, p).epc
  }

  lemma WriteKeepsStack(t: TrapState, level: Priv, reg: TrapReg, v: bv32)
    requires IsLevel(level) && reg != Status && reg != Epc
    ensures SameStack(WriteReg(t, level, reg, v), t)
  {
    hide Regs, SetRegs, WithField;
    if Shared(reg) {
      SameRegs(t, WriteReg(t, level, reg, v));
    } else {
      WriteIsField(t, level, reg, v);
      WithKeepsEpc(Regs(t, level), reg, v);
      forall p: Priv | IsLevel(p)
        ensures Regs(WriteReg(t, level, reg, v), p).epc == Regs(t, p).epc
      {
        RegsOfSetRegs(t, level, WithField(Regs(t, level), reg, v), p);
      }
      RegsOfSetRegs(t, level, WithField(Regs(t, level), reg, v), level);
    }
  }

  lemma WithKeepsEpc(r: LevelRegs, reg: TrapReg, v: bv32)
    requires reg != Epc
    ensures WithField(r, reg, v).epc == r.epc
  {
    hide Value;
  }

  lemma CsrKeepsStack(s: State, op: CsrOp, rd: Reg, o: Operand, a: CsrAddress)
    requires s.Valid() && !WritesStack(CsrAccess(op, rd, o, a))
    ensures SameStack(DoCsr(s, op, rd, o, a).trap, s.trap)
  {
    hide Describe, PutCsr, NewValue, Before, Visible, Value, DoCsr, Refused, Regs, WriteReg;
    CsrOutcome(s, op, rd, o, a);
    var d := Describe(a);
    var v := NewValue(s, op, rd, o, a);
    if !Refused(s.mode, op, rd, o, a) && CsrWrites(op, o) {
      PutTarget(s, a, v);
      if d.target.TrapRegister? {
        WriteKeepsStack(s.trap, d.target.level, d.target.reg, v);
      }
    }
  }

  /** Everything but returns and hand-made writes leaves the stack alone. */
  lemma ExecuteKeepsStack(s: State, i: Instr)
    requires s.Valid() && !WritesStack(i) && !i.Mret? && !i.Sret?
    ensures SameStack(Execute(s, i).trap, s.trap) && Execute(s, i).mode == s.mode
  {
    hide DoCsr, Regs, WritesStack;
    ExecuteMode(s, i);
    if i.CsrAccess? {
      CsrKeepsStack(s, i.csrOp, i.rd, i.operand, i.address);
    } else {
      hide Execute;
      OthersKeepCsrs(s, i);
    }
  }

  /** The lines change no more than the pending bits. */
  lemma LinesKeepStack(t: TrapState, lines: Lines)
    ensures SameStack(SetPending(t, lines.ext, lines.tim, lines.sw), t)
  {
    hide PendingBits;
  }

  // The state before the traps of a cycle

  lemma NothingExecuted(s: State, t: Protection.Turn)
    requires s.Valid() && Executed(s, t.decode).None?
    ensures var q := BeforeTraps(s, t); q.mode == s.mode && SameStack(q.trap, s.trap)
  {
    hide CheckedAccess, ReadBytes, SetPending, Counters, Wrap, SameStack;
    LinesKeepStack(s.trap, t.lines);
  }

  lemma SomethingExecuted(s: State, t: Protection.Turn)
    requires s.Valid() && Executed(s, t.decode).Some?
    ensures var q, e := BeforeTraps(s, t), Execute(s.(nextPc := 0), Executed(s, t.decode).value);
      && q.mode == e.mode && SameStack(q.trap, e.trap)
      && (e.nextPc != 0 ==> q.pc == e.nextPc)
  {
    hide CheckedAccess, ReadBytes, SetPending, Counters, Wrap, SameStack, Execute;
    LinesKeepStack(Execute(s.(nextPc := 0), Executed(s, t.decode).value).trap, t.lines);
  }

  lemma StackChain(t: TrapState, u: TrapState, v: TrapState)
    requires SameStack(t, u) && SameStack(u, v)
    ensures SameStack(t, v)
  {
    hide Regs;
  }

  lemma QuietCycle(s: State, t: Protection.Turn)
    requires s.Valid() && !IsReturn(Executed(s, t.decode))
    requires Executed(s, t.decode).Some? ==> !WritesStack(Executed(s, t.decode).value)
    ensures var q := BeforeTraps(s, t); q.mode == s.mode && SameStack(q.trap, s.trap)
  {
    hide BeforeTraps, Executed, Execute, SameStack, WritesStack;
    var i := Executed(s, t.decode);
    if i.None? {
      NothingExecuted(s, t);
    } else {
      var s0 := s.(nextPc := 0);
      SomethingExecuted(s, t);
      ExecuteKeepsStack(s0, i.value);
      StackChain(BeforeTraps(s, t).trap, Execute(s0, i.value).trap, s.trap);
    }
  }

  /** The return that belongs to a level. */
  predicate ReturnOf(i: Instr, level: Priv) {
    (i.Mret? && level == MACHINE) || (i.Sret? && level == SUPERVISOR)
  }

  lemma ReturningCycle(s: State, t: Protection.Turn)
    requires s.Valid() && Executed(s, t.decode).Some? && ReturnOf(Executed(s, t.decode).value, s.mode)
    ensures var q := BeforeTraps(s, t);
      && q.mode == PreviousPrivilege(s.trap.status, s.mode)
      && q.trap.status == LeaveStatus(s.trap.status, s.mode)
      && (forall p: Priv :: IsLevel(p) ==> Regs(q.trap, p).epc == Regs(s.trap, p).epc)
      && (Regs(s.trap, s.mode).epc != 0 ==> q.pc == Regs(s.trap, s.mode).epc)
  {
    var i := Executed(s, t.decode).value;
    var s0 := s.(nextPc := 0);
    hide BeforeTraps, Executed, Execute, LeaveStatus, PreviousPrivilege;
    SomethingExecuted(s, t);
    ReturnsLeave(s0, i);
    SameRegs(s.trap, s.trap.(status := LeaveStatus(s.trap.status, s.mode)));
    hide Regs;
  }

  // Open traps

  /** The xPIE and xPP bits of S-mode and M-mode. */
  const STACK: bv32 := 0x19A0

  predicate CanReturn(level: Priv) {
    level == SUPERVISOR || level == MACHINE
  }

  /**
    * The traps at `levels`, innermost first, are open: returning from all of them would give back
    * the context `base`, up to the xPIE and xPP bits.
    */
  predicate Open(t: TrapState, status: bv32, levels: seq<Priv>, base: Context)
    decreases levels
  {
    levels != [] && CanReturn(levels[0]) &&
    var left, back := LeaveStatus(status, levels[0]), PreviousPrivilege(status, levels[0]);
    if |levels| == 1 then
      back == base.mode && Regs(t, levels[0]).epc == base.pc && SameExcept(left, base.trap.status, STACK)
    else back == levels[1] && Open(t, left, levels[1..], base)
  }

  lemma {:induction false} OpenStays(t: TrapState, u: TrapState, status: bv32, levels: seq<Priv>, base: Context)
    requires Open(t, status, levels, base)
    requires forall p: Priv :: IsLevel(p) ==> Regs(t, p).epc == Regs(u, p).epc
    ensures Open(u, status, levels, base)
    decreases levels
  {
    hide Regs, LeaveStatus, PreviousPrivilege, SameExcept;
    if |levels| > 1 {
      OpenStays(t, u, LeaveStatus(status, levels[0]), levels[1..], base);
    }
  }

  lemma StackMasks(level: Priv)
    requires CanReturn(level)
    ensures Subset(Kept(STACK), Kept(Scratched(level)))
  {
  }

  /** A trap opens its level. */
  lemma TrapOpens(t: TrapState, mode: Priv, level: Priv, interrupt: bool, cause: Words.Cause, pc: Word, tval: Word)
    requires IsLevel(mode) && CanReturn(level) && mode <= level
    ensures var u := Serve(t, level, mode, interrupt, cause, pc, tval);
      Open(u, u.status, [level], Context(t, mode, if interrupt then pc else Wrap(pc - 4)))
  {
    hide Regs, Serve, EnterStatus, LeaveStatus, PreviousPrivilege, Agree, Kept, Scratched, Subset, IsSet, Wrap;
    ServeRegs(t, level, mode, interrupt, cause, pc, tval, level);
    EnterFields(t.status, level, mode);
    RoundTripKeeps(t.status, level, mode);
    StackMasks(level);
    AgreeSub(LeaveStatus(EnterStatus(t.status, level, mode), level), t.status, Kept(Scratched(level)), Kept(STACK));
  }

  lemma InnerMasks()
    ensures Subset(PpMask(SUPERVISOR), Kept(Scratched(MACHINE))) && Subset(PieBit(SUPERVISOR), Kept(Scratched(MACHINE)))
    ensures Subset(Rest(SUPERVISOR, Scratched(MACHINE)), Kept(Scratched(MACHINE)))
    ensures Apart(SUPERVISOR, Rest(SUPERVISOR, Scratched(MACHINE)))
    ensures Covered(Kept(STACK), Rest(SUPERVISOR, Scratched(MACHINE)), IeBit(SUPERVISOR))
  {
  }

  /** What an inner trap scratched does not show in the return from the outer one. */
  lemma OuterReturnIgnoresInner(status: bv32, other: bv32)
    requires Agree(other, status, Kept(Scratched(MACHINE)))
    ensures PreviousPrivilege(other, SUPERVISOR) == PreviousPrivilege(status, SUPERVISOR)
    ensures Agree(LeaveStatus(other, SUPERVISOR), LeaveStatus(status, SUPERVISOR), Kept(STACK))
  {
    hide Agree, Subset, Disjoint, Covered, Kept, Rest, Scratched, PpMask, PieBit, IeBit, PreviousPrivilege, LeaveStatus,
      IsSet, OneBit;
    InnerMasks();
    FieldsAreApart(SUPERVISOR);
    var kept, rest := Kept(Scratched(MACHINE)), Rest(SUPERVISOR, Scratched(MACHINE));
    var a, b := LeaveStatus(other, SUPERVISOR), LeaveStatus(status, SUPERVISOR);
    AgreeSub(other, status, kept, PpMask(SUPERVISOR));
    PrivilegeIsField(other, status, SUPERVISOR);
    AgreeSub(other, status, kept, PieBit(SUPERVISOR));
    AgreeIsSet(other, status, PieBit(SUPERVISOR));
    LeaveFields(other, SUPERVISOR);
    LeaveFields(status, SUPERVISOR);
    BitAgrees(a, b, IeBit(SUPERVISOR));
    AgreeSub(other, status, kept, rest);
    LeaveApart(other, SUPERVISOR, rest);
    LeaveApart(status, SUPERVISOR, rest);
    AgreeChain(a, other, status, rest);
    AgreeBack(b, status, rest);
    AgreeChain(a, status, b, rest);
    AgreeUnion(a, b, rest, IeBit(SUPERVISOR), Kept(STACK));
  }

  lemma OpenOne(t: TrapState, status: bv32, base: Context)
    ensures Open(t, status, [SUPERVISOR], base)
        <==> PreviousPrivilege(status, SUPERVISOR) == base.mode && Regs(t, SUPERVISOR).epc == base.pc
             && Agree(LeaveStatus(status, SUPERVISOR), base.trap.status, Kept(STACK))
  {
    hide Regs, LeaveStatus, PreviousPrivilege, Agree, Kept;
  }

  lemma OpenTwo(t: TrapState, status: bv32, base: Context)
    requires PreviousPrivilege(status, MACHINE) == SUPERVISOR && Open(t, LeaveStatus(status, MACHINE), [SUPERVISOR], base)
    ensures Open(t, status, [MACHINE, SUPERVISOR], base)
  {
    hide Regs, LeaveStatus, PreviousPrivilege, SameExcept;
    assert [MACHINE, SUPERVISOR][1..] == [SUPERVISOR];
  }

  /** A machine trap inside a supervisor trap opens on top of it. */
  lemma InnerTrapOpens(t: TrapState, interrupt: bool, cause: Words.Cause, pc: Word, tval: Word, base: Context)
    requires Open(t, t.status, [SUPERVISOR], base)
    ensures var u := Serve(t, MACHINE, SUPERVISOR, interrupt, cause, pc, tval);
      Open(u, u.status, [MACHINE, SUPERVISOR], base)
  {
    hide Open, Regs, Serve, EnterStatus, LeaveStatus, PreviousPrivilege, Agree, Kept, Scratched, IsSet;
    var u := Serve(t, MACHINE, SUPERVISOR, interrupt, cause, pc, tval);
    var inner := LeaveStatus(u.status, MACHINE);
    ServeRegs(t, MACHINE, SUPERVISOR, interrupt, cause, pc, tval, SUPERVISOR);
    EnterFields(t.status, MACHINE, SUPERVISOR);
    RoundTripKeeps(t.status, MACHINE, SUPERVISOR);
    OuterReturnIgnoresInner(t.status, inner);
    OpenOne(t, t.status, base);
    AgreeChain(LeaveStatus(inner, SUPERVISOR), LeaveStatus(t.status, SUPERVISOR), base.trap.status, Kept(STACK));
    OpenOne(u, inner, base);
    OpenTwo(u, u.status, base);
  }

  // Runs

  predicate TakesTrap(q: State) {
    q.pending || FirstInterrupt(q.trap, q.mode, LAST_INTERRUPT).Some?
  }

  /**
    * The run goes on from a state with the given open traps, innermost first, and ends with the
    * return from the last of them. Nothing in it writes a status or an epc register by hand, every
    * return is that of the innermost open trap, and every further trap is served at a higher level.
    */
  ghost predicate Unwinds(s: State, turns: seq<Protection.Turn>, levels: seq<Priv>)
    requires s.Valid()
    decreases turns
  {
    turns != [] && levels != [] &&
    (CycleIsValid(s, turns[0]);
     var i := Executed(s, turns[0].decode);
     var q, c := BeforeTraps(s, turns[0]), Cycle(s, turns[0].decode, turns[0].lines);
     && (i.Some? ==> !WritesStack(i.value))
     && (IsReturn(i) ==> ReturnOf(i.value, levels[0]))
     && var left := if IsReturn(i) then levels[1..] else levels;
        if left == [] then turns[1..] == []
        else if TakesTrap(q) then c.mode > left[0] && Unwinds(c, turns[1..], [c.mode] + left)
        else Unwinds(c, turns[1..], left))
  }

  /** The state after the last instruction of the run, before the traps that follow it. */
  function Closing(s: State, turns: seq<Protection.Turn>): State
    requires s.Valid() && turns != []
    decreases turns
  {
    if |turns| == 1 then BeforeTraps(s, turns[0])
    else
      CycleIsValid(s, turns[0]);
      Closing(Cycle(s, turns[0].decode, turns[0].lines), turns[1..])
  }

  /** The traps that can be open at the same time. */
  predicate Stacked(levels: seq<Priv>) {
    levels == [SUPERVISOR] || levels == [MACHINE] || levels == [MACHINE, SUPERVISOR]
  }

  /** A hart that runs at the level of its innermost open trap. */
  predicate Handling(s: State, levels: seq<Priv>, base: Context) {
    Stacked(levels) && s.mode == levels[0] && Open(s.trap, s.trap.status, levels, base)
  }

  /** The context is back: mode, xIE bits, every status bit outside xPIE and xPP, and the pc unless it is 0. */
  predicate IsBack(r: State, base: Context) {
    && r.mode == base.mode && SameExcept(r.trap.status, base.trap.status, STACK)
    && (base.pc != 0 ==> r.pc == base.pc)
  }

  /** What the instruction of one cycle makes of the open traps. */
  lemma InstructionUnwinds(s: State, t: Protection.Turn, levels: seq<Priv>, base: Context)
    requires s.Valid() && Handling(s, levels, base)
    requires var i := Executed(s, t.decode);
      (i.Some? ==> !WritesStack(i.value)) && (IsReturn(i) ==> ReturnOf(i.value, levels[0]))
    ensures var q, left := BeforeTraps(s, t), if IsReturn(Executed(s, t.decode)) then levels[1..] else levels;
      if left == [] then IsBack(q, base) else Handling(q, left, base)
  {
    var q := BeforeTraps(s, t);
    hide BeforeTraps, Executed, WritesStack, Regs, LeaveStatus, PreviousPrivilege, SameExcept;
    if IsReturn(Executed(s, t.decode)) {
      ReturningCycle(s, t);
      if |levels| > 1 {
        OpenStays(s.trap, q.trap, LeaveStatus(s.trap.status, s.mode), levels[1..], base);
      }
    } else {
      QuietCycle(s, t);
      OpenStays(s.trap, q.trap, s.trap.status, levels, base);
    }
  }

  /** A trap at a higher level: only machine mode over supervisor mode. */
  lemma TrapStacks(q: State, level: Priv, interrupt: bool, cause: Words.Cause, levels: seq<Priv>, base: Context)
    requires Handling(q, levels, base) && IsLevel(level) && level > levels[0]
    ensures Handling(TakeTrap(q, level, interrupt, cause), [level] + levels, base)
  {
    hide Serve, Open;
    assert levels == [SUPERVISOR] && [MACHINE] + levels == [MACHINE, SUPERVISOR];
    InnerTrapOpens(q.trap, interrupt, cause, q.pc, q.tval, base);
  }

  lemma PrepareStacks(q: State, levels: seq<Priv>, base: Context)
    requires Handling(q, levels, base)
    ensures var c := PrepareInterrupts(q);
      if TakesTrap(q) then c.mode > levels[0] ==> Handling(c, [c.mode] + levels, base) else c == q
  {
    hide TakeTrap, Open, ExceptionLevel, FirstInterrupt;
    if q.pending {
      var level := ExceptionLevel(q.trap, q.mode, q.cause);
      TakeTrapMode(q, level, false, q.cause);
      if level > levels[0] {
        TrapStacks(q, level, false, q.cause, levels, base);
      }
    } else if FirstInterrupt(q.trap, q.mode, LAST_INTERRUPT).Some? {
      var hit := FirstInterrupt(q.trap, q.mode, LAST_INTERRUPT).value;
      TakeTrapMode(q, hit.1, true, hit.0);
      if hit.1 > levels[0] {
        TrapStacks(q, hit.1, true, hit.0, levels, base);
      }
    }
  }

  lemma TakeTrapMode(q: State, level: Priv, interrupt: bool, cause: Words.Cause)
    requires IsLevel(level)
    ensures TakeTrap(q, level, interrupt, cause).mode == level
  {
    hide Serve;
  }

  lemma {:induction false} UnwindingGivesBack(s: State, turns: seq<Protection.Turn>, levels: seq<Priv>, base: Context)
    requires s.Valid() && Handling(s, levels, base) && Unwinds(s, turns, levels)
    ensures IsBack(Closing(s, turns), base)
    decreases turns
  {
    var i := Executed(s, turns[0].decode);
    var q, c := BeforeTraps(s, turns[0]), Cycle(s, turns[0].decode, turns[0].lines);
    var left := if IsReturn(i) then levels[1..] else levels;
    hide Executed, IsReturn, BeforeTraps, Cycle, WritesStack, ReturnOf, Open, SameExcept, TakesTrap;
    CycleIsValid(s, turns[0]);
    CycleAfter(s, turns[0]);
    InstructionUnwinds(s, turns[0], levels, base);
    if left != [] {
      hide PrepareInterrupts;
      PrepareStacks(q, left, base);
      UnwindingGivesBack(c, turns[1..], if TakesTrap(q) then [c.mode] + left else left, base);
    }
  }

  /** Where the program goes on after the trap that `q` is about to take. */
  function ResumptionOf(q: State): Word {
    if q.pending then Wrap(q.pc - 4) else q.pc
  }

  lemma FirstTrapOpens(q: State)
    requires IsLevel(q.mode) && TakesTrap(q) && PrepareInterrupts(q).mode != USER
    ensures var c := PrepareInterrupts(q);
      Handling(c, [c.mode], Context(q.trap, q.mode, ResumptionOf(q)))
  {
    hide Serve, Open, ExceptionLevel, FirstInterrupt, Wrap;
    if q.pending {
      var level := ExceptionLevel(q.trap, q.mode, q.cause);
      ExceptionLevelIsExact(q.trap, q.mode, q.cause, level);
      TrapOpens(q.trap, q.mode, level, false, q.cause, q.pc, q.tval);
    } else {
      var hit := FirstInterrupt(q.trap, q.mode, LAST_INTERRUPT).value;
      TrapOpens(q.trap, q.mode, hit.1, true, hit.0, q.pc, q.tval);
    }
  }

  /**
    * Over every run of a handler, of any length, with any instructions but hand-made writes to the
    * status and epc registers, and with further traps at higher levels and their handlers inside:
    * the return from a trap gives back the mode, all xIE bits and every status bit outside the xPIE
    * and xPP fields of the context that the trap interrupted, and resumes it where it was.
    */
  lemma TrapsNestOverRuns(q: State, turns: seq<Protection.Turn>)
    requires q.Valid() && IsLevel(q.mode) && TakesTrap(q)
    requires var c := PrepareInterrupts(q); c.Valid() && c.mode != USER && Unwinds(c, turns, [c.mode])
    ensures IsBack(Closing(PrepareInterrupts(q), turns), Context(q.trap, q.mode, ResumptionOf(q)))
  {
    hide PrepareInterrupts, TakesTrap, Handling, Unwinds, Closing, IsBack;
    FirstTrapOpens(q);
    UnwindingGivesBack(PrepareInterrupts(q), turns, [PrepareInterrupts(q).mode], Context(q.trap, q.mode, ResumptionOf(q)));
  }
}
