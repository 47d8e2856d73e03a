/** How the privilege mode moves, and what a trap does. */
module Privilege {
  import opened Words
  import opened Mmu
  import opened Trap
  import opened TrapProofs
  import opened StatusBits
  import opened Csr
  import opened Core
  import opened CsrRules
  import opened Protection

  /** The instruction that the next cycle executes, if it can be fetched. */
  function Executed(s: State, decode: Decoder): Option<Instr>
    requires s.Valid()
  {
    match CheckedAccess(s.(nextPc := 0), Fetch, s.pc, 4)
    case Failure(_) => None
    case Success(pa) => Some(decode(ReadBytes(s.mem, pa, 4), s.x, s.pc))
  }

  predicate IsReturn(i: Option<Instr>) {
    i.Some? && (i.value.Mret? || i.value.Sret?)
  }

  /** The state between an instruction and the traps that follow it. */
  function BeforeTraps(s: State, t: Protection.Turn): (q: State)
    requires s.Valid()
    ensures q.Valid()
  {
    var r := Run(s, t.decode);
    r.(trap := SetPending(r.trap, t.lines.ext, t.lines.tim, t.lines.sw))
  }

  lemma ReturnMode(s: State, epc: Word)
    ensures DoReturn(s, epc).mode == PreviousPrivilege(s.trap.status, s.mode)
  {
  }

  lemma PreviousIsNotHigher(status: bv32, mode: Priv)
    ensures PreviousPrivilege(status, mode) <= mode
    ensures mode <= SUPERVISOR ==> PreviousPrivilege(status, mode) <= SUPERVISOR
  {
    SppIsSmall(status);
    hide Spp, Mpp;
  }

  lemma SppIsSmall(status: bv32)
    ensures Spp(status) <= SUPERVISOR
  {
    SppBit(status);
  }

  lemma SppBit(status: bv32)
    ensures (status >> 8) & 1 == 0 || (status >> 8) & 1 == 1
  {
  }

  /** No instruction raises the mode; only MRET and SRET change it at all. */
  lemma ExecuteMode(s: State, instr: Instr)
    requires s.Valid()
    ensures var r := Execute(s, instr);
      && r.mode <= s.mode
      && (s.mode <= SUPERVISOR ==> r.mode <= SUPERVISOR)
      && (r.mode != s.mode ==> instr.Mret? || instr.Sret?)
  {
    hide DoLoad, DoStore, DoLoadReserved, DoStoreConditional, DoAmo, DoCsr, DoReturn, PreviousPrivilege, Wrap;
    match instr
    case Store(rs1, rs2, offset, len) => StoreFrame(s, Wrap(s.x[rs1] + offset), len, s.x[rs2]);
    case StoreConditional(rd, rs1, rs2) => StoreConditionalFrame(s, rd, rs1, rs2);
    case Amo(op, rd, rs1, rs2) => AmoFrame(s, op, rd, rs1, rs2);
    case CsrAccess(op, rd, o, a) => CsrFrame(s, op, rd, o, a);
    case Mret =>
      ReturnMode(s, s.trap.m.epc);
      PreviousIsNotHigher(s.trap.status, s.mode);
    case Sret =>
      ReturnMode(s, s.trap.s.epc);
      PreviousIsNotHigher(s.trap.status, s.mode);
    case Load(_, _, _, _, _) => LoadKeepsMode(s, instr);
    case LoadReserved(_, _) => LoadKeepsMode(s, instr);
    case _ =>
  }

  lemma LoadKeepsMode(s: State, instr: Instr)
    requires s.Valid() && (instr.Load? || instr.LoadReserved?)
    ensures Execute(s, instr).mode == s.mode
  {
    hide DoLoad, DoLoadReserved, Wrap;
    match instr
    case Load(rd, rs1, offset, len, signed) => LoadFrame(s, rd, Wrap(s.x[rs1] + offset), len, signed);
    case LoadReserved(rd, rs1) =>
      LoadReservedIs(s, rd, rs1);
      LoadFrame(s.(lrAddress := s.x[rs1], lrValid := true), rd, s.x[rs1], 4, false);
  }

  lemma StoreConditionalFrame(s: State, rd: Reg, rs1: Reg, rs2: Reg)
    requires s.Valid()
    ensures var r := DoStoreConditional(s, rd, rs1, rs2);
      SameButFault(s.(x := r.x, mem := r.mem, lrValid := r.lrValid, lrAddress := r.lrAddress), r)
  {
    hide DoStore;
    StoreFrame(s, s.x[rs1], 4, s.x[rs2]);
  }

  lemma AmoFrame(s: State, op: AmoOp, rd: Reg, rs1: Reg, rs2: Reg)
    requires s.Valid()
    ensures var r := DoAmo(s, op, rd, rs1, rs2); SameButFault(s.(x := r.x, mem := r.mem), r)
  {
    hide DoLoad, DoStore, AmoResult;
    var loaded := DoLoad(s, rd, s.x[rs1], 4, false);
    LoadFrame(s, rd, s.x[rs1], 4, false);
    StoreFrame(loaded, s.x[rs1], 4, AmoResult(op, loaded.x[rd], s.x[rs2]));
  }

  lemma CsrFrame(s: State, op: CsrOp, rd: Reg, o: Operand, a: CsrAddress)
    requires s.Valid()
    ensures var r := DoCsr(s, op, rd, o, a);
      SameButFault(s.(x := r.x, trap := r.trap, pmp := r.pmp, satp := r.satp, csr := r.csr), r)
  {
    hide Describe, PutCsr, NewValue, Before, Visible, Value, DoCsr, Refused;
    CsrOutcome(s, op, rd, o, a);
    PutFrame(s, a, NewValue(s, op, rd, o, a));
  }

  lemma RunMode(s: State, t: Protection.Turn)
    requires s.Valid()
    ensures var q := BeforeTraps(s, t);
      && q.mode <= s.mode
      && (s.mode <= SUPERVISOR ==> q.mode <= SUPERVISOR)
      && (q.mode != s.mode ==> IsReturn(Executed(s, t.decode)))
  {
    hide Execute, CheckedAccess, ReadBytes, SetPending, Counters, Wrap;
    var s0 := s.(nextPc := 0);
    var i := Executed(s, t.decode);
    if i.Some? {
      ExecuteMode(s0, i.value);
    }
  }

  // Traps

  /** From `q` a trap was taken at `level`, as the program can see it. */
  ghost predicate Trapped(q: State, c: State, level: Priv) {
    && IsLevel(level) && q.mode <= level && c.mode == level
    && c.pc == Regs(q.trap, level).tvec
    && (level == MACHINE ==> Mpp(c.trap.status) == q.mode)
    && (level == SUPERVISOR ==> Spp(c.trap.status) == q.mode)
    && !IsSet(c.trap.status, IeBit(level))
    && IsSet(c.trap.status, PieBit(level)) == IsSet(q.trap.status, IeBit(level))
  }

  lemma TakeTrapTraps(q: State, level: Priv, interrupt: bool, cause: Words.Cause)
    requires IsLevel(q.mode) && IsLevel(level) && q.mode <= level
    ensures Trapped(q, TakeTrap(q, level, interrupt, cause), level)
  {
    hide EnterStatus, Mpp, Spp, IsSet, IeBit, PieBit, Serve;
    EnterFields(q.trap.status, level, q.mode);
    ServeRegs(q.trap, level, q.mode, interrupt, cause, q.pc, q.tval, level);
  }

  /** The traps of one cycle: none, or one exception, or one interrupt. */
  lemma PrepareTraps(q: State)
    requires IsLevel(q.mode)
    ensures var c := PrepareInterrupts(q);
      if q.pending || FirstInterrupt(q.trap, q.mode, LAST_INTERRUPT).Some? then Trapped(q, c, c.mode) else c == q
  {
    hide Serve, InterruptLevel, Trapped;
    if q.pending {
      var level := ExceptionLevel(q.trap, q.mode, q.cause);
      ExceptionLevelIsExact(q.trap, q.mode, q.cause, level);
      hide ExceptionLevel;
      TakeTrapTraps(q, level, false, q.cause);
      ClearingKeepsTrapped(q, TakeTrap(q, level, false, q.cause), level);
    } else if FirstInterrupt(q.trap, q.mode, LAST_INTERRUPT).Some? {
      var hit := FirstInterrupt(q.trap, q.mode, LAST_INTERRUPT).value;
      TakeTrapTraps(q, hit.1, true, hit.0);
    }
  }

  lemma ClearingKeepsTrapped(q: State, c: State, level: Priv)
    requires Trapped(q, c, level)
    ensures Trapped(q, c.(pending := false, cause := 0, tval := 0), level)
  {
    hide Mpp, Spp, IsSet, IeBit, PieBit;
  }

  /**
    * In every cycle from every state: the instruction lowers the mode only if it is MRET or SRET,
    * and never raises it; afterwards the mode rises, or the pc is set, only by a trap that goes to
    * tvec of the level it is served at and records the mode it came from.
    */
  lemma ModeChanges(s: State, t: Protection.Turn)
    requires s.Valid() && IsLevel(s.mode)
    ensures var q, c := BeforeTraps(s, t), Cycle(s, t.decode, t.lines);
      && q.mode <= s.mode
      && (q.mode < s.mode ==> IsReturn(Executed(s, t.decode)))
      && (q.mode == RESERVED ==> c == q && s.mode == MACHINE)
      && (c == q || (Trapped(q, c, c.mode) && q.mode <= c.mode))
  {
    hide Run, SetPending, PrepareInterrupts, FirstInterrupt, Executed, IsReturn, BeforeTraps;
    RunMode(s, t);
    var q := BeforeTraps(s, t);
    CycleAfter(s, t);
    if q.mode != RESERVED {
      PrepareTraps(q);
    }
  }

  lemma CycleAfter(s: State, t: Protection.Turn)
    requires s.Valid()
    ensures var q := BeforeTraps(s, t);
      Cycle(s, t.decode, t.lines) == if q.mode == RESERVED then q else PrepareInterrupts(q)
  {
    hide Run, SetPending, PrepareInterrupts;
  }

  // Whole runs

  /** No MRET or SRET is executed in the run. */
  ghost predicate NoReturns(s: State, turns: seq<Protection.Turn>)
    requires s.Valid()
    decreases turns
  {
    turns == [] || s.mode == RESERVED ||
    (CycleIsValid(s, turns[0]);
     && !IsReturn(Executed(s, turns[0].decode))
     && NoReturns(Cycle(s, turns[0].decode, turns[0].lines), turns[1..]))
  }

  /** No trap is taken in the run. */
  ghost predicate NoTraps(s: State, turns: seq<Protection.Turn>)
    requires s.Valid()
    decreases turns
  {
    turns == [] || s.mode == RESERVED ||
    (CycleIsValid(s, turns[0]);
     && Cycle(s, turns[0].decode, turns[0].lines) == BeforeTraps(s, turns[0])
     && NoTraps(Cycle(s, turns[0].decode, turns[0].lines), turns[1..]))
  }

  /** Over every run, privilege is lost only by a return and gained only by a trap. */
  lemma {:induction false} PrivilegeOverRuns(s: State, turns: seq<Protection.Turn>)
    requires s.Valid() && IsLevel(s.mode)
    ensures NoReturns(s, turns) ==> s.mode <= RunAll(s, turns).mode
    ensures NoTraps(s, turns) ==> RunAll(s, turns).mode <= s.mode
    decreases turns
  {
    hide Cycle, Executed, IsReturn, BeforeTraps, Trapped;
    if turns != [] {
      var c := Cycle(s, turns[0].decode, turns[0].lines);
      CycleIsValid(s, turns[0]);
      ModeChanges(s, turns[0]);
      if c.mode != RESERVED {
        PrivilegeOverRuns(c, turns[1..]);
      }
    }
  }
}
