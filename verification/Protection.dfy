/** Runs of the emulator, and the memory that no run can change. */
module Protection {
  import opened Words
  import opened Pmp
  import opened PmpProofs
  import opened PmpLocks
  import opened Mmu
  import opened Trap
  import opened Csr
  import opened Core
  import opened CsrRules

  /** What the environment supplies to one turn of the loop. */
  datatype Turn = Turn(decode: Decoder, lines: Lines)

  ghost predicate LegalTurns(turns: seq<Turn>) {
    forall t :: t in turns ==> LegalDecoder(t.decode)
  }

  lemma CycleIsValid(s: State, t: Turn)
    requires s.Valid()
    ensures Cycle(s, t.decode, t.lines).Valid()
  {
    hide Run, Serve, SetPending, FirstInterrupt, ExceptionLevel;
  }

  /** A run ends when its turns are used up, or the hart is in the reserved mode. */
  function RunAll(s: State, turns: seq<Turn>): (r: State)
    requires s.Valid()
    ensures r.Valid()
    decreases turns
  {
    if turns == [] || s.mode == RESERVED then s
    else
      CycleIsValid(s, turns[0]);
      RunAll(Cycle(s, turns[0].decode, turns[0].lines), turns[1..])
  }

  // Frames of the operations that reach memory

  ghost predicate SameButFault(s: State, r: State) {
    r == s.(pending := r.pending, cause := r.cause, tval := r.tval)
  }

  lemma LoadFrame(s: State, rd: Reg, va: Word, len: nat, signed: bool)
    requires s.Valid()
    ensures var r := DoLoad(s, rd, va, len, signed); SameButFault(s.(x := r.x), r)
  {
    hide CheckedAccess, ReadBytes, SignExtend;
  }

  lemma StoreFrame(s: State, va: Word, len: nat, v: Word)
    requires s.Valid()
    ensures var r := DoStore(s, va, len, v); SameButFault(s.(mem := r.mem), r)
  {
    hide CheckedAccess, WriteBytes;
  }

  // Protected bytes

  /** From `s` to `r`, entry `i` keeps protecting the same bytes, and they keep their values. */
  ghost predicate Guarded(s: State, r: State, i: nat)
    requires s.Valid() && i < ENTRIES
  {
    r.Valid() && Protects(r.pmp, i)
    && (forall b: Word :: Matches(r.pmp, i, b) <==> Matches(s.pmp, i, b))
    && (forall b: Word :: Matches(s.pmp, i, b) ==> r.mem(b) == s.mem(b))
  }

  lemma Untouched(s: State, r: State, i: nat)
    requires s.Valid() && r.Valid() && i < ENTRIES && Protects(s.pmp, i)
    requires r.pmp == s.pmp && r.mem == s.mem
    ensures Guarded(s, r, i)
  {
  }

  lemma Chain(s: State, r: State, q: State, i: nat)
    requires s.Valid() && i < ENTRIES && Guarded(s, r, i) && r.Valid() && Guarded(r, q, i)
    ensures Guarded(s, q, i)
  {
    hide Matches, Protects;
  }

  lemma StoreGuards(s: State, va: Word, len: nat, v: Word, i: nat)
    requires s.Valid() && i < ENTRIES && Protects(s.pmp, i) && Width(len)
    ensures Guarded(s, DoStore(s, va, len, v), i)
  {
    var r := DoStore(s, va, len, v);
    hide Translate, Protects, Matches, Allowed, WriteBytes, IsSet, Effective;
    assert r.pmp == s.pmp;
    if CheckedAccess(s, Write, va, len).Success? {
      var pa := CheckedAccess(s, Write, va, len).value;
      assert r.mem == WriteBytes(s.mem, pa, len, v);
      forall b: Word | Matches(s.pmp, i, b)
        ensures r.mem(b) == s.mem(b)
      {
        if InAccess(b, pa, len) {
          WriteIntoProtectedIsDenied(s.pmp, i, Effective(s, Write), pa, len, b);
        }
        Written(s.mem, pa, len, v, b);
      }
    }
  }

  lemma PmpWriteGuards(s: State, w: PmpWrite, r: State, i: nat)
    requires s.Valid() && w.Legal() && r.Valid() && i < ENTRIES && Protects(s.pmp, i)
    requires r.pmp == Apply(s.pmp, w) && r.mem == s.mem
    ensures Guarded(s, r, i)
  {
    hide Protects, Matches, Apply;
    assert ApplyAll(s.pmp, [w]) == Apply(s.pmp, w) by {
      assert [w][1..] == [];
    }
    ProtectionIsPermanent(s.pmp, [w], i);
  }

  /** What a CSR write means for the PMP unit. */
  function PmpWriteOf(s: State, a: CsrAddress, v: bv32): (w: Option<PmpWrite>)
    ensures w.Some? ==> w.value.Legal()
  {
    match Describe(a).target
    case PmpCfg(k) => Some(CfgWrite(s.mode, k, Value(v)))
    case PmpAddr(k) => Some(AddrWrite(s.mode, k, Value(v)))
    case _ => None
  }

  lemma PutIsPmpWrite(s: State, a: CsrAddress, v: bv32)
    requires s.Valid()
    ensures var r, w := PutCsr(s, Describe(a), a, v), PmpWriteOf(s, a, v);
      r.mem == s.mem && r.pmp == if w.Some? then Apply(s.pmp, w.value) else s.pmp
  {
    hide Describe, PutCsr, Value, WriteReg, WriteCfg, WriteAddr;
    PutFrame(s, a, v);
    PutTarget(s, a, v);
  }

  lemma PutGuards(s: State, a: CsrAddress, v: bv32, i: nat)
    requires s.Valid() && i < ENTRIES && Protects(s.pmp, i)
    ensures Guarded(s, PutCsr(s, Describe(a), a, v), i)
  {
    hide Describe, Protects, Matches, PutCsr, Apply, PmpWriteOf, Guarded;
    var r, w := PutCsr(s, Describe(a), a, v), PmpWriteOf(s, a, v);
    PutIsPmpWrite(s, a, v);
    if w.Some? {
      PmpWriteGuards(s, w.value, r, i);
    } else {
      Untouched(s, r, i);
    }
  }

  /** A CSR instruction leaves memory alone and changes the PMP state by at most one write. */
  lemma CsrGuards(s: State, op: CsrOp, rd: Reg, o: Operand, a: CsrAddress, i: nat)
    requires s.Valid() && i < ENTRIES && Protects(s.pmp, i)
    ensures Guarded(s, DoCsr(s, op, rd, o, a), i)
  {
    var r := DoCsr(s, op, rd, o, a);
    hide Describe, Protects, Matches, Visible, Value, PutCsr, Refused, NewValue, Before, DoCsr;
    CsrOutcome(s, op, rd, o, a);
    if Refused(s.mode, op, rd, o, a) || !CsrWrites(op, o) {
      Untouched(s, r, i);
    } else {
      var put := PutCsr(s, Describe(a), a, NewValue(s, op, rd, o, a));
      PutGuards(s, a, NewValue(s, op, rd, o, a), i);
      Untouched(put, r, i);
      Chain(s, put, r, i);
    }
  }

  lemma AmoGuards(s: State, op: AmoOp, rd: Reg, rs1: Reg, rs2: Reg, i: nat)
    requires s.Valid() && i < ENTRIES && Protects(s.pmp, i)
    ensures Guarded(s, DoAmo(s, op, rd, rs1, rs2), i)
  {
    hide DoLoad, DoStore, Protects, Matches, AmoResult;
    var loaded := DoLoad(s, rd, s.x[rs1], 4, false);
    LoadFrame(s, rd, s.x[rs1], 4, false);
    Untouched(s, loaded, i);
    StoreGuards(loaded, s.x[rs1], 4, AmoResult(op, loaded.x[rd], s.x[rs2]), i);
    Chain(s, loaded, DoAmo(s, op, rd, rs1, rs2), i);
  }

  lemma StoreConditionalGuards(s: State, rd: Reg, rs1: Reg, rs2: Reg, i: nat)
    requires s.Valid() && i < ENTRIES && Protects(s.pmp, i)
    ensures Guarded(s, DoStoreConditional(s, rd, rs1, rs2), i)
  {
    var r := DoStoreConditional(s, rd, rs1, rs2);
    hide DoStore, Protects, Matches;
    if s.lrValid && s.lrAddress == s.x[rs1] {
      var stored := DoStore(s, s.x[rs1], 4, s.x[rs2]);
      StoreGuards(s, s.x[rs1], 4, s.x[rs2], i);
      Untouched(stored, r, i);
      Chain(s, stored, r, i);
    } else {
      Untouched(s, r, i);
    }
  }

  predicate ReachesMemory(instr: Instr) {
    instr.Store? || instr.StoreConditional? || instr.Amo?
  }

  lemma ExecuteFrame(s: State, instr: Instr)
    requires s.Valid() && !ReachesMemory(instr) && !instr.CsrAccess?
    ensures var r := Execute(s, instr); r.pmp == s.pmp && r.mem == s.mem
  {
    hide DoLoad, DoStore, DoLoadReserved, DoReturn, Wrap;
    match instr
    case Load(rd, rs1, offset, len, signed) => LoadFrame(s, rd, Wrap(s.x[rs1] + offset), len, signed);
    case LoadReserved(rd, rs1) =>
      LoadReservedIs(s, rd, rs1);
      LoadFrame(s.(lrAddress := s.x[rs1], lrValid := true), rd, s.x[rs1], 4, false);
    case Mret => ReturnFrame(s, s.trap.m.epc);
    case Sret => ReturnFrame(s, s.trap.s.epc);
    case _ =>
  }

  lemma ExecuteGuards(s: State, instr: Instr, i: nat)
    requires s.Valid() && i < ENTRIES && Protects(s.pmp, i) && instr.Legal()
    ensures Guarded(s, Execute(s, instr), i)
  {
    hide DoLoad, DoStore, DoLoadReserved, DoStoreConditional, DoAmo, DoCsr, DoReturn, Protects, Matches, Guarded, Wrap;
    if !ReachesMemory(instr) && !instr.CsrAccess? {
      ExecuteFrame(s, instr);
      Untouched(s, Execute(s, instr), i);
    } else {
      match instr
      case Store(rs1, rs2, offset, len) => StoreGuards(s, Wrap(s.x[rs1] + offset), len, s.x[rs2], i);
      case StoreConditional(rd, rs1, rs2) => StoreConditionalGuards(s, rd, rs1, rs2, i);
      case Amo(op, rd, rs1, rs2) => AmoGuards(s, op, rd, rs1, rs2, i);
      case CsrAccess(op, rd, o, a) => CsrGuards(s, op, rd, o, a, i);
    }
  }

  lemma LoadReservedIs(s: State, rd: Reg, rs1: Reg)
    requires s.Valid()
    ensures DoLoadReserved(s, rd, rs1) == DoLoad(s.(lrAddress := s.x[rs1], lrValid := true), rd, s.x[rs1], 4, false)
  {
  }

  lemma ReturnFrame(s: State, epc: Word)
    ensures var r := DoReturn(s, epc);
      r == s.(mode := r.mode, trap := s.trap.(status := r.trap.status), nextPc := epc)
  {
    hide LeaveStatus, PreviousPrivilege;
  }

  lemma CycleGuards(s: State, t: Turn, i: nat)
    requires s.Valid() && i < ENTRIES && Protects(s.pmp, i) && LegalDecoder(t.decode)
    ensures Guarded(s, Cycle(s, t.decode, t.lines), i)
  {
    hide Execute, CheckedAccess, Protects, Matches, ReadBytes, SetPending, PrepareInterrupts, Counters, Wrap;
    CycleIsValid(s, t);
    var r := Run(s, t.decode);
    var s0 := s.(nextPc := 0);
    var fetched := CheckedAccess(s0, Fetch, s.pc, 4);
    if fetched.Success? {
      var instr := t.decode(ReadBytes(s.mem, fetched.value, 4), s.x, s.pc);
      ExecuteGuards(s0, instr, i);
      assert r.pmp == Execute(s0, instr).pmp && r.mem == Execute(s0, instr).mem;
    }
    assert Guarded(s, r, i);
    if r.mode != RESERVED {
      PrepareFrame(r, t.lines);
    }
  }

  lemma PrepareFrame(r: State, lines: Lines)
    requires r.mode != RESERVED
    ensures var q := r.(trap := SetPending(r.trap, lines.ext, lines.tim, lines.sw));
      var c := PrepareInterrupts(q);
      c == r.(trap := c.trap, pc := c.pc, mode := c.mode, pending := c.pending, cause := c.cause, tval := c.tval)
  {
    hide SetPending, Serve, FirstInterrupt, ExceptionLevel;
  }

  /**
    * If entries 0..i are locked, entry i grants no writes, and no lower entry comes within three
    * bytes of it, then no run changes a byte of entry i: whatever the instructions, the modes,
    * satp, the page tables, MPRV, the traps and the CSR writes are.
    */
  lemma {:induction false} ProtectedMemoryNeverChanges(s: State, turns: seq<Turn>, i: nat)
    requires s.Valid() && i < ENTRIES && Protects(s.pmp, i) && LegalTurns(turns)
    ensures var r := RunAll(s, turns);
      && Protects(r.pmp, i)
      && (forall b: Word :: Matches(r.pmp, i, b) <==> Matches(s.pmp, i, b))
      && (forall b: Word :: Matches(s.pmp, i, b) ==> r.mem(b) == s.mem(b))
    decreases turns
  {
    hide Cycle, Protects, Matches;
    if turns != [] && s.mode != RESERVED {
      var c := Cycle(s, turns[0].decode, turns[0].lines);
      CycleGuards(s, turns[0], i);
      ProtectedMemoryNeverChanges(c, turns[1..], i);
    }
  }

  /**
    * In software's terms: a block of 2^n bytes that machine mode encoded into pmpaddr0 as a NAPOT
    * range and locked without write permission keeps its contents over every run, unless it ends
    * at the top of memory.
    */
  lemma LockedBlockNeverChanges(s: State, turns: seq<Turn>, base: Word, n: nat, q: nat)
    requires s.Valid() && LegalTurns(turns) && Block(base, n, q) && base + Pow2(n) != LIMIT
    requires s.pmp.addr[0] == NapotEncode(base, n)
    requires Locked(s.pmp.cfg[0]) && Mode(s.pmp.cfg[0]) == NAPOT && !Grants(s.pmp.cfg[0], Write)
    ensures forall b: Word :: base <= b < base + Pow2(n) ==> RunAll(s, turns).mem(b) == s.mem(b)
  {
    hide NapotEncode, Grants, Locked, Cycle, RunAll, NapotStart, NapotSize;
    NapotDecodeInvertsEncode(base, n, q);
    Pow2Monotonic(3, n);
    assert Pow2(3) == 8;
    hide Pow2;
    assert Decode(s.pmp, 0) == Region(base, Pow2(n));
    assert Protects(s.pmp, 0);
    forall b: Word | base <= b < base + Pow2(n)
      ensures Matches(s.pmp, 0, b)
    {
      NapotCoversUnlessAtTop(base, n, q, b);
    }
    hide Matches, Protects;
    ProtectedMemoryNeverChanges(s, turns, 0);
  }
}
