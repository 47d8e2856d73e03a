/** The emulated hart as the object that src/core/core.c updates in place. */
module HartUnit {
  import opened Words
  import opened Mmu
  import opened Trap
  import opened Csr
  import opened Core
  import opened Quotients
  import Pmp

  lemma LowBit(pte: Word, d: nat, rest: nat)
    requires d * rest == 0x100 && rest % 2 == 0 && 0 < d
    ensures pte % 0x100 / d % 2 == pte / d % 2
  {
    var q, f := pte / 0x100, pte % 0x100;
    assert pte == d * (rest * q) + f;
    QuotientOfSum(d, rest * q, f);
    EvenSum(rest, q, f / d);
  }

  lemma QuotientOfSum(d: nat, k: nat, f: nat)
    requires 0 < d
    ensures (d * k + f) / d == k + f / d
  {
    Split(f, d);
    Distribute(k, f / d, d);
    Unique(d * k + f, d, k + f / d, f % d);
  }

  lemma EvenSum(rest: nat, q: nat, k: nat)
    requires rest % 2 == 0
    ensures (rest * q + k) % 2 == k % 2
  {
    assert rest * q == 2 * (rest / 2 * q);
  }

  /** The low byte of an entry holds all its flags. */
  lemma FlagsOfPte(pte: Word)
    ensures var f := pte % 0x100;
      && IsValid(f) == IsValid(pte) && IsRead(f) == IsRead(pte) && IsWrite(f) == IsWrite(pte)
      && IsExec(f) == IsExec(pte) && IsUser(f) == IsUser(pte)
      && IsAccessed(f) == IsAccessed(pte) && IsDirty(f) == IsDirty(pte)
  {
    LowBit(pte, 1, 0x100);
    LowBit(pte, 2, 0x80);
    LowBit(pte, 4, 0x40);
    LowBit(pte, 8, 0x20);
    LowBit(pte, 16, 0x10);
    LowBit(pte, 64, 4);
    LowBit(pte, 128, 2);
  }

  /** Flags with the R bit set. */
  function WithRead(flags: Word): Word
    requires flags < 0x100
  {
    if IsRead(flags) then flags else flags + 2
  }

  lemma QuartersFirst(x: nat)
    ensures x / 8 == x / 4 / 2 && x / 64 == x / 4 / 16 && x / 128 == x / 4 / 32
  {
  }

  lemma AddTwo(flags: nat)
    requires flags / 2 % 2 == 0
    ensures (flags + 2) / 4 == flags / 4 && (flags + 2) / 2 % 2 == 1
  {
  }

  lemma WithReadFlags(flags: Word)
    requires flags < 0x100
    ensures var f := WithRead(flags);
      && IsRead(f) && IsWrite(f) == IsWrite(flags) && IsExec(f) == IsExec(flags)
      && IsAccessed(f) == IsAccessed(flags) && IsDirty(f) == IsDirty(flags)
  {
    if !IsRead(flags) {
      AddTwo(flags);
      QuartersFirst(flags);
      QuartersFirst(flags + 2);
    }
  }

  class Hart {
    var mode: Priv
    const x: array<Word>
    var pc: Word
    var nextPc: Word
    var pending: bool
    var cause: Words.Cause
    var tval: Word
    const pmp: Pmp.Unit
    const trap: Trap.Unit
    var satp: Word
    var mem: Memory
    var lrValid: bool
    var lrAddress: Word
    var cycle: Count
    const csr: array<Word>

    ghost predicate Valid() {
      && x.Length == 32 && csr.Length == CSR_COUNT
      && pmp.cfg.Length == Pmp.ENTRIES && pmp.addr.Length == Pmp.ENTRIES && trap.Valid()
      && x != csr && x != pmp.addr && csr != pmp.addr
    }

    ghost function Repr(): set<object> {
      {this, x, csr, pmp.cfg, pmp.addr, trap, trap.m, trap.s, trap.u}
    }

    ghost function State(): Core.State
      reads Repr(), pmp
    {
      Core.State(mode, x[..], pc, nextPc, pending, cause, tval, pmp.State(), trap.State(), satp, mem,
                 lrValid, lrAddress, cycle, csr[..])
    }

    /** rv_core_init: machine mode at the reset vector, every register zero but misa. */
    constructor (mem: Memory)
      ensures Valid() && fresh(Repr())
      ensures State() == Reset(mem)
    {
      mode := MACHINE;
      x := new Word[32](_ => 0);
      pc, nextPc := RESET_PC, 0;
      pending, cause, tval := false, 0, 0;
      pmp := new Pmp.Unit();
      trap := new Trap.Unit(MISA);
      satp := 0;
      this.mem := mem;
      lrValid, lrAddress, cycle := false, 0, 0;
      csr := new Word[CSR_COUNT](_ => 0);
      new;
      assert x[..] == seq(32, _ => 0);
      assert csr[..] == seq(CSR_COUNT, _ => 0);
    }

    method PrepareSyncTrap(cause: Words.Cause, tval: Word)
      modifies this`pending, this`cause, this`tval
      ensures State() == Latch(old(State()), Fault(cause, tval))
    {
      if !pending {
        pending := true;
        this.cause := cause;
        this.tval := tval;
      }
    }

    method CheckMprvOverride(access: Access) returns (priv: Priv)
      ensures priv == Effective(State(), access)
    {
      hide IsSet, Mpp;
      if access == Fetch {
        return mode;
      }
      var mprv := IsSet(trap.status, MPRV);
      return if mprv then Mpp(trap.status) else mode;
    }

    /** `out` is the value read; a refused access and a write leave the passed value as it was. */
    method PmpCheckedBusAccess(priv: Priv, access: Access, a: Word, len: nat, value: Word) returns (ret: Ret, out: Word)
      requires Valid()
      modifies this`pending, this`cause, this`tval, this`mem
      ensures var s := old(State());
        if !Pmp.Allowed(s.pmp, priv, a, len, access) then
          ret.Err? && out == value && State() == Latch(s, Fault(AccessFault(access), a))
        else if access == Write then
          ret.Ok? && out == value && State() == s.(mem := WriteBytes(s.mem, a, len, value))
        else ret.Ok? && out == ReadBytes(s.mem, a, len) && State() == s
    {
      hide WriteBytes, ReadBytes, Pmp.Allowed;
      out := value;
      ret := pmp.MemCheck(priv, a, len, access);
      if ret.Err? {
        PrepareSyncTrap(AccessFault(access), a);
        return Err, value;
      }
      if access == Write {
        mem := WriteBytes(mem, a, len, value);
      } else {
        out := ReadBytes(mem, a, len);
      }
    }

    /**
      * The page table walk. A refused read of an entry is latched and leaves the previous entry
      * in `pte`, and the loop goes on with it.
      */
    method VirtToPhys(priv: Priv, va: Word, access: Access, mxr: bool, sum: bool) returns (ok: bool, pa: Word)
      requires Valid()
      modifies this`pending, this`cause, this`tval, this`mem
      ensures var s := old(State());
        match Translate(TheBus(s), s.satp, priv, va, access, sum, mxr)
        case Success(p) => ok && pa == p && State() == s
        case Failure(f) => !ok && Latch(State(), Fault(PageFault(access), va)) == Latch(s, f)
    {
      hide Pmp.Unit.State, Trap.Unit.State;
      if priv == MACHINE || satp / 0x8000_0000 == 0 {
        return true, va;
      }
      ghost var s := State();
      var pte: Word;
      var level: int;
      level, pte := FindLeaf(priv, va);
      if level < 0 {
        return false, 0;
      }
      hide Walk;
      var flags: Word := pte % 0x100;
      FlagsOfPte(pte);
      if priv == USER && !IsUser(flags) {
        return false, 0;
      }
      if priv == SUPERVISOR && IsUser(flags) && !sum {
        return false, 0;
      }
      if access == Read && IsExec(flags) && mxr {
        WithReadFlags(flags);
        flags := WithRead(flags);
      }
      hide IsRead, IsWrite, IsExec, IsUser, IsAccessed, IsDirty, WithRead;
      var granted := match access case Read => IsRead(flags) case Write => IsWrite(flags) case Fetch => IsExec(flags);
      if !granted {
        return false, 0;
      }
      var shifted := Times4(pte);
      var ppn0, ppn1 := shifted / 0x1000 % 0x400, shifted / 0x40_0000 % 0x1000;
      ShiftedFields(pte);
      if level > 0 && ppn0 != 0 {
        return false, 0;
      }
      if !IsAccessed(flags) || (access == Write && !IsDirty(flags)) {
        return false, 0;
      }
      TruncatedAddress(level, pte, va);
      hide PhysicalAddress;
      ok := true;
      pa := if level == 0 then ppn1 * 0x40_0000 + ppn0 * 0x1000 + va % 0x1000
            else ppn1 * 0x40_0000 + va % 0x40_0000;
    }

    /** The loop of the walk: the level of the leaf (or -1) and the last entry it holds. */
    method FindLeaf(priv: Priv, va: Word) returns (level: int, pte: Word)
      requires Valid()
      modifies this`pending, this`cause, this`tval, this`mem
      ensures var s := old(State());
        match Walk(TheBus(s), priv, va, RootTable(s.satp), 1)
        case Leaf(l, p) => level == l && pte == p && State() == s
        case NoLeaf => level == -1 && State() == s
        case Denied(at) => level == -1 && State() == Latch(s, Fault(AccessFault(Read), at))
    {
      ghost var s := State();
      assert !IsValid(0);
      hide Pmp.Allowed, ReadBytes, IsValid, IsRead, IsWrite, IsExec, Ppn, PteAddress, Vpn;
      var a := RootTable(satp);
      pte := 0;
      level := 1;
      ghost var denied := false;
      while level >= 0
        invariant -1 <= level <= 1
        invariant level < 0 || !denied
        invariant level >= 0 ==> State() == s
        invariant level >= 0 ==>
          Walk(TheBus(s), priv, va, RootTable(s.satp), 1) == Walk(TheBus(s), priv, va, a, level)
        invariant level == 1 ==> !IsValid(pte)
        invariant level == 0 ==> !IsBroken(pte) && !IsRead(pte) && !IsExec(pte)
        invariant level < 0 ==>
          match Walk(TheBus(s), priv, va, RootTable(s.satp), 1)
          case Leaf(_, _) => false
          case NoLeaf => State() == s
          case Denied(at) => State() == Latch(s, Fault(AccessFault(Read), at))
      {
        var at := PteAddress(a, va, level);
        var ret;
        ret, pte := PmpCheckedBusAccess(priv, Read, at, 4, pte);
        denied := ret.Err?;
        if !IsValid(pte) || (!IsRead(pte) && IsWrite(pte)) {
          return -1, pte;
        }
        if IsRead(pte) || IsExec(pte) {
          return level, pte;
        }
        a := TableAddress(Ppn(pte));
        level := level - 1;
      }
    }

    method MmuCheckedBusAccess(access: Access, va: Word, len: nat, value: Word) returns (ret: Ret, out: Word)
      requires Valid()
      modifies this`pending, this`cause, this`tval, this`mem
      ensures var s := old(State());
        match CheckedAccess(s, access, va, len)
        case Failure(f) => ret.Err? && out == value && State() == Latch(s, f)
        case Success(pa) =>
          ret.Ok? && if access == Write then out == value && State() == s.(mem := WriteBytes(s.mem, pa, len, value))
                     else out == ReadBytes(s.mem, pa, len) && State() == s
    {
      hide Translate, Pmp.Allowed, ReadBytes, WriteBytes, IsSet, Effective;
      var priv := CheckMprvOverride(access);
      var mxr := IsSet(trap.status, MXR);
      var sum := IsSet(trap.status, SUM);
      var ok, pa := VirtToPhys(priv, va, access, mxr, sum);
      if !ok {
        PrepareSyncTrap(PageFault(access), va);
        return Err, value;
      }
      ret, out := PmpCheckedBusAccess(priv, access, pa, len, value);
    }

    method SetRegister(rd: Reg, v: Word)
      requires Valid()
      modifies x
      ensures State() == Set(old(State()), rd, v)
    {
      x[rd] := v;
    }

    // Loads, stores and atomics

    method DoLoadInto(rd: Reg, va: Word, len: nat, signed: bool)
      requires Valid()
      modifies Repr()
      ensures State() == DoLoad(old(State()), rd, va, len, signed)
    {
      hide Pmp.Unit.State, Trap.Unit.State;
      hide CheckedAccess, ReadBytes, SignExtend;
      var ret, loaded := MmuCheckedBusAccess(Read, va, len, 0);
      if ret.Ok? {
        SetRegister(rd, if signed then SignExtend(loaded, len) else loaded);
      }
    }

    method DoStoreFrom(va: Word, len: nat, v: Word)
      requires Valid()
      modifies Repr()
      ensures State() == DoStore(old(State()), va, len, v)
    {
      hide Pmp.Unit.State, Trap.Unit.State;
      hide CheckedAccess, WriteBytes;
      var ret, out := MmuCheckedBusAccess(Write, va, len, v);
    }

    method LoadReservedWord(rd: Reg, rs1: Reg)
      requires Valid()
      modifies Repr()
      ensures State() == DoLoadReserved(old(State()), rd, rs1)
    {
      hide Pmp.Unit.State, Trap.Unit.State;
      hide DoLoad;
      lrAddress := x[rs1];
      lrValid := true;
      DoLoadInto(rd, x[rs1], 4, false);
    }

    method StoreConditionalWord(rd: Reg, rs1: Reg, rs2: Reg)
      requires Valid()
      modifies Repr()
      ensures State() == DoStoreConditional(old(State()), rd, rs1, rs2)
    {
      hide Pmp.Unit.State, Trap.Unit.State;
      hide DoStore;
      if lrValid && lrAddress == x[rs1] {
        DoStoreFrom(x[rs1], 4, x[rs2]);
        SetRegister(rd, 0);
      } else {
        SetRegister(rd, 1);
      }
      lrValid := false;
      lrAddress := 0;
    }

    method AmoWord(op: AmoOp, rd: Reg, rs1: Reg, rs2: Reg)
      requires Valid()
      modifies Repr()
      ensures State() == DoAmo(old(State()), op, rd, rs1, rs2)
    {
      hide Pmp.Unit.State, Trap.Unit.State;
      hide DoLoad, DoStore, AmoResult;
      var address := x[rs1];
      var src := x[rs2];
      DoLoadInto(rd, address, 4, false);
      var result := AmoResult(op, x[rd], src);
      DoStoreFrom(address, 4, result);
    }

    // Control and status registers

    method ReadCsrReg(a: CsrAddress) returns (v: Option<bv32>)
      requires Valid()
      ensures v == ReadCsr(State(), a)
    {
      var d := Describe(a);
      hide Describe, ReadReg, WordOf, Bits;
      if mode !in d.readers {
        return None;
      }
      match d.target
      case TrapRegister(level, reg) =>
        var r := trap.Read(level, reg);
        return Some(r);
      case PmpCfg(i) =>
        var w := pmp.ReadCsrCfg(i);
        return Some(Bits(w));
      case PmpAddr(i) => return Some(Bits(pmp.addr[i]));
      case Satp => return Some(Bits(satp));
      case Plain => return Some(Bits(csr[a]));
    }

    method WriteCsrReg(a: CsrAddress, v: bv32) returns (ret: Ret)
      requires Valid()
      modifies Repr()
      ensures var w := WriteCsr(old(State()), a, v);
        if w.None? then ret.Err? && State() == old(State()) else ret.Ok? && State() == w.value
    {
      var d := Describe(a);
      hide Pmp.Unit.State, Trap.Unit.State;
      hide Describe, WriteReg, Value, Pmp.WriteCfg, Pmp.WriteAddr;
      if mode !in d.writers {
        return Err;
      }
      match d.target
      case TrapRegister(level, reg) =>
        trap.Write(level, reg, v);
        return Ok;
      case PmpCfg(i) =>
        ret := pmp.WriteCsrCfg(mode, i, Value(v));
      case PmpAddr(i) =>
        ret := pmp.WriteCsrAddr(mode, i, Value(v));
      case Satp =>
        satp := Value(v);
        return Ok;
      case Plain =>
        csr[a] := Value(v & d.mask);
        return Ok;
    }

    method CsrReadWrite(rd: Reg, o: Operand, a: CsrAddress)
      requires Valid()
      modifies Repr()
      ensures State() == DoCsr(old(State()), ReadWrite, rd, o, a)
    {
      hide Pmp.Unit.State, Trap.Unit.State;
      hide Describe, ReadCsr, WriteCsr, Replace, Visible, Value, Bits;
      var v := match o case Register(r) => Bits(x[r]) case Immediate(r) => Bits(r);
      var mask := Describe(a).mask;
      var value: bv32 := 0;
      if rd != 0 {
        var read := ReadCsrReg(a);
        if read.None? {
          PrepareSyncTrap(ILLEGAL, 0);
          return;
        }
        value := read.value;
      }
      var ret := WriteCsrReg(a, Replace(value, v, mask));
      if ret.Err? {
        PrepareSyncTrap(ILLEGAL, 0);
        return;
      }
      SetRegister(rd, Value(Visible(value, mask)));
    }

    /** CSRRS and CSRRC: their operand number 0 suppresses the write. */
    method CsrReadModify(clear: bool, rd: Reg, o: Operand, a: CsrAddress)
      requires Valid()
      modifies Repr()
      ensures State() == DoCsr(old(State()), if clear then ReadClear else ReadSet, rd, o, a)
    {
      hide Pmp.Unit.State, Trap.Unit.State;
      hide Describe, ReadCsr, WriteCsr, Combine, Visible, Value, Bits;
      var v := match o case Register(r) => Bits(x[r]) case Immediate(r) => Bits(r);
      var mask := Describe(a).mask;
      var read := ReadCsrReg(a);
      if read.None? {
        PrepareSyncTrap(ILLEGAL, 0);
        return;
      }
      if o.r != 0 {
        var ret := WriteCsrReg(a, Combine(if clear then ReadClear else ReadSet, read.value, v, mask));
        if ret.Err? {
          PrepareSyncTrap(ILLEGAL, 0);
          return;
        }
      }
      SetRegister(rd, Value(Visible(read.value, mask)));
    }

    // Returns

    method ReturnTo(epc: Word)
      requires Valid()
      modifies Repr()
      ensures State() == DoReturn(old(State()), epc)
    {
      hide LeaveStatus, PreviousPrivilege;
      var restored := trap.RestoreIrqSettings(mode);
      mode := restored;
      nextPc := epc;
    }

    // The cycle

    method ExecuteInstr(i: Instr)
      requires Valid()
      modifies Repr()
      ensures State() == Execute(old(State()), i)
    {
      match i
      case Load(_, _, _, _, _) | Store(_, _, _, _) => ExecuteTransfer(i);
      case LoadReserved(_, _) | StoreConditional(_, _, _) | Amo(_, _, _, _) => ExecuteAtomic(i);
      case _ => ExecuteInternal(i);
    }

    method ExecuteTransfer(i: Instr)
      requires Valid() && (i.Load? || i.Store?)
      modifies Repr()
      ensures State() == Execute(old(State()), i)
    {
      hide Pmp.Unit.State, Trap.Unit.State;
      hide DoLoad, DoStore, DoLoadReserved, DoStoreConditional, DoAmo, DoCsr, DoReturn, Wrap;
      match i
      case Load(rd, rs1, offset, len, signed) => DoLoadInto(rd, Wrap(x[rs1] + offset), len, signed);
      case Store(rs1, rs2, offset, len) => DoStoreFrom(Wrap(x[rs1] + offset), len, x[rs2]);
    }

    method ExecuteAtomic(i: Instr)
      requires Valid() && (i.LoadReserved? || i.StoreConditional? || i.Amo?)
      modifies Repr()
      ensures State() == Execute(old(State()), i)
    {
      hide Pmp.Unit.State, Trap.Unit.State;
      hide DoLoad, DoStore, DoLoadReserved, DoStoreConditional, DoAmo, DoCsr, DoReturn;
      match i
      case LoadReserved(rd, rs1) => LoadReservedWord(rd, rs1);
      case StoreConditional(rd, rs1, rs2) => StoreConditionalWord(rd, rs1, rs2);
      case Amo(op, rd, rs1, rs2) => AmoWord(op, rd, rs1, rs2);
    }

    method ExecuteInternal(i: Instr)
      requires Valid() && !(i.Load? || i.Store? || i.LoadReserved? || i.StoreConditional? || i.Amo?)
      modifies Repr()
      ensures State() == Execute(old(State()), i)
    {
      hide Pmp.Unit.State;
      hide DoLoad, DoStore, DoLoadReserved, DoStoreConditional, DoAmo, DoCsr, DoReturn, Wrap;
      match i
      case Compute(rd, value) => SetRegister(rd, value);
      case Jump(rd, target) =>
        nextPc := target;
        SetRegister(rd, Wrap(pc + 4));
      case CsrAccess(op, rd, o, a) =>
        if op == ReadWrite {
          CsrReadWrite(rd, o, a);
        } else {
          CsrReadModify(op == ReadClear, rd, o, a);
        }
      case Ecall => PrepareSyncTrap(USER_ECALL + mode, 0);
      case Mret => ReturnTo(trap.m.epc);
      case Sret => ReturnTo(trap.s.epc);
    }

    method RunOnce(decode: Decoder)
      requires Valid()
      modifies Repr()
      ensures State() == Run(old(State()), decode)
    {
      hide Execute, CheckedAccess, ReadBytes;
      nextPc := 0;
      var ret, word := MmuCheckedBusAccess(Fetch, pc, 4, 0);
      if ret.Ok? {
        ExecuteInstr(decode(word, x[..], pc));
        x[0] := 0;
      }
      assert State() == Step(old(State()), decode);
      hide Step;
      AdvancePc();
    }

    method AdvancePc()
      requires Valid()
      modifies Repr()
      ensures State() == Advance(old(State()))
    {
      hide Pmp.Unit.State, Trap.Unit.State;
      hide Counters, Wrap;
      pc := if nextPc != 0 then nextPc else Wrap(pc + 4);
      cycle := (cycle + 1) % 0x1_0000_0000_0000_0000;
      UpdateCounters();
    }

    method UpdateCounters()
      requires Valid()
      modifies csr
      ensures csr[..] == Counters(old(csr[..]), cycle)
    {
      var lo := Wrap(cycle);
      var hi: Word := cycle / 0x1_0000_0000;
      csr[MCYCLE], csr[MINSTRET], csr[CYCLE], csr[TIME] := lo, lo, lo, lo;
      csr[MCYCLEH], csr[MINSTRETH], csr[CYCLEH], csr[TIMEH] := hi, hi, hi, hi;
    }

    method TakeTrapAt(level: Priv, interrupt: bool, irq: Words.Cause)
      requires Valid() && level != RESERVED
      modifies Repr()
      ensures State() == TakeTrap(old(State()), level, interrupt, irq)
    {
      hide Serve;
      var target := trap.ServeInterrupt(level, mode, interrupt, irq, pc, tval);
      pc := target;
      mode := level;
    }

    /** The result tells whether a trap was taken. */
    method PrepareInterruptsNow() returns (taken: bool)
      requires Valid() && mode != RESERVED
      modifies Repr()
      ensures State() == PrepareInterrupts(old(State()))
    {
      hide Pmp.Unit.State, Trap.Unit.State;
      hide TakeTrap, InterruptLevel, ExceptionLevel;
      ghost var s := State();
      if pending {
        var serving := trap.CheckExceptionDelegation(mode, cause);
        TakeTrapAt(serving, false, cause);
        pending := false;
        cause := 0;
        tval := 0;
        return true;
      }
      var irq: int := LAST_INTERRUPT;
      while irq >= 0
        invariant -1 <= irq <= LAST_INTERRUPT
        invariant State() == s && !pending
        invariant FirstInterrupt(s.trap, s.mode, LAST_INTERRUPT) == FirstInterrupt(s.trap, s.mode, irq)
      {
        var serving := trap.CheckInterruptPending(mode, irq);
        if serving.Some? {
          TakeTrapAt(serving.value, true, irq);
          return true;
        }
        irq := irq - 1;
      }
      return false;
    }

    /** One turn of the emulator's loop; without a result the emulator ends on a null pointer. */
    method DoCycle(decode: Decoder, lines: Lines) returns (alive: bool)
      requires Valid()
      modifies Repr()
      ensures State() == Cycle(old(State()), decode, lines)
      ensures alive <==> Run(old(State()), decode).mode != RESERVED
    {
      hide Run, SetPending, PrepareInterrupts;
      RunOnce(decode);
      trap.SetPendingBits(lines.ext, lines.tim, lines.sw);
      if mode == RESERVED {
        return false;
      }
      var taken := PrepareInterruptsNow();
      return true;
    }
  }

  /** The page number fields of the entry shifted left by two; its top two bits are gone. */
  lemma ShiftedFields(pte: Word)
    ensures Times4(pte) / 0x1000 % 0x400 == Ppn(pte) % 0x400
    ensures Times4(pte) / 0x40_0000 % 0x1000 == Ppn(pte) / 0x400 % 0x400
  {
    var low := pte % 0x4000_0000;
    assert Times4(pte) == 4 * low;
    assert Times4(pte) / 0x1000 == low / 0x400;
    assert Times4(pte) / 0x40_0000 == low / 0x10_0000;
    assert Ppn(pte) == pte / 0x4000_0000 * 0x10_0000 + low / 0x400;
    assert Ppn(pte) / 0x400 == pte / 0x4000_0000 * 0x400 + low / 0x10_0000;
  }

  lemma TruncatedAddress(level: nat, pte: Word, va: Word)
    ensures level == 0 ==>
      Wrap(PhysicalAddress(level, pte, va)) == Ppn(pte) / 0x400 % 0x400 * 0x40_0000 + Ppn(pte) % 0x400 * 0x1000 + va % 0x1000
    ensures level > 0 ==>
      Wrap(PhysicalAddress(level, pte, va)) == Ppn(pte) / 0x400 % 0x400 * 0x40_0000 + va % 0x40_0000
  {
    var upper, lower := Ppn(pte) / 0x400, Ppn(pte) % 0x400;
    assert Ppn(pte) == upper * 0x400 + lower && upper < 0x1000;
    hide Ppn;
    Truncate(upper, lower * 0x1000 + va % 0x1000);
    Truncate(upper, va % 0x40_0000);
  }

  lemma Truncate(upper: nat, low: nat)
    requires upper < 0x1000 && low < 0x40_0000
    ensures Wrap(upper * 0x40_0000 + low) == upper % 0x400 * 0x40_0000 + low
  {
    WrapDrops(upper / 0x400, upper % 0x400 * 0x40_0000 + low);
  }
}
