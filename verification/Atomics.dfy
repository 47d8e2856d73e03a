/** AMO instructions: one read-modify-write whatever registers coincide, and what their faults leave. */
module Atomics {
  import opened Words
  import opened Mmu
  import opened MmuProofs
  import opened Trap
  import opened Core
  import opened Protection
  import opened Precise
  import Pmp

  /** What section 8.4 of the Unprivileged Spec asks an AMO to store. */
  ghost predicate AmoSpec(op: AmoOp, before: Word, src: Word, r: Word) {
    match op
    case Swap => r == src
    case Add => exists carry :: 0 <= carry <= 1 && r + 0x1_0000_0000 * carry == before + src
    case Xor => Bits(r) == Bits(before) ^ Bits(src)
    case And => Bits(r) == Bits(before) & Bits(src)
    case Or => Bits(r) == Bits(before) | Bits(src)
    case Min => (r == before || r == src) && Signed(r) <= Signed(before) && Signed(r) <= Signed(src)
    case Max => (r == before || r == src) && Signed(r) >= Signed(before) && Signed(r) >= Signed(src)
    case MinU => (r == before || r == src) && r <= before && r <= src
    case MaxU => (r == before || r == src) && r >= before && r >= src
  }

  lemma AmoResultIsSpec(op: AmoOp, before: Word, src: Word)
    ensures AmoSpec(op, before, src, AmoResult(op, before, src))
  {
    hide Bits, Value;
    match op
    case Add =>
      var carry := if before + src < LIMIT then 0 else 1;
      assert AmoResult(op, before, src) + 0x1_0000_0000 * carry == before + src;
    case Xor => BitsOfValue(Bits(before) ^ Bits(src));
    case And => BitsOfValue(Bits(before) & Bits(src));
    case Or => BitsOfValue(Bits(before) | Bits(src));
    case _ =>
  }

  /** A data access that may write and one that may read go to the same physical address. */
  lemma SameAddress(s: State, va: Word, len: nat)
    requires s.Valid() && CheckedAccess(s, Write, va, len).Success? && CheckedAccess(s, Read, va, len).Success?
    ensures CheckedAccess(s, Write, va, len) == CheckedAccess(s, Read, va, len)
  {
    hide Translate, Pmp.Allowed, IsSet, Mpp;
    WriteTranslationImpliesRead(TheBus(s), s.satp, Effective(s, Write), va, IsSet(s.trap.status, SUM), IsSet(s.trap.status, MXR));
  }

  lemma LoadSucceeds(s: State, rd: Reg, va: Word, pa: Word)
    requires s.Valid() && CheckedAccess(s, Read, va, 4) == Success(pa)
    ensures DoLoad(s, rd, va, 4, false) == Set(s, rd, ReadBytes(s.mem, pa, 4))
  {
    hide CheckedAccess, ReadBytes;
  }

  lemma StoreSucceeds(s: State, va: Word, v: Word, pa: Word)
    requires s.Valid() && CheckedAccess(s, Write, va, 4) == Success(pa)
    ensures DoStore(s, va, 4, v) == s.(mem := WriteBytes(s.mem, pa, 4, v))
  {
    hide CheckedAccess, WriteBytes;
  }

  /**
    * For all rd, rs1 and rs2, equal or x0: an AMO that does not fault puts the old word into rd
    * (x0 stays 0) and leaves in memory, at the one physical address it used, what the
    * specification computes from the old word and the old rs2; nothing else changes.
    */
  lemma AmoIsReadModifyWrite(s: State, op: AmoOp, rd: Reg, rs1: Reg, rs2: Reg)
    requires s.Valid() && s.x[0] == 0 && Raises(s, Amo(op, rd, rs1, rs2)).None?
    ensures var pa := CheckedAccess(s, Write, s.x[rs1], 4).value;
      var before := ReadBytes(s.mem, pa, 4);
      var r := HardwireZero(Execute(s, Amo(op, rd, rs1, rs2)));
      && CheckedAccess(s, Read, s.x[rs1], 4) == Success(pa)
      && AmoSpec(op, before, s.x[rs2], ReadBytes(r.mem, pa, 4))
      && (forall b: Word :: !InAccess(b, pa, 4) ==> r.mem(b) == s.mem(b))
      && r.x == (if rd == 0 then s.x else s.x[rd := before])
      && r == s.(x := r.x, mem := r.mem)
  {
    hide CheckedAccess, ReadBytes, WriteBytes, AmoResult, AmoSpec, DoLoad, DoStore;
    var va := s.x[rs1];
    SameAddress(s, va, 4);
    var pa := CheckedAccess(s, Write, va, 4).value;
    var before := ReadBytes(s.mem, pa, 4);
    var result := AmoResult(op, before, s.x[rs2]);
    LoadSucceeds(s, rd, va, pa);
    var loaded := Set(s, rd, before);
    AccessIgnoresRegisters(s, loaded, Write, va, 4);
    StoreSucceeds(loaded, va, result, pa);
    ReadBack(s.mem, pa, result);
    AmoResultIsSpec(op, before, s.x[rs2]);
    forall b: Word | !InAccess(b, pa, 4)
      ensures WriteBytes(s.mem, pa, 4, result)(b) == s.mem(b)
    {
      Written(s.mem, pa, 4, result, b);
    }
  }

  /** The load of an AMO stopped in translation: then its store stops too and nothing changes. */
  lemma LoadPageFaultStopsStore(s: State, op: AmoOp, rd: Reg, rs1: Reg, rs2: Reg)
    requires s.Valid() && !s.pending
    requires Translate(TheBus(s), s.satp, Effective(s, Read), s.x[rs1], Read, IsSet(s.trap.status, SUM), IsSet(s.trap.status, MXR)).Failure?
    ensures var r := Execute(s, Amo(op, rd, rs1, rs2)); r.pending && SameButFault(s, r)
  {
    hide Translate, Pmp.Allowed, IsSet, Mpp, AmoResult, ReadBytes, WriteBytes;
    if Translate(TheBus(s), s.satp, Effective(s, Write), s.x[rs1], Write, IsSet(s.trap.status, SUM), IsSet(s.trap.status, MXR)).Success? {
      WriteTranslationImpliesRead(TheBus(s), s.satp, Effective(s, Write), s.x[rs1], IsSet(s.trap.status, SUM), IsSet(s.trap.status, MXR));
    }
    var loaded := Latch(s, CheckedAccess(s, Read, s.x[rs1], 4).error);
    assert DoLoad(s, rd, s.x[rs1], 4, false) == loaded;
    AccessIgnoresRegisters(s, loaded, Write, s.x[rs1], 4);
  }

  /** A faulting AMO changes no register exactly if its load failed, or it has no destination. */
  lemma FaultingAmoRegisters(s: State, op: AmoOp, rd: Reg, rs1: Reg, rs2: Reg)
    requires s.Valid() && s.x[0] == 0 && !s.pending && Raises(s, Amo(op, rd, rs1, rs2)).Some?
    ensures var r := HardwireZero(Execute(s, Amo(op, rd, rs1, rs2)));
      match CheckedAccess(s, Read, s.x[rs1], 4)
      case Failure(_) => r.x == s.x
      case Success(pa) => r.x == (if rd == 0 then s.x else s.x[rd := ReadBytes(s.mem, pa, 4)])
  {
    hide CheckedAccess, ReadBytes, AmoResult, DoLoad, DoStore;
    var va := s.x[rs1];
    var loaded := DoLoad(s, rd, va, 4, false);
    StoreFrame(loaded, va, 4, AmoResult(op, loaded.x[rd], s.x[rs2]));
    LoadRaises(s, rd, va, 4, false);
    if CheckedAccess(s, Read, va, 4).Success? {
      LoadSucceeds(s, rd, va, CheckedAccess(s, Read, va, 4).value);
    }
  }

  /**
    * A faulting AMO changes memory at most where PMP lets the address be written but not read; then
    * the exception of the load is taken although the store went through.
    */
  lemma FaultingAmoMemory(s: State, op: AmoOp, rd: Reg, rs1: Reg, rs2: Reg)
    requires s.Valid() && !s.pending && Raises(s, Amo(op, rd, rs1, rs2)).Some?
    ensures var r, access := Execute(s, Amo(op, rd, rs1, rs2)), CheckedAccess(s, Write, s.x[rs1], 4);
      && (access.Failure? ==> r.mem == s.mem)
      && (access.Success? ==>
            && !Pmp.Allowed(s.pmp, Effective(s, Read), access.value, 4, Read)
            && Pmp.Allowed(s.pmp, Effective(s, Write), access.value, 4, Write)
            && ReadBytes(r.mem, access.value, 4) == AmoResult(op, s.x[rd], s.x[rs2]))
  {
    hide ReadBytes, WriteBytes, AmoResult, Translate, Pmp.Allowed, IsSet, Mpp, DoLoad, DoStore;
    var va := s.x[rs1];
    var loaded := DoLoad(s, rd, va, 4, false);
    var result := AmoResult(op, loaded.x[rd], s.x[rs2]);
    LoadFrame(s, rd, va, 4, false);
    AccessIgnoresRegisters(s, loaded, Write, va, 4);
    StoreRaises(loaded, va, 4, result);
    LoadRaises(s, rd, va, 4, false);
    if CheckedAccess(s, Write, va, 4).Success? {
      var pa := CheckedAccess(s, Write, va, 4).value;
      WriteTranslationImpliesRead(TheBus(s), s.satp, Effective(s, Write), va, IsSet(s.trap.status, SUM), IsSet(s.trap.status, MXR));
      hide CheckedAccess;
      StoreSucceeds(loaded, va, result, pa);
      ReadBack(s.mem, pa, result);
    }
  }

  /** One unlocked NA4 entry for the word at 0x100 with only its W bit set. */
  const WRITE_ONLY := Pmp.PmpState(seq(Pmp.ENTRIES, k => if k == 0 then 0x12 else 0),
                                   seq(Pmp.ENTRIES, k => if k == 0 then 0x40 else 0))

  lemma WriteOnlyEntry()
    ensures WRITE_ONLY.Valid()
    ensures !Pmp.Allowed(WRITE_ONLY, USER, 0x100, 4, Read) && Pmp.Allowed(WRITE_ONLY, USER, 0x100, 4, Write)
  {
    assert Pmp.Hit(WRITE_ONLY, USER, 0, 0x100, 0x103);
    Pmp.FirstHitIs(WRITE_ONLY, USER, 0x100, 0x103, 0, 0);
  }

  /** In user mode, an AMOSWAP to that word raises a load access fault and stores all the same. */
  lemma DeniedLoadStillStores(mem: Memory)
    ensures WRITE_ONLY.Valid()
    ensures var s := Reset(mem).(mode := USER, pmp := WRITE_ONLY, x := Reset(mem).x[1 := 0x100][2 := 7]);
      var r := Execute(s, Amo(Swap, 3, 1, 2));
      s.Valid() && r.pending && r.cause == AccessFault(Read) && r.tval == 0x100 && ReadBytes(r.mem, 0x100, 4) == 7
  {
    WriteOnlyEntry();
    hide ReadBytes, WriteBytes, Pmp.Allowed, DoLoad, DoStore;
    var s := Reset(mem).(mode := USER, pmp := WRITE_ONLY, x := Reset(mem).x[1 := 0x100][2 := 7]);
    assert !IsSet(s.trap.status, MPRV) && Bare(s.satp, USER);
    assert CheckedAccess(s, Read, 0x100, 4) == Failure(Fault(AccessFault(Read), 0x100));
    assert CheckedAccess(s, Write, 0x100, 4) == Success(0x100);
    hide CheckedAccess;
    AmoRaises(s, Swap, 3, 1, 2);
    FaultingAmoMemory(s, Swap, 3, 1, 2);
  }
}
