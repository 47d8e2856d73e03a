/** The cause numbers of exceptions, against table 3.6 of the Privileged Spec. */
module Causes {
  import opened Words
  import opened Mmu
  import opened MmuProofs
  import opened Trap
  import opened StatusBits
  import opened TrapProofs
  import opened Csr
  import opened Core
  import opened CsrRules
  import opened Protection
  import opened Privilege
  import opened Precise
  import Pmp

  // The numbers

  /** Instruction, load and store access fault. */
  function AccessNumber(access: Access): Words.Cause {
    match access case Fetch => 1 case Read => 5 case Write => 7
  }

  /** Instruction, load and store page fault. */
  function PageNumber(access: Access): Words.Cause {
    match access case Fetch => 12 case Read => 13 case Write => 15
  }

  /** Environment calls from user, supervisor and machine mode. */
  function CallNumber(mode: Priv): Words.Cause {
    if mode == 0 then 8 else if mode == 1 then 9 else 11
  }

  const ILLEGAL_INSTRUCTION: Words.Cause := 2

  // The outcome of an access

  /** Bit 17 of mstatus lends loads and stores the mode in the bits 11 and 12. */
  function SpecPrivilege(s: State, access: Access): Priv {
    if access != Fetch && BitAt(s.trap.status, 17)
    then (if BitAt(s.trap.status, 11) then 1 else 0) + (if BitAt(s.trap.status, 12) then 2 else 0)
    else s.mode
  }

  lemma ModePositions(w: bv32)
    ensures IsSet(w, MPRV) <==> BitAt(w, 17)
    ensures IsSet(w, SUM) <==> BitAt(w, 18)
    ensures IsSet(w, MXR) <==> BitAt(w, 19)
  {
  }

  lemma PrivilegeIsSpec(s: State, access: Access)
    ensures Effective(s, access) == SpecPrivilege(s, access)
  {
    hide IsSet, BitAt, Mpp, Spp;
    ModePositions(s.trap.status);
    PrivilegePositions(s.trap.status);
  }

  /**
    * What an access comes to: its physical address, a page fault at its virtual address, or an
    * access fault at the physical address that PMP refused. Bit 18 of mstatus is SUM, bit 19 MXR. A
    * refused read of a page table entry is a load access fault for every kind of access.
    */
  function SpecAccess(s: State, access: Access, va: Word, len: nat): Result<Word, Fault>
    requires s.Valid()
  {
    var priv := SpecPrivilege(s, access);
    var sum, mxr := BitAt(s.trap.status, 18), BitAt(s.trap.status, 19);
    match Translate(TheBus(s), s.satp, priv, va, access, sum, mxr)
    case Success(pa) =>
      if Pmp.Allowed(s.pmp, priv, pa, len, access) then Success(pa) else Failure(Fault(AccessNumber(access), pa))
    case Failure(_) =>
      match Walk(TheBus(s), priv, va, RootTable(s.satp), 1)
      case Denied(at) => Failure(Fault(5, at))
      case _ => Failure(Fault(PageNumber(access), va))
  }

  lemma AccessIsSpec(s: State, access: Access, va: Word, len: nat)
    requires s.Valid()
    ensures CheckedAccess(s, access, va, len) == SpecAccess(s, access, va, len)
  {
    hide IsSet, BitAt, Mpp, Effective, SpecPrivilege, Walk, Usable, PhysicalAddress, Bare, RootTable, Pmp.Allowed;
    ModePositions(s.trap.status);
    PrivilegeIsSpec(s, access);
  }

  // The first exception of an instruction and of a cycle

  function SpecRaises(s: State, i: Instr): Option<Fault>
    requires s.Valid()
  {
    match i
    case Load(_, rs1, offset, len, _) => FaultOf(SpecAccess(s, Read, Wrap(s.x[rs1] + offset), len))
    case Store(rs1, _, offset, len) => FaultOf(SpecAccess(s, Write, Wrap(s.x[rs1] + offset), len))
    case LoadReserved(_, rs1) => FaultOf(SpecAccess(s, Read, s.x[rs1], 4))
    case StoreConditional(_, rs1, _) =>
      if s.lrValid && s.lrAddress == s.x[rs1] then FaultOf(SpecAccess(s, Write, s.x[rs1], 4)) else None
    case Amo(_, _, rs1, _) =>
      Precise.Or(FaultOf(SpecAccess(s, Read, s.x[rs1], 4)), FaultOf(SpecAccess(s, Write, s.x[rs1], 4)))
    case CsrAccess(op, rd, o, a) =>
      if Refused(s.mode, op, rd, o, a) then Some(Fault(ILLEGAL_INSTRUCTION, 0)) else None
    case Ecall => Some(Fault(CallNumber(s.mode), 0))
    case _ => None
  }

  lemma RaisesIsSpec(s: State, i: Instr)
    requires s.Valid() && IsLevel(s.mode)
    ensures Raises(s, i) == SpecRaises(s, i)
  {
    hide CheckedAccess, SpecAccess, Refused, Wrap;
    match i
    case Load(_, rs1, offset, len, _) => AccessIsSpec(s, Read, Wrap(s.x[rs1] + offset), len);
    case Store(rs1, _, offset, len) => AccessIsSpec(s, Write, Wrap(s.x[rs1] + offset), len);
    case LoadReserved(_, rs1) => AccessIsSpec(s, Read, s.x[rs1], 4);
    case StoreConditional(_, rs1, _) => AccessIsSpec(s, Write, s.x[rs1], 4);
    case Amo(_, _, rs1, _) =>
      AccessIsSpec(s, Read, s.x[rs1], 4);
      AccessIsSpec(s, Write, s.x[rs1], 4);
    case _ =>
  }

  function SpecFirstFault(s: State, decode: Decoder): Option<Fault>
    requires s.Valid()
  {
    match SpecAccess(s.(nextPc := 0), Fetch, s.pc, 4)
    case Failure(f) => Some(f)
    case Success(pa) => SpecRaises(s.(nextPc := 0), decode(ReadBytes(s.mem, pa, 4), s.x, s.pc))
  }

  lemma FirstFaultIsSpec(s: State, decode: Decoder)
    requires s.Valid() && IsLevel(s.mode)
    ensures FirstFault(s, decode) == SpecFirstFault(s, decode)
  {
    hide CheckedAccess, SpecAccess, Raises, SpecRaises, ReadBytes;
    var s0 := s.(nextPc := 0);
    AccessIsSpec(s0, Fetch, s.pc, 4);
    if Executed(s, decode).Some? {
      RaisesIsSpec(s0, Executed(s, decode).value);
    }
  }

  /**
    * After a cycle that raised an exception, xcause of the serving level holds the number that the
    * specification gives to it, and xtval the address or 0.
    */
  lemma CausesAreTheSpecs(s: State, t: Protection.Turn)
    requires s.Valid() && IsLevel(s.mode) && !s.pending && SpecFirstFault(s, t.decode).Some?
    ensures var c := Cycle(s, t.decode, t.lines);
      var f := SpecFirstFault(s, t.decode).value;
      && IsLevel(c.mode) && Regs(c.trap, c.mode).cause == f.cause && Regs(c.trap, c.mode).tval == f.tval
      && Regs(c.trap, c.mode).epc == s.pc
  {
    hide Cycle, FirstFault, SpecFirstFault, ExceptionLevel, EnterStatus, Regs;
    FirstFaultIsSpec(s, t.decode);
    ExceptionsArePrecise(s, t);
  }

  /** A load, store or fetch from a page without a leaf, with all its tables readable. */
  lemma UnmappedPage(s: State, access: Access, va: Word, len: nat)
    requires s.Valid() && SpecPrivilege(s, access) != 3 && HasBit(s.satp, 31)
    requires Walk(TheBus(s), SpecPrivilege(s, access), va, RootTable(s.satp), 1) == NoLeaf
    ensures CheckedAccess(s, access, va, len) == Failure(Fault(match access case Fetch => 12 case Read => 13 case Write => 15, va))
  {
    hide BitAt, SpecPrivilege, Walk, RootTable, HasBit, Pmp.Allowed;
    AccessIsSpec(s, access, va, len);
    SatpFields(s.satp, SpecPrivilege(s, access));
    hide Bare;
  }

  /** In user mode, a load from such a page ends with the cause of a load page fault, and its address. */
  lemma UserLoadPageFault(s: State, t: Protection.Turn, rd: Reg, rs1: Reg, offset: int, len: nat, signed: bool)
    requires s.Valid() && s.mode == USER && !s.pending && Executed(s, t.decode) == Some(Load(rd, rs1, offset, len, signed))
    requires SpecPrivilege(s, Read) == USER && HasBit(s.satp, 31)
    requires Walk(TheBus(s), USER, Wrap(s.x[rs1] + offset), RootTable(s.satp), 1) == NoLeaf
    ensures var c := Cycle(s, t.decode, t.lines);
      IsLevel(c.mode) && Regs(c.trap, c.mode).cause == 13 && Regs(c.trap, c.mode).tval == Wrap(s.x[rs1] + offset)
  {
    hide BitAt, SpecPrivilege, Walk, RootTable, HasBit, Cycle, Executed, CheckedAccess, ExceptionLevel, EnterStatus, Regs,
      SetPending, Wrap;
    var s0 := s.(nextPc := 0);
    SamePrivilege(s);
    UnmappedPage(s0, Read, Wrap(s.x[rs1] + offset), len);
    ExceptionsArePrecise(s, t);
  }

  lemma SamePrivilege(s: State)
    ensures forall access: Access :: SpecPrivilege(s.(nextPc := 0), access) == SpecPrivilege(s, access)
  {
    hide BitAt;
  }
}
