/** The state of the emulated hart and what each step makes of it (src/core/core.c). */
module Core {
  import opened Words
  import opened Pmp
  import opened Mmu
  import opened Trap
  import opened Csr

  type Reg = r: int | 0 <= r < 32

  /** A 64-bit count. */
  type Count = n: int | 0 <= n < 0x1_0000_0000_0000_0000

  const CSR_COUNT := 0xFFF

  datatype State = State(
    mode: Priv, x: seq<Word>, pc: Word, nextPc: Word,
    pending: bool, cause: Cause, tval: Word,
    pmp: PmpState, trap: TrapState, satp: Word, mem: Memory,
    lrValid: bool, lrAddress: Word, cycle: Count, csr: seq<Word>)
  {
    ghost predicate Valid() {
      |x| == 32 && pmp.Valid() && |csr| == CSR_COUNT
    }
  }

  const RESET_PC: Word := 0x1000

  /** RV32 with the extensions A, I, M, S and U. */
  const MISA: Word := 0x4014_1101

  /** The state that rv_core_init leaves, over any contents of memory. */
  function Reset(mem: Memory): (s: State)
    ensures s.Valid()
  {
    var blank := LevelRegs(0, 0, 0, 0, 0, 0, 0, 0, 0);
    State(MACHINE, seq(32, _ => 0), RESET_PC, 0, false, 0, 0,
          PmpState(seq(ENTRIES, _ => 0), seq(ENTRIES, _ => 0)),
          TrapState(0, 0, 0, blank.(isa := MISA), blank, blank), 0, mem,
          false, 0, 0, seq(CSR_COUNT, _ => 0))
  }

  // Decoded instructions

  datatype AmoOp = Swap | Add | Xor | And | Or | Min | Max | MinU | MaxU

  datatype CsrOp = ReadWrite | ReadSet | ReadClear

  /** The source of a CSR instruction: a register, or the five bits of its number. */
  datatype Operand = Register(r: Reg) | Immediate(r: Reg)

  /**
    * An instruction after decoding. Register-to-register arithmetic is represented by the value it
    * writes, and a taken branch by a jump that links into x0.
    */
  datatype Instr =
    | Compute(rd: Reg, value: Word)
    | Jump(rd: Reg, target: Word)
    | Load(rd: Reg, rs1: Reg, offset: int, len: nat, signed: bool)
    | Store(rs1: Reg, rs2: Reg, offset: int, len: nat)
    | LoadReserved(rd: Reg, rs1: Reg)
    | StoreConditional(rd: Reg, rs1: Reg, rs2: Reg)
    | Amo(op: AmoOp, rd: Reg, rs1: Reg, rs2: Reg)
    | CsrAccess(csrOp: CsrOp, rd: Reg, operand: Operand, address: CsrAddress)
    | Ecall
    | Mret
    | Sret
  {
    predicate Legal() {
      match this
      case Load(_, _, _, len, _) => Width(len)
      case Store(_, _, _, len) => Width(len)
      case _ => true
    }
  }

  /** Decoding: from the instruction word, the registers and the program counter. */
  type Decoder = (Word, seq<Word>, Word) -> Instr

  ghost predicate LegalDecoder(decode: Decoder) {
    forall w, x, pc :: decode(w, x, pc).Legal()
  }

  // Exceptions

  const ILLEGAL: Cause := 2
  const USER_ECALL: Cause := 8

  /** Only the first fault of a cycle is kept. */
  function Latch(s: State, f: Fault): State {
    if s.pending then s else s.(pending := true, cause := f.cause, tval := f.tval)
  }

  // Memory

  const MPRV: bv32 := 0x2_0000
  const SUM: bv32 := 0x4_0000
  const MXR: bv32 := 0x8_0000

  /** The privilege that an access is made with: MPRV lends data accesses the one in MPP. */
  function Effective(s: State, access: Access): Priv {
    if access != Fetch && IsSet(s.trap.status, MPRV) then Mpp(s.trap.status) else s.mode
  }

  function TheBus(s: State): Bus {
    Bus(s.pmp, s.mem)
  }

  /** An access through the MMU and the PMP unit: its physical address, or its first fault. */
  function CheckedAccess(s: State, access: Access, va: Word, len: nat): Result<Word, Fault>
    requires s.Valid()
  {
    var priv := Effective(s, access);
    match Translate(TheBus(s), s.satp, priv, va, access, IsSet(s.trap.status, SUM), IsSet(s.trap.status, MXR))
    case Failure(f) => Failure(f)
    case Success(pa) =>
      if Allowed(s.pmp, priv, pa, len, access) then Success(pa) else Failure(Fault(AccessFault(access), pa))
  }

  function Set(s: State, rd: Reg, v: Word): (r: State)
    requires s.Valid()
    ensures r.Valid()
  {
    s.(x := s.x[rd := v])
  }

  function SignExtend(v: Word, len: nat): Word {
    if len == 1 && v % 0x100 >= 0x80 then v % 0x100 + 0xFFFF_FF00
    else if len == 2 && v % 0x1_0000 >= 0x8000 then v % 0x1_0000 + 0xFFFF_0000
    else v
  }

  function DoLoad(s: State, rd: Reg, va: Word, len: nat, signed: bool): (r: State)
    requires s.Valid()
    ensures r.Valid()
  {
    match CheckedAccess(s, Read, va, len)
    case Failure(f) => Latch(s, f)
    case Success(pa) =>
      var v := ReadBytes(s.mem, pa, len);
      Set(s, rd, if signed then SignExtend(v, len) else v)
  }

  function DoStore(s: State, va: Word, len: nat, v: Word): (r: State)
    requires s.Valid()
    ensures r.Valid()
  {
    match CheckedAccess(s, Write, va, len)
    case Failure(f) => Latch(s, f)
    case Success(pa) => s.(mem := WriteBytes(s.mem, pa, len, v))
  }

  // Atomics

  function Signed(w: Word): int {
    if w < 0x8000_0000 then w else w - 0x1_0000_0000
  }

  /** What an AMO stores, given the old word in memory and the register operand. */
  function AmoResult(op: AmoOp, before: Word, src: Word): Word {
    match op
    case Swap => src
    case Add => Wrap(before + src)
    case Xor => Value(Bits(before) ^ Bits(src))
    case And => Value(Bits(before) & Bits(src))
    case Or => Value(Bits(before) | Bits(src))
    case Min => if Signed(before) < Signed(src) then before else src
    case Max => if Signed(before) > Signed(src) then before else src
    case MinU => if before < src then before else src
    case MaxU => if before > src then before else src
  }

  /** Load into rd, combine what rd then holds with the operand, store; the store is always tried. */
  function DoAmo(s: State, op: AmoOp, rd: Reg, rs1: Reg, rs2: Reg): (r: State)
    requires s.Valid()
    ensures r.Valid()
  {
    var address := s.x[rs1];
    var src := s.x[rs2];
    var loaded := DoLoad(s, rd, address, 4, false);
    DoStore(loaded, address, 4, AmoResult(op, loaded.x[rd], src))
  }

  function DoLoadReserved(s: State, rd: Reg, rs1: Reg): (r: State)
    requires s.Valid()
    ensures r.Valid()
  {
    DoLoad(s.(lrAddress := s.x[rs1], lrValid := true), rd, s.x[rs1], 4, false)
  }

  function DoStoreConditional(s: State, rd: Reg, rs1: Reg, rs2: Reg): (r: State)
    requires s.Valid()
    ensures r.Valid()
  {
    var done :=
      if s.lrValid && s.lrAddress == s.x[rs1] then Set(DoStore(s, s.x[rs1], 4, s.x[rs2]), rd, 0)
      else Set(s, rd, 1);
    done.(lrValid := false, lrAddress := 0)
  }

  // Control and status registers

  function CsrValue(s: State, target: Target, a: CsrAddress): bv32
    requires s.Valid() && target == Describe(a).target
  {
    match target
    case TrapRegister(level, reg) => ReadReg(s.trap, level, reg)
    case PmpCfg(i) => Bits(CfgWord(s.pmp, i))
    case PmpAddr(i) => Bits(s.pmp.addr[i])
    case Satp => Bits(s.satp)
    case Plain => Bits(s.csr[a])
  }

  function ReadCsr(s: State, a: CsrAddress): Option<bv32>
    requires s.Valid()
  {
    var d := Describe(a);
    if s.mode in d.readers then Some(CsrValue(s, d.target, a)) else None
  }

  /** Registers of other units take the value as it is; a plain value is masked here. */
  function PutCsr(s: State, d: Descriptor, a: CsrAddress, v: bv32): (r: State)
    requires s.Valid() && d == Describe(a)
    ensures r.Valid()
  {
    match d.target
    case TrapRegister(level, reg) => s.(trap := WriteReg(s.trap, level, reg, v))
    case PmpCfg(i) => s.(pmp := WriteCfg(s.pmp, s.mode, i, Value(v)))
    case PmpAddr(i) => s.(pmp := WriteAddr(s.pmp, s.mode, i, Value(v)))
    case Satp => s.(satp := Value(v))
    case Plain => s.(csr := s.csr[a := Value(v & d.mask)])
  }

  function WriteCsr(s: State, a: CsrAddress, v: bv32): (r: Option<State>)
    requires s.Valid()
    ensures r.Some? ==> r.value.Valid()
  {
    var d := Describe(a);
    if s.mode in d.writers then Some(PutCsr(s, d, a, v)) else None
  }

  function OperandValue(s: State, o: Operand): bv32
    requires s.Valid()
  {
    match o
    case Register(r) => Bits(s.x[r])
    case Immediate(r) => Bits(r)
  }

  /** CSRRW keeps the bits outside the mask, of the old value if it read one and else of zero. */
  function Replace(before: bv32, v: bv32, mask: bv32): bv32 {
    (before & !mask) | (v & mask)
  }

  function Combine(op: CsrOp, before: bv32, v: bv32, mask: bv32): bv32 {
    match op
    case ReadWrite => Replace(before, v, mask)
    case ReadSet => before | (v & mask)
    case ReadClear => before & !(v & mask)
  }

  function Visible(v: bv32, mask: bv32): bv32 {
    v & mask
  }

  /** CSRRW reads only if rd is not x0; CSRRS and CSRRC write only if their operand is not number 0. */
  function DoCsr(s: State, op: CsrOp, rd: Reg, o: Operand, a: CsrAddress): (r: State)
    requires s.Valid()
    ensures r.Valid()
  {
    var mask := Describe(a).mask;
    var v := OperandValue(s, o);
    var before := if op == ReadWrite && rd == 0 then Some(0 as bv32) else ReadCsr(s, a);
    if before.None? then Latch(s, Fault(ILLEGAL, 0))
    else
      var written := if op != ReadWrite && o.r == 0 then Some(s) else WriteCsr(s, a, Combine(op, before.value, v, mask));
      if written.None? then Latch(s, Fault(ILLEGAL, 0))
      else Set(written.value, rd, Value(Visible(before.value, mask)))
  }

  // Returns from traps

  /** MRET and SRET restore the status of the current mode and jump to the epc their name says. */
  function DoReturn(s: State, epc: Word): State {
    s.(mode := PreviousPrivilege(s.trap.status, s.mode),
       trap := s.trap.(status := LeaveStatus(s.trap.status, s.mode)),
       nextPc := epc)
  }

  // One instruction

  function Execute(s: State, i: Instr): (r: State)
    requires s.Valid()
    ensures r.Valid()
  {
    match i
    case Compute(rd, value) => Set(s, rd, value)
    case Jump(rd, target) => Set(s.(nextPc := target), rd, Wrap(s.pc + 4))
    case Load(rd, rs1, offset, len, signed) => DoLoad(s, rd, Wrap(s.x[rs1] + offset), len, signed)
    case Store(rs1, rs2, offset, len) => DoStore(s, Wrap(s.x[rs1] + offset), len, s.x[rs2])
    case LoadReserved(rd, rs1) => DoLoadReserved(s, rd, rs1)
    case StoreConditional(rd, rs1, rs2) => DoStoreConditional(s, rd, rs1, rs2)
    case Amo(op, rd, rs1, rs2) => DoAmo(s, op, rd, rs1, rs2)
    case CsrAccess(op, rd, o, a) => DoCsr(s, op, rd, o, a)
    case Ecall => Latch(s, Fault(USER_ECALL + s.mode, 0))
    case Mret => DoReturn(s, s.trap.m.epc)
    case Sret => DoReturn(s, s.trap.s.epc)
  }

  function HardwireZero(s: State): (r: State)
    requires s.Valid()
    ensures r.Valid()
  {
    Set(s, 0, 0)
  }

  const MCYCLE: CsrAddress := 0xB00
  const MINSTRET: CsrAddress := 0xB02
  const CYCLE: CsrAddress := 0xC00
  const TIME: CsrAddress := 0xC01
  const MCYCLEH: CsrAddress := 0xB80
  const MINSTRETH: CsrAddress := 0xB82
  const CYCLEH: CsrAddress := 0xC80
  const TIMEH: CsrAddress := 0xC81

  function Counters(csr: seq<Word>, cycle: Count): seq<Word>
    requires |csr| == CSR_COUNT
  {
    var lo := Wrap(cycle);
    var hi: Word := cycle / 0x1_0000_0000;
    csr[MCYCLE := lo][MINSTRET := lo][CYCLE := lo][TIME := lo]
       [MCYCLEH := hi][MINSTRETH := hi][CYCLEH := hi][TIMEH := hi]
  }

  /** The jump target 0 stands for "no jump". */
  function Advance(s: State): (r: State)
    requires s.Valid()
    ensures r.Valid()
  {
    var cycle: Count := (s.cycle + 1) % 0x1_0000_0000_0000_0000;
    s.(pc := if s.nextPc != 0 then s.nextPc else Wrap(s.pc + 4), cycle := cycle, csr := Counters(s.csr, cycle))
  }

  /** Fetch, decode and execute one instruction. */
  function Step(s: State, decode: Decoder): (r: State)
    requires s.Valid()
    ensures r.Valid()
  {
    var s0 := s.(nextPc := 0);
    match CheckedAccess(s0, Fetch, s.pc, 4)
    case Failure(f) => Latch(s0, f)
    case Success(pa) => HardwireZero(Execute(s0, decode(ReadBytes(s.mem, pa, 4), s.x, s.pc)))
  }

  function Run(s: State, decode: Decoder): (r: State)
    requires s.Valid()
    ensures r.Valid()
  {
    Advance(Step(s, decode))
  }

  // Traps

  function TakeTrap(s: State, level: Priv, interrupt: bool, cause: Cause): State
    requires level != RESERVED
  {
    s.(trap := Serve(s.trap, level, s.mode, interrupt, cause, s.pc, s.tval),
       pc := Regs(s.trap, level).tvec, mode := level)
  }

  /** The first interrupt from number `from` downwards that some level takes. */
  function FirstInterrupt(t: TrapState, mode: Priv, from: int): (hit: Option<(Cause, Priv)>)
    requires -1 <= from < 32
    ensures hit.Some? ==> hit.value.1 != RESERVED && hit.value.1 >= mode
    decreases from + 1
  {
    if from == -1 then None
    else
      match InterruptLevel(t, mode, from)
      case Some(level) => Some((from, level))
      case None => FirstInterrupt(t, mode, from - 1)
  }

  const LAST_INTERRUPT := 11

  /** A latched exception comes before every interrupt. */
  function PrepareInterrupts(s: State): State
    requires s.mode != RESERVED
  {
    if s.pending then
      TakeTrap(s, ExceptionLevel(s.trap, s.mode, s.cause), false, s.cause).(pending := false, cause := 0, tval := 0)
    else
      match FirstInterrupt(s.trap, s.mode, LAST_INTERRUPT)
      case None => s
      case Some(hit) => TakeTrap(s, hit.1, true, hit.0)
  }

  /** The interrupt lines of one cycle. */
  datatype Lines = Lines(ext: bool, tim: bool, sw: bool)

  /**
    * One turn of the emulator's loop. A hart that returned into the reserved mode has no
    * register set there: the emulator dereferences a null pointer and ends.
    */
  function Cycle(s: State, decode: Decoder, lines: Lines): State
    requires s.Valid()
  {
    var r := Run(s, decode);
    var q := r.(trap := SetPending(r.trap, lines.ext, lines.tim, lines.sw));
    if q.mode == RESERVED then q else PrepareInterrupts(q)
  }
}
