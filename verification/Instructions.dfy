/** What loads, stores, jumps and the program counter do, byte by byte and register by register. */
module Instructions {
  import opened Words
  import opened Mmu
  import opened Trap
  import opened TrapProofs
  import opened Core
  import opened Protection
  import opened Privilege
  import opened Precise

  // Memory, byte by byte

  /** The low bytes of `v` from `pa` on, least significant first. */
  predicate Holds(m: Memory, pa: Word, len: nat, v: Word) {
    && m(pa) == v % 0x100
    && (len >= 2 ==> m(Wrap(pa + 1)) == v / 0x100 % 0x100)
    && (len == 4 ==> m(Wrap(pa + 2)) == v / 0x1_0000 % 0x100 && m(Wrap(pa + 3)) == v / 0x100_0000)
  }

  /** `b` is none of the `len` bytes from `pa` on. */
  predicate Beside(b: Word, pa: Word, len: nat) {
    && b != pa && (len >= 2 ==> b != Wrap(pa + 1))
    && (len == 4 ==> b != Wrap(pa + 2) && b != Wrap(pa + 3))
  }

  /** The number that the bytes from `pa` on stand for. */
  function Number(m: Memory, pa: Word, len: nat): nat {
    if len == 1 then m(pa)
    else if len == 2 then m(pa) + 0x100 * m(Wrap(pa + 1))
    else m(pa) + 0x100 * m(Wrap(pa + 1)) + 0x1_0000 * m(Wrap(pa + 2)) + 0x100_0000 * m(Wrap(pa + 3))
  }

  /** A loaded number in a register: a negative one of fewer than four bytes gets ones in front. */
  function Extended(v: nat, len: nat, signed: bool): nat {
    if signed && len == 1 && v >= 0x80 then v + 0xFFFF_FF00
    else if signed && len == 2 && v >= 0x8000 then v + 0xFFFF_0000
    else v
  }

  lemma WrittenBytes(m: Memory, pa: Word, len: nat, v: Word)
    requires Width(len)
    ensures Holds(WriteBytes(m, pa, len, v), pa, len, v)
    ensures forall b: Word :: Beside(b, pa, len) ==> WriteBytes(m, pa, len, v)(b) == m(b)
  {
    BytePositions(v);
    OneByte(m, pa, len, v, 0);
    if len >= 2 {
      OneByte(m, pa, len, v, 1);
    }
    if len == 4 {
      OneByte(m, pa, len, v, 2);
      OneByte(m, pa, len, v, 3);
    }
    assert Wrap(pa + 0) == pa;
    forall b: Word | Beside(b, pa, len)
      ensures WriteBytes(m, pa, len, v)(b) == m(b)
    {
      AccessBytes(b, pa);
      Written(m, pa, len, v, b);
    }
  }

  lemma OneByte(m: Memory, pa: Word, len: nat, v: Word, k: nat)
    requires k < len <= 4
    ensures WriteBytes(m, pa, len, v)(Wrap(pa + k)) == ByteOf(v, k)
  {
    hide ByteOf;
    assert Wrap(Wrap(pa + k) - pa) == k;
    Written(m, pa, len, v, Wrap(pa + k));
  }

  lemma ReadNumber(m: Memory, pa: Word, len: nat)
    requires Width(len)
    ensures ReadBytes(m, pa, len) == Number(m, pa, len)
    ensures Number(m, pa, 1) < 0x100 && Number(m, pa, 2) < 0x1_0000
  {
    LittleEndian(m, pa);
    hide ReadBytes;
  }

  lemma ExtendIsSpec(v: Word, len: nat)
    requires Width(len) && (len == 1 ==> v < 0x100) && (len == 2 ==> v < 0x1_0000)
    ensures SignExtend(v, len) == Extended(v, len, true)
  {
  }

  // Instructions

  /** The address that a load or store computes. */
  function Target(s: State, rs1: Reg, offset: int): Word
    requires s.Valid()
  {
    (s.x[rs1] + offset) % 0x1_0000_0000
  }

  /** A store that is not refused puts the bytes of rs2 at the physical address of rs1 plus offset, and nothing else. */
  lemma StoreStores(s: State, rs1: Reg, rs2: Reg, offset: int, len: nat, pa: Word)
    requires s.Valid() && Width(len) && CheckedAccess(s, Write, Target(s, rs1, offset), len) == Success(pa)
    ensures var r := Execute(s, Store(rs1, rs2, offset, len));
      && Holds(r.mem, pa, len, s.x[rs2])
      && (forall b: Word :: Beside(b, pa, len) ==> r.mem(b) == s.mem(b))
      && r == s.(mem := r.mem)
  {
    hide CheckedAccess, WriteBytes, Holds, Beside;
    WrittenBytes(s.mem, pa, len, s.x[rs2]);
  }

  /** A load that is not refused puts the number at that address into rd, extended as it says, and changes nothing else. */
  lemma LoadLoads(s: State, rd: Reg, rs1: Reg, offset: int, len: nat, signed: bool, pa: Word)
    requires s.Valid() && Width(len) && CheckedAccess(s, Read, Target(s, rs1, offset), len) == Success(pa)
    ensures var r := Execute(s, Load(rd, rs1, offset, len, signed));
      && r.x[rd] == Extended(Number(s.mem, pa, len), len, signed)
      && (forall k: Reg :: k != rd ==> r.x[k] == s.x[k])
      && r == s.(x := r.x)
  {
    hide CheckedAccess, ReadBytes, SignExtend, Number, Extended;
    ReadNumber(s.mem, pa, len);
    ExtendIsSpec(ReadBytes(s.mem, pa, len), len);
    Unextended(Number(s.mem, pa, len), len);
  }

  lemma Unextended(v: nat, len: nat)
    ensures Extended(v, len, false) == v
  {
  }

  /** Storing a register and loading it back, by whole instructions that use the same physical address. */
  lemma StoreThenLoad(s: State, rd: Reg, rs1: Reg, rs2: Reg, offset: int, len: nat, signed: bool, pa: Word)
    requires s.Valid() && Width(len) && CheckedAccess(s, Write, Target(s, rs1, offset), len) == Success(pa)
    requires var r := Execute(s, Store(rs1, rs2, offset, len)); CheckedAccess(r, Read, Target(s, rs1, offset), len) == Success(pa)
    ensures var r := Execute(s, Store(rs1, rs2, offset, len));
      Execute(r, Load(rd, rs1, offset, len, signed)).x[rd] == Extended(LowPart(s.x[rs2], len), len, signed)
  {
    hide Execute, CheckedAccess, Extended, Number, Holds, Beside, LowPart;
    var r := Execute(s, Store(rs1, rs2, offset, len));
    StoreStores(s, rs1, rs2, offset, len, pa);
    LoadLoads(r, rd, rs1, offset, len, signed, pa);
    HeldNumber(r.mem, pa, len, s.x[rs2]);
  }

  function LowPart(v: Word, len: nat): nat {
    if len == 4 then v else if len == 2 then v % 0x1_0000 else v % 0x100
  }

  lemma FourBytes(v: Word)
    ensures v == v % 0x100 + 0x100 * (v / 0x100 % 0x100) + 0x1_0000 * (v / 0x1_0000 % 0x100) + 0x100_0000 * (v / 0x100_0000)
    ensures v % 0x1_0000 == v % 0x100 + 0x100 * (v / 0x100 % 0x100)
  {
    BytesOfWord(v);
    BytePositions(v);
    hide ByteOf;
  }

  lemma HeldNumber(m: Memory, pa: Word, len: nat, v: Word)
    requires Width(len) && Holds(m, pa, len, v)
    ensures Number(m, pa, len) == LowPart(v, len)
  {
    hide Wrap;
    FourBytes(v);
  }

  /** A jump goes to its target and leaves the address behind it in rd; arithmetic writes its value. */
  lemma JumpLinks(s: State, rd: Reg, target: Word, value: Word)
    requires s.Valid()
    ensures var r := Execute(s, Jump(rd, target));
      r == s.(nextPc := target, x := s.x[rd := (s.pc + 4) % 0x1_0000_0000])
    ensures Execute(s, Compute(rd, value)) == s.(x := s.x[rd := value])
  {
  }

  // The program counter

  /** Only jumps and returns ask for a next pc. */
  lemma NextPcOf(s: State, i: Instr)
    requires s.Valid() && !i.Jump? && !i.Mret? && !i.Sret?
    ensures Execute(s, i).nextPc == s.nextPc && Execute(s, i).pc == s.pc
  {
    hide DoLoad, DoStore, DoLoadReserved, DoStoreConditional, DoAmo, DoCsr, Wrap;
    match i
    case Load(rd, rs1, offset, len, signed) => LoadFrame(s, rd, Wrap(s.x[rs1] + offset), len, signed);
    case Store(rs1, rs2, offset, len) => StoreFrame(s, Wrap(s.x[rs1] + offset), len, s.x[rs2]);
    case LoadReserved(rd, rs1) =>
      LoadReservedIs(s, rd, rs1);
      LoadFrame(s.(lrAddress := s.x[rs1], lrValid := true), rd, s.x[rs1], 4, false);
    case StoreConditional(rd, rs1, rs2) => StoreConditionalFrame(s, rd, rs1, rs2);
    case Amo(op, rd, rs1, rs2) => AmoFrame(s, op, rd, rs1, rs2);
    case CsrAccess(op, rd, o, a) => CsrFrame(s, op, rd, o, a);
    case _ =>
  }

  /** After any other instruction, and after a fetch that failed, the pc has moved on by four; x0 is 0. */
  lemma PcMovesOn(s: State, t: Protection.Turn)
    requires s.Valid()
    ensures var i, q := Executed(s, t.decode), BeforeTraps(s, t);
      && (i.None? || !(i.value.Jump? || i.value.Mret? || i.value.Sret?) ==> q.pc == (s.pc + 4) % 0x1_0000_0000)
      && (i.Some? ==> q.x[0] == 0)
  {
    hide Execute, CheckedAccess, ReadBytes, SetPending, Counters;
    var s0 := s.(nextPc := 0);
    var i := Executed(s, t.decode);
    if i.Some? && !(i.value.Jump? || i.value.Mret? || i.value.Sret?) {
      NextPcOf(s0, i.value);
    }
  }
}
