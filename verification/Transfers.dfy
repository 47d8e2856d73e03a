/** Loads and stores of every width, and the reservation of LR and SC. */
module Transfers {
  import opened Words
  import opened Mmu
  import opened Core
  import opened Protection
  import opened Privilege
  import opened Precise
  import Trap

  /** The number of values that `len` bytes can hold. */
  function Range(len: nat): nat {
    if len == 1 then 0x100 else if len == 2 then 0x1_0000 else 0x1_0000_0000
  }

  lemma StoredByte(m: Memory, a: Word, len: nat, v: Word, k: nat)
    requires k < len <= 4
    ensures WriteBytes(m, a, len, v)(Wrap(a + k)) == ByteOf(v, k)
  {
    hide ByteOf;
    assert Wrap(Wrap(a + k) - a) == k;
    Written(m, a, len, v, Wrap(a + k));
  }

  lemma TwoBytes(v: Word)
    ensures WordOf(ByteOf(v, 0), ByteOf(v, 1), 0, 0) == v % 0x1_0000
  {
    assert ByteOf(v, 1) == v / 0x100 % 0x100;
  }

  /** What was stored reads back, cut to its width. */
  lemma ReadBackWidth(m: Memory, a: Word, len: nat, v: Word)
    requires Width(len)
    ensures ReadBytes(WriteBytes(m, a, len, v), a, len) == v % Range(len)
  {
    StoredByte(m, a, len, v, 0);
    assert Wrap(a + 0) == a;
    if len == 4 {
      ReadBack(m, a, v);
    } else if len == 2 {
      StoredByte(m, a, 2, v, 1);
      TwoBytes(v);
      hide ByteOf, WordOf, WriteBytes;
    }
  }

  /** A sign-extended load gives the signed value that has the bytes. */
  lemma SignExtendMeaning(v: Word, len: nat)
    requires Width(len) && v < Range(len)
    ensures var x := Signed(SignExtend(v, len));
      0 - Range(len) <= 2 * x < Range(len) && (x == v || x == v - Range(len))
  {
  }

  /**
    * A load that follows a store to the same physical address gives back the stored value: its low
    * bytes, or for a signed load the signed number of that width that these bytes stand for.
    */
  lemma LoadAfterStore(s: State, va: Word, len: nat, v: Word, rd: Reg, signed: bool, pa: Word)
    requires s.Valid() && Width(len)
    requires CheckedAccess(s, Write, va, len) == Success(pa)
    requires CheckedAccess(DoStore(s, va, len, v), Read, va, len) == Success(pa)
    ensures var x := DoLoad(DoStore(s, va, len, v), rd, va, len, signed).x[rd];
      var low := v % Range(len);
      if signed then 2 * Signed(x) < Range(len) && (Signed(x) == low || Signed(x) == low - Range(len)) && 2 * Signed(x) >= 0 - Range(len)
      else x == low
  {
    hide CheckedAccess, ReadBytes, WriteBytes, SignExtend, Signed;
    ReadBackWidth(s.mem, pa, len, v);
    SignExtendMeaning(v % Range(len), len);
  }

  // Reservations

  function Reservation(s: State): Option<Word> {
    if s.lrValid then Some(s.lrAddress) else None
  }

  /** LR reserves its address, SC gives the reservation up, and nothing else touches it. */
  function ReservationAfter(s: State, i: Option<Instr>): Option<Word>
    requires s.Valid()
  {
    match i
    case Some(LoadReserved(_, rs1)) => Some(s.x[rs1])
    case Some(StoreConditional(_, _, _)) => None
    case _ => Reservation(s)
  }

  lemma ExecuteReserves(s: State, i: Instr)
    requires s.Valid()
    ensures Reservation(Execute(s, i)) == ReservationAfter(s, Some(i))
  {
    hide DoLoad, DoStore, DoAmo, DoCsr, DoReturn, Wrap;
    match i
    case Load(rd, rs1, offset, len, signed) => LoadFrame(s, rd, Wrap(s.x[rs1] + offset), len, signed);
    case Store(rs1, rs2, offset, len) => StoreFrame(s, Wrap(s.x[rs1] + offset), len, s.x[rs2]);
    case LoadReserved(rd, rs1) => LoadFrame(s.(lrAddress := s.x[rs1], lrValid := true), rd, s.x[rs1], 4, false);
    case Amo(op, rd, rs1, rs2) => AmoFrame(s, op, rd, rs1, rs2);
    case CsrAccess(op, rd, o, a) => CsrFrame(s, op, rd, o, a);
    case Mret => ReturnFrame(s, s.trap.m.epc);
    case Sret => ReturnFrame(s, s.trap.s.epc);
    case _ =>
  }

  lemma CycleReserves(s: State, t: Protection.Turn)
    requires s.Valid()
    ensures Reservation(Cycle(s, t.decode, t.lines)) == ReservationAfter(s, Executed(s, t.decode))
  {
    hide Execute, CheckedAccess, ReadBytes, Trap.SetPending, PrepareInterrupts, Counters, Wrap;
    var s0 := s.(nextPc := 0);
    var r := Run(s, t.decode);
    var i := Executed(s, t.decode);
    if i.Some? {
      ExecuteReserves(s0, i.value);
    }
    assert Reservation(r) == ReservationAfter(s, i);
    if r.mode != RESERVED {
      PrepareFrame(r, t.lines);
    }
  }

  /** The run executes neither LR nor SC. */
  ghost predicate NoReservationBy(s: State, turns: seq<Protection.Turn>)
    requires s.Valid()
    decreases turns
  {
    turns == [] || s.mode == RESERVED ||
    (CycleIsValid(s, turns[0]);
     var i := Executed(s, turns[0].decode);
     && !(i.Some? && (i.value.LoadReserved? || i.value.StoreConditional?))
     && NoReservationBy(Cycle(s, turns[0].decode, turns[0].lines), turns[1..]))
  }

  /** Only LR and SC change the reservation: traps, returns and stores of every mode leave it alone. */
  lemma {:induction false} ReservationIsKept(s: State, turns: seq<Protection.Turn>)
    requires s.Valid() && NoReservationBy(s, turns)
    ensures Reservation(RunAll(s, turns)) == Reservation(s)
    decreases turns
  {
    hide Cycle, Executed, Reservation;
    assert turns != [] && s.mode != RESERVED ==>
      ReservationAfter(s, Executed(s, turns[0].decode)) == Reservation(s);
    if turns != [] && s.mode != RESERVED {
      CycleIsValid(s, turns[0]);
      CycleReserves(s, turns[0]);
      ReservationIsKept(Cycle(s, turns[0].decode, turns[0].lines), turns[1..]);
    }
  }

  /**
    * SC stores exactly if the reservation is for its address and the store is not refused; it
    * reports success for a matching reservation even when the store faults.
    */
  lemma StoreConditionalNeedsReservation(s: State, rd: Reg, rs1: Reg, rs2: Reg)
    requires s.Valid()
    ensures var r, access := Execute(s, StoreConditional(rd, rs1, rs2)), CheckedAccess(s, Write, s.x[rs1], 4);
      && r.x == s.x[rd := if Reservation(s) == Some(s.x[rs1]) then 0 else 1]
      && r.mem == (if Reservation(s) == Some(s.x[rs1]) && access.Success? then WriteBytes(s.mem, access.value, 4, s.x[rs2]) else s.mem)
      && Reservation(r).None?
  {
    hide CheckedAccess, WriteBytes;
  }
}
