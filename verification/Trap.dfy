/** Trap registers and their transitions (src/core/trap/trap.c). */
module Trap {
  import opened Words

  /** The registers that every privilege level has for itself. */
  datatype LevelRegs = LevelRegs(isa: Word, edeleg: bv32, ideleg: bv32, tvec: Word, counteren: Word,
                                 scratch: Word, epc: Word, cause: Word, tval: Word)

  /** Status, enable and pending bits are shared by all levels; the rest exists per level. */
  datatype TrapState = TrapState(status: bv32, ie: bv32, ip: bv32, m: LevelRegs, s: LevelRegs, u: LevelRegs)

  function Regs(t: TrapState, level: Priv): LevelRegs
    requires level != RESERVED
  {
    if level == MACHINE then t.m else if level == SUPERVISOR then t.s else t.u
  }

  function SetRegs(t: TrapState, level: Priv, r: LevelRegs): TrapState
    requires level != RESERVED
  {
    if level == MACHINE then t.(m := r) else if level == SUPERVISOR then t.(s := r) else t.(u := r)
  }

  // Status bits

  const MPP: bv32 := 11
  const SPP: bv32 := 8

  /** The xIE bit of a level: bit `level` of the status register. */
  function IeBit(level: Priv): bv32 {
    if level == 0 then 1 else if level == 1 then 2 else if level == 2 then 4 else 8
  }

  /** The xPIE bit of a level: four positions above its xIE bit. */
  function PieBit(level: Priv): bv32 {
    if level == 0 then 0x10 else if level == 1 then 0x20 else if level == 2 then 0x40 else 0x80
  }

  function PrivBits(p: Priv): bv32 {
    if p == 0 then 0 else if p == 1 then 1 else if p == 2 then 2 else 3
  }

  function PrivOf(b: bv32): Priv {
    if b == 0 then 0 else if b == 1 then 1 else if b == 2 then 2 else 3
  }

  function Mpp(status: bv32): Priv {
    PrivOf((status >> MPP) & 3)
  }

  function Spp(status: bv32): Priv {
    PrivOf((status >> SPP) & 1)
  }

  predicate IsSet(w: bv32, mask: bv32) {
    w & mask != 0
  }

  function Assign(w: bv32, mask: bv32, b: bool): bv32 {
    (w & !mask) | (if b then mask else 0)
  }

  function Clear(w: bv32, mask: bv32): bv32 {
    w & !mask
  }

  /** The field `mask` at bit `position` replaced by the low bits of `value`. */
  function AssignField(w: bv32, position: bv32, value: bv32, mask: bv32): bv32
    requires position <= 31
  {
    (w & !(mask << position)) | ((value & mask) << position)
  }

  /** The bit of an exception or interrupt cause in the delegation, enable and pending registers. */
  function CauseBit(cause: Cause): bv32
  {
    (1 as bv32) << cause
  }

  // Pending interrupts

  const MSI := 3
  const MTI := 7
  const SEI := 9
  const MEI := 11

  /** A pending bit follows its line while the interrupt is enabled. */
  function Follow(ie: bv32, ip: bv32, irq: Cause, line: bool): bv32
  {
    if IsSet(ie, CauseBit(irq)) then Assign(ip, CauseBit(irq), line) else ip
  }

  /** Both external bits have the same line. */
  function PendingBits(ie: bv32, ip: bv32, ext: bool, tim: bool, sw: bool): bv32 {
    Follow(ie, Follow(ie, Follow(ie, Follow(ie, ip, MEI, ext), SEI, ext), MTI, tim), MSI, sw)
  }

  function SetPending(t: TrapState, ext: bool, tim: bool, sw: bool): TrapState {
    t.(ip := PendingBits(t.ie, t.ip, ext, tim, sw))
  }

  // Which level serves

  /** The highest level from `curr` up that does not delegate the cause further down. */
  function Keeper(t: TrapState, curr: Priv, bit: bv32): (k: Option<Priv>)
    ensures k.Some? ==> k.value != RESERVED && k.value >= curr
  {
    if !IsSet(t.m.ideleg, bit) then Some(MACHINE)
    else if curr <= SUPERVISOR && !IsSet(t.s.ideleg, bit) then Some(SUPERVISOR)
    else if curr == USER && !IsSet(t.u.ideleg, bit) then Some(USER)
    else None
  }

  /** Some xIE bit of the levels `low` to `high` is set. */
  predicate AnyEnabled(status: bv32, low: Priv, high: Priv) {
    exists p: Priv :: low <= p <= high && IsSet(status, IeBit(p))
  }

  /** The level that takes interrupt `irq` while the hart runs at `curr`, if one does. */
  function InterruptLevel(t: TrapState, curr: Priv, irq: Cause): (k: Option<Priv>)
    ensures k.Some? ==> k.value != RESERVED && k.value >= curr
  {
    var bit := CauseBit(irq);
    var keeper := Keeper(t, curr, bit);
    if IsSet(t.ip, bit) && IsSet(t.ie, bit) && keeper.Some? && AnyEnabled(t.status, curr, keeper.value)
    then keeper else None
  }

  /** The level that takes an exception. */
  function ExceptionLevel(t: TrapState, curr: Priv, cause: Cause): (level: Priv)
    ensures level != RESERVED
  {
    if curr == MACHINE || !IsSet(t.m.edeleg, CauseBit(cause)) then MACHINE
    else if curr >= SUPERVISOR || !IsSet(t.s.edeleg, CauseBit(cause)) then SUPERVISOR
    else USER
  }

  // Entering and leaving a trap

  function SavePrivilege(status: bv32, serving: Priv, previous: Priv): bv32 {
    if serving == MACHINE then AssignField(status, MPP, PrivBits(previous), 3)
    else if serving == SUPERVISOR then AssignField(status, SPP, PrivBits(previous), 1)
    else status
  }

  /** xPP := previous mode, xPIE := xIE, xIE := 0. */
  function EnterStatus(status: bv32, serving: Priv, previous: Priv): bv32 {
    var saved := SavePrivilege(status, serving, previous);
    Clear(Assign(saved, PieBit(serving), IsSet(saved, IeBit(serving))), IeBit(serving))
  }

  /** Taking a trap at `serving`; an exception steps back to the instruction that caused it. */
  function Serve(t: TrapState, serving: Priv, previous: Priv, interrupt: bool, cause: Cause, pc: Word, tval: Word): TrapState
    requires serving != RESERVED
  {
    var r := Regs(t, serving).(epc := if interrupt then pc else Wrap(pc - 4),
                               cause := if interrupt then 0x8000_0000 + cause else cause,
                               tval := tval);
    SetRegs(t, serving, r).(status := EnterStatus(t.status, serving, previous))
  }

  /** xIE := xPIE, xPIE := 0; xPP stays. */
  function LeaveStatus(status: bv32, level: Priv): bv32 {
    Clear(Assign(status, IeBit(level), IsSet(status, PieBit(level))), PieBit(level))
  }

  function PreviousPrivilege(status: bv32, level: Priv): Priv {
    if level == MACHINE then Mpp(status) else if level == SUPERVISOR then Spp(status) else USER
  }

  // CSR access to the registers

  datatype TrapReg = Status | Isa | Edeleg | Ideleg | Ie | Tvec | Counteren | Scratch | Epc | Cause | Tval | Ip

  /** The registers of one level; status, ie and ip are not among them. */
  function Field(r: LevelRegs, reg: TrapReg): bv32 {
    match reg
    case Edeleg => r.edeleg
    case Ideleg => r.ideleg
    case Isa => Bits(r.isa)
    case Tvec => Bits(r.tvec)
    case Counteren => Bits(r.counteren)
    case Scratch => Bits(r.scratch)
    case Epc => Bits(r.epc)
    case Cause => Bits(r.cause)
    case Tval => Bits(r.tval)
    case _ => 0
  }

  function WithField(r: LevelRegs, reg: TrapReg, v: bv32): LevelRegs {
    match reg
    case Edeleg => r.(edeleg := v)
    case Ideleg => r.(ideleg := v)
    case Isa => r.(isa := Value(v))
    case Tvec => r.(tvec := Value(v))
    case Counteren => r.(counteren := Value(v))
    case Scratch => r.(scratch := Value(v))
    case Epc => r.(epc := Value(v))
    case Cause => r.(cause := Value(v))
    case Tval => r.(tval := Value(v))
    case _ => r
  }

  /** The shared registers read the same at every level. */
  function ReadReg(t: TrapState, level: Priv, reg: TrapReg): bv32
    requires level != RESERVED
  {
    match reg
    case Status => t.status
    case Ie => t.ie
    case Ip => t.ip
    case _ => Field(Regs(t, level), reg)
  }

  function WriteReg(t: TrapState, level: Priv, reg: TrapReg, v: bv32): TrapState
    requires level != RESERVED
  {
    match reg
    case Status => t.(status := v)
    case Ie => t.(ie := v)
    case Ip => t.(ip := v)
    case _ => SetRegs(t, level, WithField(Regs(t, level), reg, v))
  }

  // The unit itself

  class LevelFile {
    var isa: Word
    var edeleg: bv32
    var ideleg: bv32
    var tvec: Word
    var counteren: Word
    var scratch: Word
    var epc: Word
    var cause: Word
    var tval: Word

    ghost function State(): LevelRegs
      reads this
    {
      LevelRegs(isa, edeleg, ideleg, tvec, counteren, scratch, epc, cause, tval)
    }

    constructor (isa: Word)
      ensures State() == LevelRegs(isa, 0, 0, 0, 0, 0, 0, 0, 0)
    {
      this.isa := isa;
      edeleg, ideleg := 0, 0;
      tvec, counteren, scratch, epc, cause, tval := 0, 0, 0, 0, 0, 0;
    }

    method Put(reg: TrapReg, v: bv32)
      modifies this
      ensures State() == WithField(old(State()), reg, v)
    {
      hide Value;
      match reg
      case Edeleg => edeleg := v;
      case Ideleg => ideleg := v;
      case Isa => isa := Value(v);
      case Tvec => tvec := Value(v);
      case Counteren => counteren := Value(v);
      case Scratch => scratch := Value(v);
      case Epc => epc := Value(v);
      case Cause => cause := Value(v);
      case Tval => tval := Value(v);
      case _ =>
    }

    method Get(reg: TrapReg) returns (v: bv32)
      ensures v == Field(State(), reg)
    {
      hide Bits;
      match reg
      case Edeleg => v := edeleg;
      case Ideleg => v := ideleg;
      case Isa => v := Bits(isa);
      case Tvec => v := Bits(tvec);
      case Counteren => v := Bits(counteren);
      case Scratch => v := Bits(scratch);
      case Epc => v := Bits(epc);
      case Cause => v := Bits(cause);
      case Tval => v := Bits(tval);
      case _ => v := 0;
    }
  }

  class Unit {
    var status: bv32
    var ie: bv32
    var ip: bv32
    const m: LevelFile
    const s: LevelFile
    const u: LevelFile

    ghost predicate Valid()
    {
      m != s && s != u && m != u
    }

    ghost function State(): TrapState
      reads this, m, s, u
    {
      TrapState(status, ie, ip, m.State(), s.State(), u.State())
    }

    constructor (isa: Word)
      ensures Valid() && fresh(m) && fresh(s) && fresh(u)
      ensures var blank := LevelRegs(0, 0, 0, 0, 0, 0, 0, 0, 0);
        State() == TrapState(0, 0, 0, blank.(isa := isa), blank, blank)
    {
      status, ie, ip := 0, 0, 0;
      m := new LevelFile(isa);
      s := new LevelFile(0);
      u := new LevelFile(0);
    }

    function GetPrivRegs(level: Priv): (r: LevelFile)
      requires level != RESERVED
      ensures r == m || r == s || r == u
    {
      if level == MACHINE then m else if level == SUPERVISOR then s else u
    }

    method Write(level: Priv, reg: TrapReg, v: bv32)
      requires Valid() && level != RESERVED
      modifies this, m, s, u
      ensures State() == WriteReg(old(State()), level, reg, v)
    {
      hide WithField, LevelFile.State;
      match reg
      case Status => status := v;
      case Ie => ie := v;
      case Ip => ip := v;
      case _ =>
        var r := GetPrivRegs(level);
        r.Put(reg, v);
    }

    method Read(level: Priv, reg: TrapReg) returns (v: bv32)
      requires Valid() && level != RESERVED
      ensures v == ReadReg(State(), level, reg)
    {
      hide Field, LevelFile.State;
      match reg
      case Status => v := status;
      case Ie => v := ie;
      case Ip => v := ip;
      case _ =>
        var r := GetPrivRegs(level);
        v := r.Get(reg);
    }

    method FollowLine(irq: Cause, line: bool)
      modifies this`ip
      ensures ip == Follow(ie, old(ip), irq, line)
    {
      hide Assign, IsSet, CauseBit;
      if IsSet(ie, CauseBit(irq)) {
        ip := Assign(ip, CauseBit(irq), line);
      }
    }

    method SetPendingBits(ext: bool, tim: bool, sw: bool)
      requires Valid()
      modifies this`ip
      ensures State() == SetPending(old(State()), ext, tim, sw)
    {
      hide Follow;
      FollowLine(MEI, ext);
      FollowLine(SEI, ext);
      FollowLine(MTI, tim);
      FollowLine(MSI, sw);
    }

    /** The loop over the delegation registers: the highest level that keeps the interrupt, or the one below `curr`. */
    method DelegationLevel(curr: Priv, bit: bv32) returns (level: int)
      requires Valid() && curr != RESERVED
      ensures curr - 1 <= level <= MACHINE
      ensures Keeper(State(), curr, bit) == if level >= curr then Some(level) else None
    {
      hide IsSet;
      level := MACHINE;
      while level >= curr
        invariant curr - 1 <= level <= MACHINE
        invariant level < MACHINE ==> IsSet(m.ideleg, bit)
        invariant level < SUPERVISOR ==> IsSet(s.ideleg, bit)
        invariant level < USER ==> IsSet(u.ideleg, bit)
      {
        if level != RESERVED {
          var x := GetPrivRegs(level);
          if !IsSet(x.ideleg, bit) {
            break;
          }
        }
        level := level - 1;
      }
    }

    method CheckInterruptPending(curr: Priv, irq: Cause) returns (serving: Option<Priv>)
      requires Valid() && curr != RESERVED
      ensures serving == InterruptLevel(State(), curr, irq)
    {
      hide CauseBit, IsSet, Keeper, AnyEnabled, EnabledFrom, EnabledUpTo;
      var bit := CauseBit(irq);
      if !IsSet(ip, bit) || !IsSet(ie, bit) {
        return None;
      }
      var level := DelegationLevel(curr, bit);
      MaskTrick(status, curr, level);
      if EnabledFrom(curr) & (status & 0xF) & EnabledUpTo(level) != 0 {
        return Some(level);
      }
      return None;
    }

    method CheckExceptionDelegation(curr: Priv, cause: Cause) returns (level: Priv)
      requires Valid()
      ensures level == ExceptionLevel(State(), curr, cause)
    {
      hide CauseBit;
      var index: int := MACHINE;
      while index >= USER
        invariant -1 <= index <= MACHINE
        invariant index < MACHINE ==> IsSet(m.edeleg, CauseBit(cause)) && curr < MACHINE
        invariant index < SUPERVISOR ==> IsSet(s.edeleg, CauseBit(cause)) && curr < SUPERVISOR
        invariant index >= USER
      {
        if index != RESERVED {
          var x := GetPrivRegs(index);
          if !IsSet(x.edeleg, CauseBit(cause)) {
            break;
          }
          if curr >= index {
            break;
          }
        }
        index := index - 1;
      }
      level := index;
    }

    method ServeInterrupt(serving: Priv, previous: Priv, interrupt: bool, cause: Cause, pc: Word, tval: Word) returns (target: Word)
      requires Valid() && serving != RESERVED
      modifies this`status, m, s, u
      ensures State() == Serve(old(State()), serving, previous, interrupt, cause, pc, tval)
      ensures target == Regs(old(State()), serving).tvec
    {
      hide Assign, AssignField, Clear, IsSet, PieBit, IeBit, PrivBits;
      var x := GetPrivRegs(serving);
      x.epc := if interrupt then pc else Wrap(pc - 4);
      x.cause := if interrupt then 0x8000_0000 + cause else cause;
      if serving == MACHINE {
        status := AssignField(status, MPP, PrivBits(previous), 3);
      } else if serving == SUPERVISOR {
        status := AssignField(status, SPP, PrivBits(previous), 1);
      }
      var enabled := IsSet(status, IeBit(serving));
      status := Assign(status, PieBit(serving), enabled);
      status := Clear(status, IeBit(serving));
      x.tval := tval;
      target := x.tvec;
    }

    method RestoreIrqSettings(level: Priv) returns (previous: Priv)
      requires Valid()
      modifies this`status
      ensures State() == old(State()).(status := LeaveStatus(old(status), level))
      ensures previous == PreviousPrivilege(old(status), level)
    {
      hide Assign, Clear, IsSet, PieBit, IeBit, Mpp, Spp;
      previous := USER;
      if level == MACHINE {
        previous := Mpp(status);
      } else if level == SUPERVISOR {
        previous := Spp(status);
      }
      var pie := IsSet(status, PieBit(level));
      status := Assign(status, IeBit(level), pie);
      status := Clear(status, PieBit(level));
    }
  }

  /** The mask 0xF0 shifted down to the xIE bits of level `curr` and above. */
  function EnabledFrom(curr: Priv): bv32 {
    (0xF0 as bv32) >> (4 - curr)
  }

  /** The mask 0xF shifted down to the xIE bits of the levels up to `level`. */
  function EnabledUpTo(level: int): bv32
    requires -1 <= level <= MACHINE
  {
    (0xF as bv32) >> (3 - level)
  }

  lemma MaskTrick(status: bv32, curr: Priv, level: int)
    requires curr - 1 <= level <= MACHINE
    ensures EnabledFrom(curr) & (status & 0xF) & EnabledUpTo(level) != 0
        <==> level >= curr && AnyEnabled(status, curr, level)
  {
    AnyEnabledCases(status, curr, level);
    hide AnyEnabled;
  }

  lemma AnyEnabledCases(status: bv32, curr: Priv, level: int)
    requires curr - 1 <= level <= MACHINE
    ensures level >= curr ==> (AnyEnabled(status, curr, level) <==>
      (curr <= 0 && status & 1 != 0) || (curr <= 1 <= level && status & 2 != 0)
      || (curr <= 2 <= level && status & 4 != 0) || (3 <= level && status & 8 != 0))
  {
    assert IeBit(0) == 1 && IeBit(1) == 2 && IeBit(2) == 4 && IeBit(3) == 8;
    assert IsSet(status, IeBit(0)) <==> status & 1 != 0;
    assert IsSet(status, IeBit(1)) <==> status & 2 != 0;
    assert IsSet(status, IeBit(2)) <==> status & 4 != 0;
    assert IsSet(status, IeBit(3)) <==> status & 8 != 0;
  }
}
