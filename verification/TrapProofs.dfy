/** Delegation is exact, and nested traps unwind in last-in first-out order. */
module TrapProofs {
  import opened Words
  import opened Trap
  import opened StatusBits

  predicate IsLevel(p: Priv) {
    p != RESERVED
  }

  // Exceptions

  predicate Delegates(t: TrapState, level: Priv, cause: Cause)
    requires IsLevel(level)
  {
    BitAt(Regs(t, level).edeleg, cause)
  }

  /**
    * The level that serves an exception is the only one that is at least the current mode, lies
    * below delegating levels only, and either keeps the cause or is the current mode itself
    * (user mode, the lowest, has nobody to delegate to).
    */
  lemma ExceptionLevelIsExact(t: TrapState, curr: Priv, cause: Cause, level: Priv)
    requires IsLevel(curr) && IsLevel(level)
    ensures level == ExceptionLevel(t, curr, cause)
        <==> && level >= curr
             && (forall p: Priv :: IsLevel(p) && p > level ==> Delegates(t, p, cause))
             && (level == curr || level == USER || !Delegates(t, level, cause))
  {
    hide CauseBit, IsSet, BitAt;
    CausePositions(t.m.edeleg, cause);
    CausePositions(t.s.edeleg, cause);
    assert Delegates(t, MACHINE, cause) <==> IsSet(t.m.edeleg, CauseBit(cause));
    assert Delegates(t, SUPERVISOR, cause) <==> IsSet(t.s.edeleg, CauseBit(cause));
    assert IsLevel(MACHINE) && IsLevel(SUPERVISOR) && IsLevel(USER);
  }

  // Interrupts

  predicate Passes(t: TrapState, level: Priv, irq: Cause)
    requires IsLevel(level)
  {
    BitAt(Regs(t, level).ideleg, irq)
  }

  predicate Raised(t: TrapState, irq: Cause)
  {
    BitAt(t.ip, irq) && BitAt(t.ie, irq)
  }

  /** `level` is the highest level that keeps interrupt `irq` to itself. */
  predicate Keeps(t: TrapState, level: Priv, irq: Cause)
    requires IsLevel(level)
  {
    !Passes(t, level, irq) && forall p: Priv :: IsLevel(p) && p > level ==> Passes(t, p, irq)
  }

  /**
    * An interrupt is taken at `level` exactly if it is pending and enabled, `level` is the highest
    * one that keeps it, the hart does not run above `level`, and some xIE bit from the current
    * mode up to `level` is set.
    */
  lemma InterruptLevelIsExact(t: TrapState, curr: Priv, irq: Cause, level: Priv)
    requires IsLevel(curr) && IsLevel(level)
    ensures InterruptLevel(t, curr, irq) == Some(level)
        <==> Raised(t, irq) && level >= curr && Keeps(t, level, irq) && AnyEnabled(t.status, curr, level)
    ensures InterruptLevel(t, curr, irq).Some? ==>
      IsLevel(InterruptLevel(t, curr, irq).value) && InterruptLevel(t, curr, irq).value >= curr
  {
    hide CauseBit, IsSet, AnyEnabled, BitAt;
    CausePositions(t.m.ideleg, irq);
    CausePositions(t.s.ideleg, irq);
    CausePositions(t.u.ideleg, irq);
    CausePositions(t.ip, irq);
    CausePositions(t.ie, irq);
    assert Passes(t, MACHINE, irq) <==> IsSet(t.m.ideleg, CauseBit(irq));
    assert Passes(t, SUPERVISOR, irq) <==> IsSet(t.s.ideleg, CauseBit(irq));
    assert Passes(t, USER, irq) <==> IsSet(t.u.ideleg, CauseBit(irq));
    assert IsLevel(MACHINE) && IsLevel(SUPERVISOR) && IsLevel(USER);
  }

  /** No level interrupts itself while its xIE bit is clear. */
  lemma NoReentry(t: TrapState, level: Priv, irq: Cause)
    requires IsLevel(level) && !IsSet(t.status, IeBit(level))
    ensures InterruptLevel(t, level, irq) != Some(level)
  {
    hide CauseBit, IsSet;
  }

  /** Section 3.1.6.1 of the Privileged Spec: levels above the current one are always enabled. */
  predicate SpecTakes(t: TrapState, curr: Priv, irq: Cause, level: Priv)
    requires IsLevel(curr) && IsLevel(level)
  {
    Raised(t, irq) && Keeps(t, level, irq)
    && (curr < level || (curr == level && BitAt(t.status, level)))
  }

  /**
    * The code takes no interrupt that the Privileged Spec would not take at that level, and it
    * misses one exactly if the level is above the current mode and no xIE bit between them is set.
    */
  lemma InterruptsAgainstSpec(t: TrapState, curr: Priv, irq: Cause, level: Priv)
    requires IsLevel(curr) && IsLevel(level)
    ensures InterruptLevel(t, curr, irq) == Some(level) ==> SpecTakes(t, curr, irq, level)
    ensures SpecTakes(t, curr, irq, level) && InterruptLevel(t, curr, irq) != Some(level)
        <==> Raised(t, irq) && Keeps(t, level, irq) && curr < level && !AnyEnabled(t.status, curr, level)
  {
    InterruptLevelIsExact(t, curr, irq, level);
    EnablePositions(t.status, level);
    hide CauseBit, IsSet, BitAt, InterruptLevel, Keeps, Raised;
    if curr == level {
      assert AnyEnabled(t.status, curr, level) <==> IsSet(t.status, IeBit(level));
    }
  }

  /** A machine timer interrupt that user mode never sees while all xIE bits are clear. */
  lemma MissedMachineInterrupt(blank: LevelRegs)
    requires blank.ideleg == 0
    ensures var t := TrapState(0, 0x80, 0x80, blank, blank, blank);
      SpecTakes(t, USER, MTI, MACHINE) && InterruptLevel(t, USER, MTI) == None
  {
    var t := TrapState(0, 0x80, 0x80, blank, blank, blank);
    assert CauseBit(MTI) == 0x80;
    assert !AnyEnabled(0, USER, MACHINE);
  }

  /** A supervisor software interrupt that machine mode delegates and S-mode keeps is taken as number 1. */
  lemma DelegatedSoftwareInterrupt(m: LevelRegs, sup: LevelRegs, u: LevelRegs)
    requires m.ideleg == 0x222 && sup.ideleg == 0
    ensures var t := TrapState(2, 2, 2, m, sup, u);
      InterruptLevel(t, SUPERVISOR, 1) == Some(SUPERVISOR) && InterruptLevel(t, SUPERVISOR, 5).None?
  {
    var t := TrapState(2, 2, 2, m, sup, u);
    assert IsSet(t.status, IeBit(SUPERVISOR));
    assert AnyEnabled(t.status, SUPERVISOR, SUPERVISOR);
    assert CauseBit(1) == 2 && CauseBit(5) == 0x20;
  }

  /** A load access fault from user mode goes to the level that medeleg bit 5 selects. */
  lemma DelegatedAccessFault(t: TrapState)
    ensures ExceptionLevel(t, USER, 5) == MACHINE <==> t.m.edeleg & 0x20 == 0
  {
    assert CauseBit(5) == 0x20;
    hide CauseBit;
  }

  // Pending bits

  lemma FollowBit(ie: bv32, ip: bv32, irq: Cause, line: bool, m: bv32, n: bv32)
    requires CauseBit(irq) == m && m != 0
    ensures IsSet(Follow(ie, ip, irq, line), m) == if IsSet(ie, m) then line else IsSet(ip, m)
    ensures Disjoint(m, n) ==> Agree(Follow(ie, ip, irq, line), ip, n)
  {
    hide IsSet, Assign, CauseBit, Agree, Disjoint;
    AgreeSelf(ip, n);
    Lifted(ip, m);
    Lowered(ip, m);
    if Disjoint(m, n) {
      RaiseApart(ip, m, n);
      LowerApart(ip, m, n);
    }
  }

  /** The bits of the machine external, supervisor external, machine timer and machine software interrupts. */
  lemma LineBits()
    ensures CauseBit(MEI) == 0x800 && CauseBit(SEI) == 0x200 && CauseBit(MTI) == 0x80 && CauseBit(MSI) == 8
  {
  }

  predicate FollowsLine(ie: bv32, ip: bv32, after: bv32, bit: bv32, line: bool) {
    IsSet(after, bit) == if IsSet(ie, bit) then line else IsSet(ip, bit)
  }

  /** Each of the four pending bits follows its line if it is enabled, and all other bits stay. */
  lemma PendingFollowsLines(t: TrapState, ext: bool, tim: bool, sw: bool)
    ensures var ip := SetPending(t, ext, tim, sw).ip;
      && FollowsLine(t.ie, t.ip, ip, 0x800, ext) && FollowsLine(t.ie, t.ip, ip, 0x200, ext)
      && FollowsLine(t.ie, t.ip, ip, 0x80, tim) && FollowsLine(t.ie, t.ip, ip, 8, sw)
      && Agree(ip, t.ip, 0xFFFF_F577)
  {
    hide IsSet, Follow, CauseBit, Agree, PendingBits, FollowsLine;
    PendingBit(t.ie, t.ip, ext, tim, sw, 0x800);
    PendingBit(t.ie, t.ip, ext, tim, sw, 0x200);
    PendingBit(t.ie, t.ip, ext, tim, sw, 0x80);
    PendingBit(t.ie, t.ip, ext, tim, sw, 8);
    PendingBit(t.ie, t.ip, ext, tim, sw, 0xFFFF_F577);
  }

  lemma PendingBit(ie: bv32, ip: bv32, ext: bool, tim: bool, sw: bool, n: bv32)
    requires n == 0x800 || n == 0x200 || n == 0x80 || n == 8 || n == 0xFFFF_F577
    ensures var r := PendingBits(ie, ip, ext, tim, sw);
      if n == 0xFFFF_F577 then Agree(r, ip, n)
      else FollowsLine(ie, ip, r, n, if n == 0x80 then tim else if n == 8 then sw else ext)
  {
    LineBits();
    hide IsSet, Follow, CauseBit, Agree;
    var ip1 := Follow(ie, ip, MEI, ext);
    var ip2 := Follow(ie, ip1, SEI, ext);
    var ip3 := Follow(ie, ip2, MTI, tim);
    var ip4 := Follow(ie, ip3, MSI, sw);
    FollowBit(ie, ip, MEI, ext, 0x800, n);
    FollowBit(ie, ip1, SEI, ext, 0x200, n);
    FollowBit(ie, ip2, MTI, tim, 0x80, n);
    FollowBit(ie, ip3, MSI, sw, 8, n);
    if n != 0x800 {
      AgreeIsSet(ip1, ip, n);
    }
    if n != 0x200 {
      AgreeIsSet(ip2, ip1, n);
    }
    if n != 0x80 {
      AgreeIsSet(ip3, ip2, n);
    }
    if n != 8 {
      AgreeIsSet(ip4, ip3, n);
    }
    if n == 0xFFFF_F577 {
      AgreeChain(ip2, ip1, ip, n);
      AgreeChain(ip3, ip2, ip, n);
      AgreeChain(ip4, ip3, ip, n);
    }
  }

  // Nesting

  /** A running context: the trap registers, the mode and the program counter. */
  datatype Context = Context(trap: TrapState, mode: Priv, pc: Word)

  /** A trap that hits at `pc` and is served at `level`; an exception's pc is already past it. */
  datatype Frame = Frame(level: Priv, interrupt: bool, cause: Cause, pc: Word, tval: Word)

  /** Where the interrupted program continues. */
  function Resumption(f: Frame): Word {
    if f.interrupt then f.pc else Wrap(f.pc - 4)
  }

  function Enter(c: Context, f: Frame): Context
    requires IsLevel(f.level)
  {
    Context(Serve(c.trap, f.level, c.mode, f.interrupt, f.cause, f.pc, f.tval), f.level, Regs(c.trap, f.level).tvec)
  }

  /** Returning from a trap at `level`: MRET in M-mode and SRET in S-mode. */
  function Leave(c: Context, level: Priv): Context
    requires IsLevel(level)
  {
    Context(c.trap.(status := LeaveStatus(c.trap.status, level)), PreviousPrivilege(c.trap.status, level),
            Regs(c.trap, level).epc)
  }

  /** Traps served one inside the other at levels that can return, each above the one before. */
  predicate Nestable(mode: Priv, frames: seq<Frame>)
    decreases frames
  {
    frames == [] ||
    (var f := frames[0];
     && (f.level == SUPERVISOR || f.level == MACHINE) && mode <= f.level
     && Nestable(f.level, frames[1..])
     && (|frames| > 1 ==> f.level < frames[1].level))
  }

  /** Serve the frames one inside the other and return from all of them, innermost first. */
  function Nested(c: Context, frames: seq<Frame>): (r: Context)
    requires Nestable(c.mode, frames)
    decreases frames
  {
    if frames == [] then c
    else Leave(Nested(Enter(c, frames[0]), frames[1..]), frames[0].level)
  }

  function AllScratched(frames: seq<Frame>): bv32 {
    if frames == [] then 0 else Scratched(frames[0].level) | AllScratched(frames[1..])
  }

  /** Frames above S-mode are frames of M-mode, which leave the S-mode bits alone. */
  lemma {:induction false} InnerScratch(level: Priv, frames: seq<Frame>)
    requires Nestable(level, frames) && (frames != [] ==> level < frames[0].level)
    requires level == SUPERVISOR || level == MACHINE
    ensures Disjoint(AllScratched(frames), Scratched(level))
    ensures forall f :: f in frames ==> f.level > level
    decreases frames
  {
    if frames != [] {
      assert frames[0].level == MACHINE;
      assert |frames| == 1;
      assert AllScratched(frames[1..]) == 0;
    }
  }

  /**
    * For every status word, traps served at strictly increasing levels and left again restore
    * the mode, all xIE bits and the program counter of the context they interrupted, and change
    * no status bit but the xPIE and xPP bits of the levels used. Applied to the inner frames, the
    * same holds of every interrupted handler.
    */
  lemma {:induction false} NestingIsLifo(c: Context, frames: seq<Frame>)
    requires IsLevel(c.mode) && Nestable(c.mode, frames)
    ensures var r := Nested(c, frames);
      && r.mode == c.mode
      && SameExcept(r.trap.status, c.trap.status, AllScratched(frames))
      && (frames != [] ==> r.pc == Resumption(frames[0]))
      && (forall p: Priv :: IsLevel(p) && (forall f :: f in frames ==> f.level != p) ==> Regs(r.trap, p) == Regs(c.trap, p))
    decreases frames
  {
    if frames == [] {
      AgreeSelf(c.trap.status, Kept(0));
    } else {
      hide Enter, LeaveStatus, SameExcept, PreviousPrivilege, Scratched, Regs, Resumption, EnterStatus;
      var f, rest := frames[0], frames[1..];
      var e := Enter(c, f);
      EnterFacts(c, f);
      InnerScratch(f.level, rest);
      NestingIsLifo(e, rest);
      var inner := Nested(e, rest);
      LeaveUndoesEnter(c.trap.status, inner.trap.status, f.level, c.mode, AllScratched(rest));
      LeaveFacts(inner, f.level);
      assert forall g :: g in frames <==> g == f || g in rest;
    }
  }

  lemma RegsOfSetRegs(t: TrapState, level: Priv, regs: LevelRegs, other: Priv)
    requires IsLevel(level) && IsLevel(other)
    ensures var q := SetRegs(t, level, regs);
      && Regs(q, other) == (if other == level then regs else Regs(t, other))
      && q.status == t.status && q.ie == t.ie && q.ip == t.ip
  {
  }

  lemma SameRegs(t: TrapState, u: TrapState)
    requires t.m == u.m && t.s == u.s && t.u == u.u
    ensures forall p: Priv :: IsLevel(p) ==> Regs(t, p) == Regs(u, p)
  {
  }

  /** The registers of every level after a trap was served. */
  lemma ServeRegs(t: TrapState, serving: Priv, previous: Priv, interrupt: bool, cause: Cause, pc: Word, tval: Word, p: Priv)
    requires IsLevel(serving) && IsLevel(p)
    ensures var r := Serve(t, serving, previous, interrupt, cause, pc, tval);
      && r.status == EnterStatus(t.status, serving, previous) && r.ie == t.ie && r.ip == t.ip
      && Regs(r, p) == (if p == serving then Regs(t, p).(epc := if interrupt then pc else Wrap(pc - 4),
                                                         cause := if interrupt then 0x8000_0000 + cause else cause,
                                                         tval := tval)
                        else Regs(t, p))
  {
    hide EnterStatus, Regs, SetRegs, Wrap;
    var regs := Regs(t, serving).(epc := if interrupt then pc else Wrap(pc - 4),
                                  cause := if interrupt then 0x8000_0000 + cause else cause,
                                  tval := tval);
    RegsOfSetRegs(t, serving, regs, p);
    var q := SetRegs(t, serving, regs);
    SameRegs(q, q.(status := EnterStatus(t.status, serving, previous)));
  }

  lemma EnterFacts(c: Context, f: Frame)
    requires IsLevel(f.level)
    ensures var e := Enter(c, f);
      && e.mode == f.level
      && e.trap.status == EnterStatus(c.trap.status, f.level, c.mode)
      && Regs(e.trap, f.level).epc == Resumption(f)
      && forall p: Priv :: IsLevel(p) && p != f.level ==> Regs(e.trap, p) == Regs(c.trap, p)
  {
    hide EnterStatus, Serve, Regs, Wrap;
    forall p: Priv | IsLevel(p)
      ensures p != f.level ==> Regs(Enter(c, f).trap, p) == Regs(c.trap, p)
    {
      ServeRegs(c.trap, f.level, c.mode, f.interrupt, f.cause, f.pc, f.tval, p);
    }
    ServeRegs(c.trap, f.level, c.mode, f.interrupt, f.cause, f.pc, f.tval, f.level);
  }

  lemma LeaveFacts(c: Context, level: Priv)
    requires IsLevel(level)
    ensures forall p: Priv :: IsLevel(p) ==> Regs(Leave(c, level).trap, p) == Regs(c.trap, p)
  {
    hide LeaveStatus;
  }

  /** Before a trap and after its return: a status word that does not come back whole. */
  lemma ReturnLosesPie(blank: LevelRegs)
    ensures var c := Context(TrapState(0x80, 0, 0, blank, blank, blank), SUPERVISOR, 0x1000);
      var f := Frame(MACHINE, true, 7, 0x1000, 0);
      Nestable(c.mode, [f]) && Nested(c, [f]).trap.status == 0x800
  {
    var c := Context(TrapState(0x80, 0, 0, blank, blank, blank), SUPERVISOR, 0x1000);
    var f := Frame(MACHINE, true, 7, 0x1000, 0);
    assert [f][1..] == [];
    assert Nestable(f.level, [f][1..]);
    assert EnterStatus(0x80, MACHINE, SUPERVISOR) == 0x800;
    assert LeaveStatus(0x800, MACHINE) == 0x800;
  }
}
