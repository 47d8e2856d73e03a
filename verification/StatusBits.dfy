/** Status words bit by bit: what entering and leaving a trap does to them. */
module StatusBits {
  import opened Words
  import opened Trap

  predicate Agree(w: bv32, other: bv32, mask: bv32) {
    w & mask == other & mask
  }

  predicate Disjoint(m: bv32, n: bv32) {
    m & n == 0
  }

  lemma RaiseApart(w: bv32, m: bv32, n: bv32)
    requires Disjoint(m, n)
    ensures Agree(Assign(w, m, true), w, n)
  {
  }

  lemma LowerApart(w: bv32, m: bv32, n: bv32)
    requires Disjoint(m, n)
    ensures Agree(Assign(w, m, false), w, n)
  {
  }

  lemma Lifted(w: bv32, m: bv32)
    requires m != 0
    ensures IsSet(Assign(w, m, true), m)
  {
  }

  lemma Lowered(w: bv32, m: bv32)
    ensures !IsSet(Assign(w, m, false), m) && !IsSet(Clear(w, m), m)
  {
  }

  lemma ClearApart(w: bv32, m: bv32, n: bv32)
    requires Disjoint(m, n)
    ensures Agree(Clear(w, m), w, n)
  {
  }

  lemma AssignApart(w: bv32, m: bv32, b: bool, n: bv32)
    requires Disjoint(m, n)
    ensures Agree(Assign(w, m, b), w, n)
  {
    hide Assign, Agree, Disjoint;
    RaiseApart(w, m, n);
    LowerApart(w, m, n);
  }

  lemma AssignSets(w: bv32, m: bv32, b: bool)
    requires m != 0
    ensures IsSet(Assign(w, m, b), m) == b
  {
    hide Assign, IsSet;
    Lifted(w, m);
    Lowered(w, m);
  }

  lemma AgreeSelf(w: bv32, n: bv32)
    ensures Agree(w, w, n)
  {
  }

  lemma AgreeIsSet(w: bv32, other: bv32, n: bv32)
    requires Agree(w, other, n)
    ensures IsSet(w, n) == IsSet(other, n)
  {
  }

  lemma AgreeChain(a: bv32, b: bv32, c: bv32, n: bv32)
    requires Agree(a, b, n) && Agree(b, c, n)
    ensures Agree(a, c, n)
  {
  }

  lemma AgreeBack(a: bv32, b: bv32, n: bv32)
    requires Agree(a, b, n)
    ensures Agree(b, a, n)
  {
  }

  /** Every bit of `n` is in `m`. */
  predicate Subset(n: bv32, m: bv32) {
    n & !m == 0
  }

  lemma AgreeSub(a: bv32, b: bv32, m: bv32, n: bv32)
    requires Agree(a, b, m) && Subset(n, m)
    ensures Agree(a, b, n)
  {
  }

  /** Every bit of `u` is in `m` or in `n`. */
  predicate Covered(u: bv32, m: bv32, n: bv32) {
    u & !m & !n == 0
  }

  lemma AgreeUnion(a: bv32, b: bv32, m: bv32, n: bv32, u: bv32)
    requires Agree(a, b, m) && Agree(a, b, n) && Covered(u, m, n)
    ensures Agree(a, b, u)
  {
  }

  predicate OneBit(m: bv32) {
    m == 1 || m == 2 || m == 8 || m == 0x10 || m == 0x20 || m == 0x80
  }

  lemma BitAgrees(a: bv32, b: bv32, m: bv32)
    requires OneBit(m) && IsSet(a, m) == IsSet(b, m)
    ensures Agree(a, b, m)
  {
  }

  // Positions, by shifting

  predicate ShiftedBit(w: bv32, n: bv32)
    requires n < 32
  {
    (w >> n) & 1 == 1
  }

  lemma SmallNumber(n: Cause)
    ensures (n as bv32) < 32
  {
  }

  /** Bit `n` of a register. */
  predicate BitAt(w: bv32, n: Cause) {
    SmallNumber(n);
    ShiftedBit(w, n as bv32)
  }

  function One(n: bv32): bv32
    requires n < 32
  {
    (1 as bv32) << n
  }

  lemma OneIsBit(w: bv32, n: bv32)
    requires n < 32
    ensures IsSet(w, One(n)) <==> ShiftedBit(w, n)
  {
  }

  lemma CauseBitIs(cause: Cause)
    ensures (cause as bv32) < 32 && CauseBit(cause) == One(cause as bv32)
  {
  }

  /** The bit of a cause is the one at its number. */
  lemma CausePositions(w: bv32, cause: Cause)
    ensures IsSet(w, CauseBit(cause)) <==> BitAt(w, cause)
  {
    hide IsSet, CauseBit, One, ShiftedBit;
    CauseBitIs(cause);
    OneIsBit(w, cause as bv32);
  }

  /** Section 3.1.6 of the Privileged Spec: xIE is bit x, xPIE bit 4 + x. */
  lemma EnablePositions(w: bv32, level: Priv)
    ensures IsSet(w, IeBit(level)) <==> BitAt(w, level)
    ensures IsSet(w, PieBit(level)) <==> BitAt(w, 4 + level)
  {
  }

  /** MPP is the field of bits 11 and 12, SPP is bit 8. */
  lemma PrivilegePositions(w: bv32)
    ensures Mpp(w) == (if BitAt(w, 11) then 1 else 0) + (if BitAt(w, 12) then 2 else 0)
    ensures Spp(w) == if BitAt(w, 8) then 1 else 0
  {
    MppBits(w);
    SppBits(w);
  }

  lemma MppBits(w: bv32)
    ensures var f := (w >> 11) & 3;
      (f == 0 || f == 1 || f == 2 || f == 3) && (f & 1 == 1 <==> (w >> 11) & 1 == 1) && (f & 2 == 2 <==> (w >> 12) & 1 == 1)
  {
  }

  lemma SppBits(w: bv32)
    ensures ((w >> 8) & 1 == 0 || (w >> 8) & 1 == 1)
  {
  }

  // The fields of a level

  /** The xPP field of a level; user level has none. */
  function PpMask(level: Priv): bv32 {
    if level == MACHINE then 0x1800 else if level == SUPERVISOR then 0x100 else 0
  }

  /** The xPIE and xPP bits that serving at a level overwrites. */
  function Scratched(level: Priv): bv32 {
    if level == MACHINE then 0x1880 else if level == SUPERVISOR then 0x120 else 0x10
  }

  /** No bit that entering or leaving the level changes is in `n`. */
  predicate Apart(level: Priv, n: bv32) {
    Disjoint(IeBit(level), n) && Disjoint(PieBit(level), n) && Disjoint(PpMask(level), n)
  }

  lemma FieldsAreApart(level: Priv)
    requires level != RESERVED
    ensures OneBit(IeBit(level)) && OneBit(PieBit(level)) && IeBit(level) != 0 && PieBit(level) != 0
    ensures Disjoint(IeBit(level), PieBit(level)) && Disjoint(PieBit(level), IeBit(level))
    ensures Disjoint(PpMask(level), IeBit(level)) && Disjoint(PpMask(level), PieBit(level))
    ensures Disjoint(IeBit(level), PpMask(level)) && Disjoint(PieBit(level), PpMask(level))
  {
  }

  lemma MppField(status: bv32, v: bv32)
    requires v <= 3
    ensures Agree(AssignField(status, MPP, v, 3), status, !0x1800)
    ensures (AssignField(status, MPP, v, 3) >> 11) & 3 == v
  {
  }

  lemma SppField(status: bv32, v: bv32)
    requires v <= 1
    ensures Agree(AssignField(status, SPP, v, 1), status, !0x100)
    ensures (AssignField(status, SPP, v, 1) >> 8) & 1 == v
  {
  }

  lemma PrivBitsSmall(p: Priv)
    ensures PrivBits(p) <= 3 && PrivOf(PrivBits(p)) == p
    ensures p <= SUPERVISOR ==> PrivBits(p) <= 1
  {
  }

  lemma DisjointSubset(m: bv32, n: bv32)
    requires Disjoint(m, n)
    ensures Subset(n, !m)
  {
  }

  lemma SaveField(status: bv32, level: Priv, previous: Priv)
    requires level != RESERVED && previous <= level
    ensures Agree(SavePrivilege(status, level, previous), status, !PpMask(level))
    ensures level != USER ==> PreviousPrivilege(SavePrivilege(status, level, previous), level) == previous
  {
    PrivBitsSmall(previous);
    AgreeSelf(status, !PpMask(level));
    hide PrivBits, PrivOf, AssignField, Agree;
    if level == MACHINE {
      MppField(status, PrivBits(previous));
    } else if level == SUPERVISOR {
      SppField(status, PrivBits(previous));
    }
  }

  lemma SaveApart(status: bv32, level: Priv, previous: Priv, n: bv32)
    requires level != RESERVED && previous <= level && Disjoint(PpMask(level), n)
    ensures Agree(SavePrivilege(status, level, previous), status, n)
  {
    hide Agree, Disjoint, Subset, SavePrivilege, PpMask, PreviousPrivilege;
    SaveField(status, level, previous);
    DisjointSubset(PpMask(level), n);
    AgreeSub(SavePrivilege(status, level, previous), status, !PpMask(level), n);
  }

  lemma MppOf(a: bv32, b: bv32)
    ensures Agree(a, b, 0x1800) <==> (a >> 11) & 3 == (b >> 11) & 3
  {
  }

  lemma SppOf(a: bv32, b: bv32)
    ensures Agree(a, b, 0x100) <==> (a >> 8) & 1 == (b >> 8) & 1
  {
  }

  lemma PrivOfIsInjective(a: bv32, b: bv32)
    requires a <= 3 && b <= 3
    ensures PrivOf(a) == PrivOf(b) <==> a == b
  {
  }

  lemma FieldRange(status: bv32)
    ensures (status >> 11) & 3 <= 3 && (status >> 8) & 1 <= 3
  {
  }

  /** Two words hold the same previous mode exactly if they agree on the xPP field. */
  lemma PrivilegeIsField(a: bv32, b: bv32, level: Priv)
    requires level == SUPERVISOR || level == MACHINE
    ensures PreviousPrivilege(a, level) == PreviousPrivilege(b, level) <==> Agree(a, b, PpMask(level))
  {
    hide Agree, PrivOf;
    FieldRange(a);
    FieldRange(b);
    if level == MACHINE {
      MppOf(a, b);
      PrivOfIsInjective((a >> 11) & 3, (b >> 11) & 3);
    } else {
      SppOf(a, b);
      PrivOfIsInjective((a >> 8) & 1, (b >> 8) & 1);
    }
  }

  // Entering

  /** Entering leaves every other bit alone. */
  lemma EnterApart(status: bv32, level: Priv, previous: Priv, n: bv32)
    requires level != RESERVED && previous <= level && Apart(level, n)
    ensures Agree(EnterStatus(status, level, previous), status, n)
  {
    hide Agree, Disjoint, SavePrivilege, Assign, Clear, IsSet, IeBit, PieBit, PpMask;
    var saved := SavePrivilege(status, level, previous);
    var pied := Assign(saved, PieBit(level), IsSet(saved, IeBit(level)));
    SaveApart(status, level, previous, n);
    AssignApart(saved, PieBit(level), IsSet(saved, IeBit(level)), n);
    ClearApart(pied, IeBit(level), n);
    AgreeChain(pied, saved, status, n);
    AgreeChain(Clear(pied, IeBit(level)), pied, status, n);
  }

  /** Entering moves xIE to xPIE, clears it, and records the mode. */
  lemma EnterFields(status: bv32, level: Priv, previous: Priv)
    requires level != RESERVED && previous <= level
    ensures var e := EnterStatus(status, level, previous);
      && !IsSet(e, IeBit(level)) && IsSet(e, PieBit(level)) == IsSet(status, IeBit(level))
      && (level != USER ==> PreviousPrivilege(e, level) == previous)
  {
    hide Agree, Disjoint, SavePrivilege, Assign, Clear, IsSet, IeBit, PieBit, PpMask, PreviousPrivilege, OneBit;
    FieldsAreApart(level);
    var saved := SavePrivilege(status, level, previous);
    var b := IsSet(saved, IeBit(level));
    var pied := Assign(saved, PieBit(level), b);
    var e := Clear(pied, IeBit(level));
    SaveApart(status, level, previous, IeBit(level));
    AgreeIsSet(saved, status, IeBit(level));
    AssignSets(saved, PieBit(level), b);
    ClearApart(pied, IeBit(level), PieBit(level));
    AgreeIsSet(e, pied, PieBit(level));
    Lowered(pied, IeBit(level));
    if level != USER {
      SaveField(status, level, previous);
      AssignApart(saved, PieBit(level), b, PpMask(level));
      ClearApart(pied, IeBit(level), PpMask(level));
      AgreeChain(e, pied, saved, PpMask(level));
      PrivilegeIsField(e, saved, level);
    }
  }

  // Leaving

  lemma LeaveApart(status: bv32, level: Priv, n: bv32)
    requires Disjoint(IeBit(level), n) && Disjoint(PieBit(level), n)
    ensures Agree(LeaveStatus(status, level), status, n)
  {
    hide Agree, Disjoint, Assign, Clear, IsSet, IeBit, PieBit;
    var ied := Assign(status, IeBit(level), IsSet(status, PieBit(level)));
    AssignApart(status, IeBit(level), IsSet(status, PieBit(level)), n);
    ClearApart(ied, PieBit(level), n);
    AgreeChain(Clear(ied, PieBit(level)), ied, status, n);
  }

  lemma LeaveFields(status: bv32, level: Priv)
    requires level != RESERVED
    ensures var r := LeaveStatus(status, level);
      && IsSet(r, IeBit(level)) == IsSet(status, PieBit(level)) && !IsSet(r, PieBit(level))
      && (level != USER ==> PreviousPrivilege(r, level) == PreviousPrivilege(status, level))
  {
    hide Agree, Disjoint, Assign, Clear, IsSet, IeBit, PieBit, PpMask, PreviousPrivilege, OneBit;
    FieldsAreApart(level);
    var b := IsSet(status, PieBit(level));
    var ied := Assign(status, IeBit(level), b);
    AssignSets(status, IeBit(level), b);
    ClearApart(ied, PieBit(level), IeBit(level));
    AgreeIsSet(Clear(ied, PieBit(level)), ied, IeBit(level));
    Lowered(ied, PieBit(level));
    if level != USER {
      LeaveApart(status, level, PpMask(level));
      PrivilegeIsField(LeaveStatus(status, level), status, level);
    }
  }

  // Leaving after entering

  /** Two status words agree on every xIE bit and on every bit outside `scratched`. */
  predicate SameExcept(status: bv32, other: bv32, scratched: bv32) {
    Agree(status, other, Kept(scratched))
  }

  function Kept(scratched: bv32): bv32 {
    !scratched | 0xF
  }

  /** The kept bits that are not the xIE bit of the level. */
  function Rest(level: Priv, x: bv32): bv32 {
    Kept(Scratched(level) | x) & !IeBit(level)
  }

  lemma MasksFitMachine(x: bv32)
    requires Disjoint(x, 0x1880)
    ensures Subset(Rest(MACHINE, x), Kept(x)) && Apart(MACHINE, Rest(MACHINE, x))
    ensures Covered(Kept(Scratched(MACHINE) | x), Rest(MACHINE, x), IeBit(MACHINE))
    ensures Subset(PieBit(MACHINE), Kept(x)) && Subset(PpMask(MACHINE), Kept(x))
  {
  }

  lemma MasksFitSupervisor(x: bv32)
    requires Disjoint(x, 0x120)
    ensures Subset(Rest(SUPERVISOR, x), Kept(x)) && Apart(SUPERVISOR, Rest(SUPERVISOR, x))
    ensures Covered(Kept(Scratched(SUPERVISOR) | x), Rest(SUPERVISOR, x), IeBit(SUPERVISOR))
    ensures Subset(PieBit(SUPERVISOR), Kept(x)) && Subset(PpMask(SUPERVISOR), Kept(x))
  {
  }

  lemma MasksFitUser(x: bv32)
    requires Disjoint(x, 0x10)
    ensures Subset(Rest(USER, x), Kept(x)) && Apart(USER, Rest(USER, x))
    ensures Covered(Kept(Scratched(USER) | x), Rest(USER, x), IeBit(USER))
    ensures Subset(PieBit(USER), Kept(x)) && Subset(PpMask(USER), Kept(x))
  {
  }

  lemma MasksFit(level: Priv, x: bv32)
    requires level != RESERVED && Disjoint(x, Scratched(level))
    ensures Subset(Rest(level, x), Kept(x)) && Apart(level, Rest(level, x))
    ensures Covered(Kept(Scratched(level) | x), Rest(level, x), IeBit(level))
    ensures Subset(PieBit(level), Kept(x)) && Subset(PpMask(level), Kept(x))
  {
    hide Disjoint, Subset, Covered, Rest, Kept, Apart, PpMask, IeBit, PieBit;
    if level == MACHINE {
      MasksFitMachine(x);
    } else if level == SUPERVISOR {
      MasksFitSupervisor(x);
    } else {
      MasksFitUser(x);
    }
  }

  /** A level's return restores the mode and every xIE bit, whatever happened to the scratched bits. */
  lemma LeaveUndoesEnter(status: bv32, later: bv32, serving: Priv, previous: Priv, scratched: bv32)
    requires serving != RESERVED && previous <= serving
    requires SameExcept(later, EnterStatus(status, serving, previous), scratched)
    requires Disjoint(scratched, Scratched(serving))
    ensures serving != USER ==> PreviousPrivilege(later, serving) == previous
    ensures SameExcept(LeaveStatus(later, serving), status, Scratched(serving) | scratched)
  {
    MasksFit(serving, scratched);
    FieldsAreApart(serving);
    var entered, left := EnterStatus(status, serving, previous), LeaveStatus(later, serving);
    var ie, pie, rest := IeBit(serving), PieBit(serving), Rest(serving, scratched);
    hide Agree, Disjoint, Subset, Covered, Rest, Kept, Scratched, PpMask, IeBit, PieBit, EnterStatus, LeaveStatus,
      PreviousPrivilege, IsSet, OneBit;
    EnterFields(status, serving, previous);
    LeaveFields(later, serving);
    AgreeSub(later, entered, Kept(scratched), pie);
    AgreeIsSet(later, entered, pie);
    if serving != USER {
      AgreeSub(later, entered, Kept(scratched), PpMask(serving));
      PrivilegeIsField(later, entered, serving);
    }
    BitAgrees(left, status, ie);
    LeaveApart(later, serving, rest);
    AgreeSub(later, entered, Kept(scratched), rest);
    EnterApart(status, serving, previous, rest);
    AgreeChain(later, entered, status, rest);
    AgreeChain(left, later, status, rest);
    AgreeUnion(left, status, rest, ie, Kept(Scratched(serving) | scratched));
  }

  /** The kept bits of one level's trap, and its xPIE bit. */
  function KeptWithPie(level: Priv): bv32 {
    Kept(Scratched(level)) | PieBit(level)
  }

  lemma FieldsCoverAll(level: Priv)
    requires level != RESERVED
    ensures Disjoint(0, Scratched(level)) && Scratched(level) | 0 == Scratched(level)
    ensures Covered(KeptWithPie(level), Kept(Scratched(level)), PieBit(level))
    ensures Covered(0xFFFF_FFFF, KeptWithPie(level), PpMask(level))
    ensures level == USER ==> PpMask(level) == 0
  {
  }

  lemma AgreeEverywhere(a: bv32, b: bv32)
    ensures Agree(a, b, 0xFFFF_FFFF) <==> a == b
  {
  }

  lemma AgreeNowhere(a: bv32, b: bv32)
    ensures Agree(a, b, 0)
  {
  }

  lemma RoundTripKeeps(status: bv32, level: Priv, previous: Priv)
    requires level != RESERVED && previous <= level
    ensures Agree(LeaveStatus(EnterStatus(status, level, previous), level), status, Kept(Scratched(level)))
  {
    FieldsCoverAll(level);
    hide Agree, Disjoint, Covered, KeptWithPie, Kept, Scratched, EnterStatus, LeaveStatus, PieBit, PpMask;
    AgreeSelf(EnterStatus(status, level, previous), Kept(0));
    LeaveUndoesEnter(status, EnterStatus(status, level, previous), level, previous, 0);
  }

  lemma SamePrivilegeAgrees(a: bv32, b: bv32, level: Priv)
    requires level != RESERVED && (level != USER ==> PreviousPrivilege(a, level) == PreviousPrivilege(b, level))
    ensures Agree(a, b, PpMask(level))
  {
    FieldsCoverAll(level);
    hide Agree, PreviousPrivilege, PpMask;
    if level == USER {
      AgreeNowhere(a, b);
    } else {
      PrivilegeIsField(a, b, level);
    }
  }

  /**
    * A trap and its return give back the whole status word exactly if its xPIE bit was clear and
    * its xPP field already named the interrupted mode.
    */
  lemma RoundTripIsExact(status: bv32, level: Priv, previous: Priv)
    requires level != RESERVED && previous <= level
    ensures LeaveStatus(EnterStatus(status, level, previous), level) == status
        <==> !IsSet(status, PieBit(level)) && (level != USER ==> PreviousPrivilege(status, level) == previous)
  {
    hide Agree, Disjoint, Covered, KeptWithPie, Kept, Scratched, PpMask, IeBit, PieBit, EnterStatus, LeaveStatus,
      PreviousPrivilege, IsSet, OneBit;
    var e := EnterStatus(status, level, previous);
    var r := LeaveStatus(e, level);
    EnterFields(status, level, previous);
    LeaveFields(e, level);
    if !IsSet(status, PieBit(level)) && (level != USER ==> PreviousPrivilege(status, level) == previous) {
      FieldsCoverAll(level);
      FieldsAreApart(level);
      RoundTripKeeps(status, level, previous);
      BitAgrees(r, status, PieBit(level));
      SamePrivilegeAgrees(r, status, level);
      AgreeUnion(r, status, Kept(Scratched(level)), PieBit(level), KeptWithPie(level));
      AgreeUnion(r, status, KeptWithPie(level), PpMask(level), 0xFFFF_FFFF);
      AgreeEverywhere(r, status);
    }
  }

  // The return of the specification

  /** Section 3.1.6.1 of the Privileged Spec: xIE := xPIE, xPIE := 1, xPP := U. */
  function SpecLeaveStatus(status: bv32, level: Priv): bv32 {
    Assign(Assign(Clear(status, PpMask(level)), IeBit(level), IsSet(status, PieBit(level))), PieBit(level), true)
  }

  lemma UserField(status: bv32)
    ensures (Clear(status, 0x1800) >> 11) & 3 == 0 && (Clear(status, 0x100) >> 8) & 1 == 0
  {
  }

  lemma ClearedPrivilege(status: bv32, level: Priv)
    requires level == SUPERVISOR || level == MACHINE
    ensures PreviousPrivilege(Clear(status, PpMask(level)), level) == USER
  {
    UserField(status);
    hide Clear;
  }

  /**
    * For every status word, the code's return and the specification's restore the same xIE bit and
    * agree outside the xPIE and xPP fields, and differ in them: the code clears xPIE, and keeps the
    * restored mode in xPP, where the specification sets xPIE and leaves user mode.
    */
  lemma ReturnAgainstSpec(status: bv32, level: Priv)
    requires level == SUPERVISOR || level == MACHINE
    ensures var code, spec := LeaveStatus(status, level), SpecLeaveStatus(status, level);
      && Agree(code, spec, Kept(Scratched(level)))
      && !IsSet(code, PieBit(level)) && IsSet(spec, PieBit(level))
      && PreviousPrivilege(code, level) == PreviousPrivilege(status, level) && PreviousPrivilege(spec, level) == USER
  {
    hide Agree, Disjoint, Subset, Covered, KeptWithPie, Rest, Kept, Scratched, PpMask, IeBit, PieBit, LeaveStatus,
      Clear, Assign, PreviousPrivilege, IsSet, OneBit;
    FieldsCoverAll(level);
    MasksFit(level, 0);
    FieldsAreApart(level);
    LeaveFields(status, level);
    SpecLeaveFields(status, level);
    var ie, rest := IeBit(level), Rest(level, 0);
    var code, spec := LeaveStatus(status, level), SpecLeaveStatus(status, level);
    BitAgrees(code, spec, ie);
    LeaveApart(status, level, rest);
    SpecLeaveApart(status, level, rest);
    AgreeBack(spec, status, rest);
    AgreeChain(code, status, spec, rest);
    AgreeUnion(code, spec, rest, ie, Kept(Scratched(level)));
  }

  lemma SpecLeaveApart(status: bv32, level: Priv, n: bv32)
    requires Apart(level, n)
    ensures Agree(SpecLeaveStatus(status, level), status, n)
  {
    hide Agree, Disjoint, PpMask, IeBit, PieBit, Clear, Assign, IsSet;
    var b := IsSet(status, PieBit(level));
    var cleared := Clear(status, PpMask(level));
    var ied := Assign(cleared, IeBit(level), b);
    ClearApart(status, PpMask(level), n);
    AssignApart(cleared, IeBit(level), b, n);
    AssignApart(ied, PieBit(level), true, n);
    AgreeChain(ied, cleared, status, n);
    AgreeChain(Assign(ied, PieBit(level), true), ied, status, n);
  }

  lemma SpecLeaveFields(status: bv32, level: Priv)
    requires level == SUPERVISOR || level == MACHINE
    ensures var spec := SpecLeaveStatus(status, level);
      && IsSet(spec, PieBit(level)) && IsSet(spec, IeBit(level)) == IsSet(status, PieBit(level))
      && PreviousPrivilege(spec, level) == USER
  {
    hide Agree, Disjoint, PpMask, IeBit, PieBit, Clear, Assign, IsSet, PreviousPrivilege, OneBit;
    FieldsAreApart(level);
    var ie, pie, pp := IeBit(level), PieBit(level), PpMask(level);
    var b := IsSet(status, pie);
    var cleared := Clear(status, pp);
    var ied := Assign(cleared, ie, b);
    var spec := Assign(ied, pie, true);
    AssignSets(ied, pie, true);
    AssignSets(cleared, ie, b);
    AssignApart(ied, pie, true, ie);
    AgreeIsSet(spec, ied, ie);
    ClearedPrivilege(status, level);
    AssignApart(cleared, ie, b, pp);
    AssignApart(ied, pie, true, pp);
    AgreeChain(spec, ied, cleared, pp);
    PrivilegeIsField(spec, cleared, level);
  }
}
