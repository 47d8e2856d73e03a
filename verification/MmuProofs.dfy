/** Translation against the Privileged Spec, page by page, and under page table updates. */
module MmuProofs {
  import opened Words
  import opened Pmp
  import opened Mmu

  // A denied page table read never becomes a translation

  /** The addresses of the page table entries that a walk reads or tries to read. */
  function WalkReads(bus: Bus, priv: Priv, va: Word, table: Word, level: nat): seq<Word>
    requires bus.pmp.Valid()
    decreases level
  {
    var at := PteAddress(table, va, level);
    match ReadPte(bus, priv, at)
    case None => [at]
    case Some(pte) =>
      if IsBroken(pte) || IsRead(pte) || IsExec(pte) || level == 0 then [at]
      else [at] + WalkReads(bus, priv, va, TableAddress(Ppn(pte)), level - 1)
  }

  /** A walk that reaches a leaf had PMP's permission for every entry it read. */
  lemma {:induction false} LeafOnlyThroughReadableTables(bus: Bus, priv: Priv, va: Word, table: Word, level: nat)
    requires bus.pmp.Valid()
    ensures Walk(bus, priv, va, table, level).Leaf? ==>
      forall at :: at in WalkReads(bus, priv, va, table, level) ==> Allowed(bus.pmp, priv, at, 4, Read)
    ensures Walk(bus, priv, va, table, level).Denied? <==>
      exists at :: at in WalkReads(bus, priv, va, table, level) && !Allowed(bus.pmp, priv, at, 4, Read)
    decreases level
  {
    hide Allowed, IsBroken, IsRead, IsExec, Ppn, PteAddress, TableAddress;
    var at := PteAddress(table, va, level);
    var entries := WalkReads(bus, priv, va, table, level);
    assert at in entries;
    match ReadPte(bus, priv, at)
    case None =>
    case Some(pte) =>
      if !(IsBroken(pte) || IsRead(pte) || IsExec(pte) || level == 0) {
        var next := WalkReads(bus, priv, va, TableAddress(Ppn(pte)), level - 1);
        assert forall a :: a in entries <==> a == at || a in next;
        LeafOnlyThroughReadableTables(bus, priv, va, TableAddress(Ppn(pte)), level - 1);
      }
  }

  // The 34-bit walk of section 4.3.2 of the Privileged Spec

  /** The memory that the specification walks: entries by 34-bit address, refused ones yield None. */
  type WideMemory = nat -> Option<Word>

  datatype SpecResult = SpecLeaf(level: nat, pte: Word) | SpecFault

  /** The index of an address into the tables of a level: bits 31 to 22, and bits 21 to 12. */
  function SpecIndex(va: Word, level: nat): nat {
    if level == 0 then va / 0x1000 % 0x400 else va / 0x40_0000
  }

  // Figure 4.18 of the Privileged Spec: V, R, W, X, U, G, A and D are the bits 0 to 7, the PPN the bits from 10 on

  /** Step 3: not valid, or writable without being readable. */
  predicate SpecBroken(pte: Word) {
    !HasBit(pte, 0) || (!HasBit(pte, 1) && HasBit(pte, 2))
  }

  /** Step 4: readable or executable. */
  predicate SpecIsLeaf(pte: Word) {
    HasBit(pte, 1) || HasBit(pte, 3)
  }

  function SpecWalk(read: WideMemory, va: Word, table: nat, level: nat): SpecResult
    decreases level
  {
    match read(table + 4 * SpecIndex(va, level))
    case None => SpecFault
    case Some(pte) =>
      if SpecBroken(pte) then SpecFault
      else if SpecIsLeaf(pte) then SpecLeaf(level, pte)
      else if level == 0 then SpecFault
      else SpecWalk(read, va, 0x1000 * (pte / 0x400), level - 1)
  }

  /** Step 5 of section 4.3.2 with section 4.3.1: S-mode never executes user pages, whatever SUM is. */
  predicate SpecPermits(pte: Word, priv: Priv, access: Access, sum: bool, mxr: bool) {
    (priv == 0 ==> HasBit(pte, 4))
    && (priv == 1 && HasBit(pte, 4) ==> sum && access != Fetch)
    && match access
       case Read => HasBit(pte, 1) || (mxr && HasBit(pte, 3))
       case Write => HasBit(pte, 2)
       case Fetch => HasBit(pte, 3)
  }

  /** Steps 5 to 7: permissions, the alignment of superpages, the A and D bits. */
  predicate SpecUsable(level: nat, pte: Word, priv: Priv, access: Access, sum: bool, mxr: bool) {
    SpecPermits(pte, priv, access, sum, mxr)
    && (level > 0 ==> pte / 0x400 % 0x400 == 0)
    && HasBit(pte, 6) && (access == Write ==> HasBit(pte, 7))
  }

  /** Step 8. */
  function SpecAddress(level: nat, pte: Word, va: Word): nat {
    if level == 0 then pte / 0x400 * 0x1000 + va % 0x1000 else pte / 0x10_0000 * 0x40_0000 + va % 0x40_0000
  }

  /** No translation in M-mode or while the MODE bit of satp is clear. */
  predicate SpecBare(satp: Word, priv: Priv) {
    priv == 3 || !HasBit(satp, 31)
  }

  function SpecTranslate(read: WideMemory, satp: Word, priv: Priv, va: Word, access: Access, sum: bool, mxr: bool): Option<nat> {
    if SpecBare(satp, priv) then Some(va)
    else match SpecWalk(read, va, 0x1000 * (satp % 0x40_0000), 1)
      case SpecFault => None
      case SpecLeaf(level, pte) =>
        if SpecUsable(level, pte, priv, access, sum, mxr) then Some(SpecAddress(level, pte, va)) else None
  }

  // The fields of the code are those of the specification

  lemma PteFields(pte: Word)
    ensures IsValid(pte) <==> HasBit(pte, 0)
    ensures IsRead(pte) <==> HasBit(pte, 1)
    ensures IsWrite(pte) <==> HasBit(pte, 2)
    ensures IsExec(pte) <==> HasBit(pte, 3)
    ensures IsUser(pte) <==> HasBit(pte, 4)
    ensures IsAccessed(pte) <==> HasBit(pte, 6)
    ensures IsDirty(pte) <==> HasBit(pte, 7)
    ensures Ppn(pte) == pte / 0x400
  {
    LowPowers();
    hide Pow2;
  }

  lemma PteKinds(pte: Word)
    ensures IsBroken(pte) <==> SpecBroken(pte)
    ensures IsRead(pte) || IsExec(pte) <==> SpecIsLeaf(pte)
  {
    PteFields(pte);
    hide HasBit, IsValid, IsRead, IsWrite, IsExec;
  }

  /** An address is made of its two indices and its offset; the code cuts out the same two. */
  lemma AddressParts(va: Word)
    ensures Vpn(va, 0) == va / 0x1000 % 0x400 && Vpn(va, 1) == va / 0x40_0000
    ensures va == 0x40_0000 * Vpn(va, 1) + 0x1000 * Vpn(va, 0) + va % 0x1000
    ensures forall level: nat :: Vpn(va, level) == SpecIndex(va, level) < 0x400
  {
    assert va / 0x40_0000 == va / 0x1000 / 0x400;
  }

  lemma SamePage4K(va: Word, other: Word)
    ensures va / 0x1000 == other / 0x1000 <==> Vpn(va, 1) == Vpn(other, 1) && Vpn(va, 0) == Vpn(other, 0)
    ensures va / 0x40_0000 == other / 0x40_0000 <==> Vpn(va, 1) == Vpn(other, 1)
  {
    AddressParts(va);
    AddressParts(other);
    assert va / 0x1000 == 0x400 * (va / 0x40_0000) + va / 0x1000 % 0x400;
    assert other / 0x1000 == 0x400 * (other / 0x40_0000) + other / 0x1000 % 0x400;
  }

  lemma SatpFields(satp: Word, priv: Priv)
    ensures Bare(satp, priv) <==> SpecBare(satp, priv)
  {
    Pow2Word();
    hide Pow2;
  }

  /** The two memories agree on everything a 32-bit bus can address. */
  ghost predicate Agree(read: WideMemory, bus: Bus, priv: Priv)
    requires bus.pmp.Valid()
  {
    forall a: Word :: read(a) == ReadPte(bus, priv, a)
  }

  /** A page number whose page the 32-bit bus can address. */
  predicate Fits(ppn: nat) {
    ppn < 0x10_0000
  }

  /** Every page table that the walk enters below `table` lies within reach of the bus. */
  predicate TablesFit(bus: Bus, priv: Priv, va: Word, table: Word, level: nat)
    requires bus.pmp.Valid()
    decreases level
  {
    match ReadPte(bus, priv, PteAddress(table, va, level))
    case None => true
    case Some(pte) =>
      IsBroken(pte) || IsRead(pte) || IsExec(pte) || level == 0
      || (Fits(Ppn(pte)) && TablesFit(bus, priv, va, TableAddress(Ppn(pte)), level - 1))
  }

  lemma VpnBound(va: Word, level: nat)
    ensures Vpn(va, level) < 0x400
  {
  }

  lemma EntryInTable(table: nat, v: nat)
    requires Fits(table) && v < 0x400
    ensures var a := 0x1000 * table + 4 * v; a < LIMIT && a % 4 == 0 && a / 0x1000 == table
  {
  }

  lemma PteAddressFits(table: Word, va: Word, level: nat)
    requires table % 0x1000 == 0
    ensures PteAddress(table, va, level) == table + 4 * Vpn(va, level)
    ensures PteAddress(table, va, level) % 4 == 0
  {
    VpnBound(va, level);
    hide Vpn;
    EntryInTable(table / 0x1000, Vpn(va, level));
  }

  lemma TableAddressFits(ppn: nat)
    requires Fits(ppn)
    ensures TableAddress(ppn) == 0x1000 * ppn && TableAddress(ppn) % 0x1000 == 0
  {
  }

  /** The specification does not tell the ways to fail apart. */
  function AsSpec(w: WalkResult): SpecResult {
    if w.Leaf? then SpecLeaf(w.level, w.pte) else SpecFault
  }

  /** The walk does not go on from an entry. */
  predicate Ends(entry: Option<Word>, level: nat) {
    entry.None? || IsBroken(entry.value) || IsRead(entry.value) || IsExec(entry.value) || level == 0
  }

  lemma EndsAlike(read: WideMemory, bus: Bus, priv: Priv, va: Word, table: Word, level: nat)
    requires bus.pmp.Valid()
    requires var entry := ReadPte(bus, priv, PteAddress(table, va, level));
      Ends(entry, level) && read(table + 4 * SpecIndex(va, level)) == entry
    ensures SpecWalk(read, va, table, level) == AsSpec(Walk(bus, priv, va, table, level))
  {
    hide SpecIndex, IsBroken, SpecBroken, SpecIsLeaf, IsRead, IsExec, ReadPte, TableAddress, PteAddress;
    var entry := ReadPte(bus, priv, PteAddress(table, va, level));
    if entry.Some? {
      PteKinds(entry.value);
    }
  }

  lemma SpecDescends(read: WideMemory, va: Word, table: nat, level: nat, pte: Word)
    requires level > 0 && read(table + 4 * SpecIndex(va, level)) == Some(pte) && !SpecBroken(pte) && !SpecIsLeaf(pte)
    ensures SpecWalk(read, va, table, level) == SpecWalk(read, va, 0x1000 * (pte / 0x400), level - 1)
  {
    hide SpecIndex, SpecBroken, SpecIsLeaf;
  }

  lemma WalkDescends(bus: Bus, priv: Priv, va: Word, table: Word, level: nat, pte: Word)
    requires bus.pmp.Valid() && level > 0 && ReadPte(bus, priv, PteAddress(table, va, level)) == Some(pte)
    requires !Ends(Some(pte), level)
    ensures Walk(bus, priv, va, table, level) == Walk(bus, priv, va, TableAddress(Ppn(pte)), level - 1)
  {
    hide IsBroken, IsRead, IsExec, ReadPte, TableAddress, PteAddress;
  }

  lemma FirstReadAgrees(read: WideMemory, bus: Bus, priv: Priv, va: Word, table: Word, level: nat)
    requires bus.pmp.Valid() && Agree(read, bus, priv) && table % 0x1000 == 0
    ensures read(table + 4 * SpecIndex(va, level)) == ReadPte(bus, priv, PteAddress(table, va, level))
  {
    PteAddressFits(table, va, level);
    AddressParts(va);
    hide ReadPte, Vpn, SpecIndex;
  }

  lemma NextTableFits(bus: Bus, priv: Priv, va: Word, table: Word, level: nat, pte: Word)
    requires bus.pmp.Valid() && TablesFit(bus, priv, va, table, level)
    requires level > 0 && ReadPte(bus, priv, PteAddress(table, va, level)) == Some(pte) && !Ends(Some(pte), level)
    ensures TableAddress(Ppn(pte)) == 0x1000 * (pte / 0x400) && TableAddress(Ppn(pte)) % 0x1000 == 0
    ensures TablesFit(bus, priv, va, TableAddress(Ppn(pte)), level - 1)
  {
    hide IsBroken, IsRead, IsExec, ReadPte, TableAddress, PteAddress, Fits;
    TableAddressFits(Ppn(pte));
  }

  lemma {:induction false} WalkFollowsSpec(read: WideMemory, bus: Bus, priv: Priv, va: Word, table: Word, level: nat)
    requires bus.pmp.Valid() && Agree(read, bus, priv) && table % 0x1000 == 0
    requires TablesFit(bus, priv, va, table, level)
    ensures SpecWalk(read, va, table, level) == AsSpec(Walk(bus, priv, va, table, level))
    decreases level
  {
    hide IsBroken, IsRead, IsExec, SpecBroken, SpecIsLeaf, Ppn, ReadPte, TableAddress, PteAddress, Agree, Walk, SpecWalk,
      AsSpec, TablesFit, SpecIndex;
    var entry := ReadPte(bus, priv, PteAddress(table, va, level));
    FirstReadAgrees(read, bus, priv, va, table, level);
    if Ends(entry, level) {
      EndsAlike(read, bus, priv, va, table, level);
    } else {
      PteKinds(entry.value);
      SpecDescends(read, va, table, level, entry.value);
      WalkDescends(bus, priv, va, table, level, entry.value);
      NextTableFits(bus, priv, va, table, level, entry.value);
      WalkFollowsSpec(read, bus, priv, va, TableAddress(Ppn(entry.value)), level - 1);
    }
  }

  /** The code differs from these permissions in one case: SUM also admits S-mode fetches from user pages. */
  lemma SumAdmitsSupervisorFetch(pte: Word, priv: Priv, access: Access, sum: bool, mxr: bool)
    ensures Permits(pte, priv, access, sum, mxr) == SpecPermits(pte, priv, access, sum, mxr)
        <==> !(priv == SUPERVISOR && access == Fetch && sum && IsUser(pte) && IsExec(pte))
  {
    hide IsUser, IsExec, IsRead, IsWrite, HasBit;
    PteFields(pte);
  }

  lemma UsableAgainstSpec(level: nat, pte: Word, priv: Priv, access: Access, sum: bool, mxr: bool)
    ensures Usable(level, pte, priv, access, sum, mxr)
        <==> SpecUsable(level, pte, priv, access, sum, mxr)
             || (priv == SUPERVISOR && access == Fetch && sum && IsUser(pte) && Usable(level, pte, priv, access, sum, mxr))
    ensures SpecUsable(level, pte, priv, access, sum, mxr) ==>
      !(priv == SUPERVISOR && access == Fetch && IsUser(pte))
  {
    hide IsUser, IsExec, IsRead, IsWrite, IsAccessed, IsDirty, HasBit, Ppn;
    PteFields(pte);
  }

  lemma AddressIsSpec(level: nat, pte: Word, va: Word)
    ensures PhysicalAddress(level, pte, va) == SpecAddress(level, pte, va)
  {
    assert pte / 0x400 / 0x400 == pte / 0x10_0000;
  }

  /** A supervisor fetch that reaches a usable user page while SUM is set. */
  predicate FetchesUserPage(bus: Bus, satp: Word, priv: Priv, va: Word, access: Access, sum: bool, mxr: bool)
    requires bus.pmp.Valid()
  {
    && priv == SUPERVISOR && access == Fetch && sum && !Bare(satp, priv)
    && var w := Walk(bus, priv, va, RootTable(satp), 1);
       w.Leaf? && IsUser(w.pte) && Usable(w.level, w.pte, priv, access, sum, mxr)
  }

  /**
    * While the page tables can be addressed, the code translates what section 4.3.2 of the
    * Privileged Spec translates and nothing else, except for supervisor fetches from user pages
    * under SUM, which the specification refuses. Where both succeed, the code's address is the
    * specification's if and only if that has 32 bits.
    */
  lemma TranslateFollowsSpec(read: WideMemory, bus: Bus, satp: Word, priv: Priv, va: Word, access: Access, sum: bool, mxr: bool)
    requires bus.pmp.Valid() && Agree(read, bus, priv)
    requires !Bare(satp, priv) ==> Fits(satp % 0x40_0000) && TablesFit(bus, priv, va, RootTable(satp), 1)
    ensures var code := Translate(bus, satp, priv, va, access, sum, mxr);
      var spec := SpecTranslate(read, satp, priv, va, access, sum, mxr);
      && (code.Success? <==> spec.Some? || FetchesUserPage(bus, satp, priv, va, access, sum, mxr))
      && !(spec.Some? && FetchesUserPage(bus, satp, priv, va, access, sum, mxr))
      && (spec.Some? ==> (code.value == spec.value <==> spec.value < LIMIT))
  {
    hide Walk, SpecWalk, TablesFit, Usable, SpecUsable, PhysicalAddress, SpecAddress, Agree, Bare, SpecBare, Fits,
      TableAddress, RootTable, PageFault, IsUser;
    SatpFields(satp, priv);
    if !Bare(satp, priv) {
      RootIs(satp);
      WalkFollowsSpec(read, bus, priv, va, RootTable(satp), 1);
      var w := Walk(bus, priv, va, RootTable(satp), 1);
      if w.Leaf? {
        UsableAgainstSpec(w.level, w.pte, priv, access, sum, mxr);
        AddressIsSpec(w.level, w.pte, va);
        WrapIsIdentity(PhysicalAddress(w.level, w.pte, va));
      }
    }
  }

  lemma RootIs(satp: Word)
    requires Fits(satp % 0x40_0000)
    ensures RootTable(satp) == 0x1000 * (satp % 0x40_0000) && RootTable(satp) % 0x1000 == 0
  {
    TableAddressFits(satp % 0x40_0000);
  }

  /** A user superpage that may be read and executed: S-mode fetches from it, against the specification. */
  const USER_CODE: Word := 0x5B

  lemma UserCodeFields(va: Word, mxr: bool)
    ensures IsUser(USER_CODE) && IsExec(USER_CODE) && !IsBroken(USER_CODE) && Ppn(USER_CODE) == 0
    ensures Wrap(PhysicalAddress(1, USER_CODE, va)) == va % 0x40_0000
    ensures Usable(1, USER_CODE, SUPERVISOR, Fetch, true, mxr)
  {
  }

  lemma SpecRefusesUserCode(read: WideMemory, satp: Word, va: Word, mxr: bool)
    requires !Bare(satp, SUPERVISOR) && read(0x1000 * (satp % 0x40_0000) + 4 * (va / 0x40_0000)) == Some(USER_CODE)
    ensures SpecTranslate(read, satp, SUPERVISOR, va, Fetch, true, mxr).None?
  {
    hide SpecBroken, SpecIsLeaf, SpecUsable, IsBroken, IsRead, IsExec, IsUser, Ppn, PhysicalAddress, SpecAddress, HasBit,
      Bare, SpecBare;
    UserCodeFields(va, mxr);
    PteKinds(USER_CODE);
    UsableAgainstSpec(1, USER_CODE, SUPERVISOR, Fetch, true, mxr);
    SatpFields(satp, SUPERVISOR);
    assert SpecIndex(va, 1) == va / 0x40_0000;
    assert SpecWalk(read, va, 0x1000 * (satp % 0x40_0000), 1) == SpecLeaf(1, USER_CODE);
  }

  /** With this entry in the root table, the code translates a supervisor fetch that the specification refuses. */
  lemma SupervisorExecutesUserPage(read: WideMemory, bus: Bus, satp: Word, va: Word, mxr: bool)
    requires bus.pmp.Valid() && !Bare(satp, SUPERVISOR) && Agree(read, bus, SUPERVISOR) && Fits(satp % 0x40_0000)
    requires ReadPte(bus, SUPERVISOR, PteAddress(RootTable(satp), va, 1)) == Some(USER_CODE)
    ensures Translate(bus, satp, SUPERVISOR, va, Fetch, true, mxr) == Success(va % 0x40_0000)
    ensures SpecTranslate(read, satp, SUPERVISOR, va, Fetch, true, mxr).None?
  {
    hide ReadPte, PteAddress, RootTable, IsUser, IsExec, IsRead, IsWrite, IsBroken, Usable, Ppn, PhysicalAddress,
      SpecTranslate, Agree, Bare, Fits;
    UserCodeFields(va, mxr);
    RootIs(satp);
    FirstReadAgrees(read, bus, SUPERVISOR, va, RootTable(satp), 1);
    assert SpecIndex(va, 1) == va / 0x40_0000;
    SpecRefusesUserCode(read, satp, va, mxr);
    assert Walk(bus, SUPERVISOR, va, RootTable(satp), 1) == Leaf(1, USER_CODE);
  }

  lemma WrapIsIdentity(x: nat)
    ensures Wrap(x) == x <==> x < LIMIT
  {
  }

  /** The top two bits of a page number are lost: a leaf for page 2^20 translates to page 0. */
  lemma WidePageNumberIsTruncated(va: Word)
    ensures PhysicalAddress(0, 0x4000_00cf, va) == LIMIT + va % 0x1000
    ensures Wrap(PhysicalAddress(0, 0x4000_00cf, va)) == va % 0x1000
  {
  }

  /** A store that translates could also be loaded from, at the same address. */
  lemma WriteTranslationImpliesRead(bus: Bus, satp: Word, priv: Priv, va: Word, sum: bool, mxr: bool)
    requires bus.pmp.Valid()
    requires Translate(bus, satp, priv, va, Write, sum, mxr).Success?
    ensures Translate(bus, satp, priv, va, Read, sum, mxr) == Translate(bus, satp, priv, va, Write, sum, mxr)
  {
    if !Bare(satp, priv) {
      LeafIsNotBroken(bus, priv, va, RootTable(satp), 1);
      hide Walk, IsUser, PhysicalAddress, Ppn;
    }
  }

  lemma {:induction false} LeafIsNotBroken(bus: Bus, priv: Priv, va: Word, table: Word, level: nat)
    requires bus.pmp.Valid()
    ensures var w := Walk(bus, priv, va, table, level); w.Leaf? ==> !IsBroken(w.pte) && w.level <= level
    decreases level
  {
    hide Allowed, IsBroken, IsRead, IsExec, Ppn, PteAddress, TableAddress;
    match ReadPte(bus, priv, PteAddress(table, va, level))
    case None =>
    case Some(pte) =>
      if !(IsBroken(pte) || IsRead(pte) || IsExec(pte) || level == 0) {
        LeafIsNotBroken(bus, priv, va, TableAddress(Ppn(pte)), level - 1);
      }
  }

  // Translation is affine on every page

  /** `va` and `other` lie on the same page of the size that a leaf at `level` maps. */
  predicate SamePage(level: nat, va: Word, other: Word) {
    if level == 0 then va / 0x1000 == other / 0x1000 else va / 0x40_0000 == other / 0x40_0000
  }

  lemma SamePageSameVpn(leaf: nat, level: nat, va: Word, other: Word)
    requires SamePage(leaf, va, other) && leaf <= level
    ensures Vpn(va, level) == Vpn(other, level)
  {
    if leaf == 0 {
      assert va / 0x40_0000 == va / 0x1000 / 0x400 && other / 0x40_0000 == other / 0x1000 / 0x400;
    }
  }

  lemma {:induction false} SamePageSameWalk(bus: Bus, priv: Priv, va: Word, other: Word, table: Word, level: nat)
    requires bus.pmp.Valid()
    requires var w := Walk(bus, priv, va, table, level); w.Leaf? && SamePage(w.level, va, other)
    ensures Walk(bus, priv, other, table, level) == Walk(bus, priv, va, table, level)
    decreases level
  {
    hide Allowed, IsBroken, IsRead, IsExec, Ppn, Vpn, TableAddress, SamePage, ReadPte;
    LeafIsNotBroken(bus, priv, va, table, level);
    SamePageSameVpn(Walk(bus, priv, va, table, level).level, level, va, other);
    assert PteAddress(table, va, level) == PteAddress(table, other, level);
    hide PteAddress;
    var pte := ReadPte(bus, priv, PteAddress(table, va, level)).value;
    if !(IsRead(pte) || IsExec(pte)) {
      SamePageSameWalk(bus, priv, va, other, TableAddress(Ppn(pte)), level - 1);
    }
  }

  lemma AffineAddress(level: nat, pte: Word, va: Word, other: Word)
    requires SamePage(level, va, other)
    ensures PhysicalAddress(level, pte, other) == PhysicalAddress(level, pte, va) + (other - va)
    ensures Wrap(PhysicalAddress(level, pte, other)) == Wrap(PhysicalAddress(level, pte, va)) + (other - va)
  {
    if level == 0 {
      assert va == va / 0x1000 * 0x1000 + va % 0x1000 && other == other / 0x1000 * 0x1000 + other % 0x1000;
      PageDoesNotWrap(Ppn(pte), va % 0x1000, other % 0x1000);
    } else {
      assert va == va / 0x40_0000 * 0x40_0000 + va % 0x40_0000;
      assert other == other / 0x40_0000 * 0x40_0000 + other % 0x40_0000;
      SuperpageDoesNotWrap(Ppn(pte) / 0x400, va % 0x40_0000, other % 0x40_0000);
    }
  }

  lemma PageDoesNotWrap(ppn: nat, offset: nat, other: nat)
    requires offset < 0x1000 && other < 0x1000
    ensures Wrap(ppn * 0x1000 + other) == Wrap(ppn * 0x1000 + offset) + (other - offset)
  {
    var h, l := ppn / 0x10_0000, ppn % 0x10_0000;
    WrapDrops(h, l * 0x1000 + offset);
    WrapDrops(h, l * 0x1000 + other);
  }

  lemma SuperpageDoesNotWrap(ppn: nat, offset: nat, other: nat)
    requires offset < 0x40_0000 && other < 0x40_0000
    ensures Wrap(ppn * 0x40_0000 + other) == Wrap(ppn * 0x40_0000 + offset) + (other - offset)
  {
    var h, l := ppn / 0x400, ppn % 0x400;
    WrapDrops(h, l * 0x40_0000 + offset);
    WrapDrops(h, l * 0x40_0000 + other);
  }

  /** If va maps to pa through a 4 KiB or 4 MiB leaf, every address of that page maps alongside. */
  lemma TranslationIsAffine(bus: Bus, satp: Word, priv: Priv, va: Word, other: Word, access: Access, sum: bool, mxr: bool)
    requires bus.pmp.Valid() && !Bare(satp, priv)
    requires Translate(bus, satp, priv, va, access, sum, mxr).Success?
    requires SamePage(Walk(bus, priv, va, RootTable(satp), 1).level, va, other)
    ensures Translate(bus, satp, priv, other, access, sum, mxr)
         == Success(Translate(bus, satp, priv, va, access, sum, mxr).value + (other - va))
  {
    hide Walk, Usable, PhysicalAddress, SamePage, RootTable;
    SamePageSameWalk(bus, priv, va, other, RootTable(satp), 1);
    var w := Walk(bus, priv, va, RootTable(satp), 1);
    AffineAddress(w.level, w.pte, va, other);
  }

  // Page table updates

  /** Storing words that a walk does not read leaves the walk as it was. */
  lemma {:induction false} WalkIgnoresOtherStores(bus: Bus, priv: Priv, va: Word, table: Word, level: nat, a: Word, v: Word)
    requires bus.pmp.Valid() && a % 4 == 0
    requires a !in WalkReads(bus, priv, va, table, level)
    requires forall at :: at in WalkReads(bus, priv, va, table, level) ==> at % 4 == 0
    ensures var after := bus.(mem := WriteBytes(bus.mem, a, 4, v));
      Walk(after, priv, va, table, level) == Walk(bus, priv, va, table, level)
      && WalkReads(after, priv, va, table, level) == WalkReads(bus, priv, va, table, level)
    decreases level
  {
    hide Allowed, IsBroken, IsRead, IsExec, Ppn, PteAddress, TableAddress, WriteBytes, ReadBytes;
    var after := bus.(mem := WriteBytes(bus.mem, a, 4, v));
    var at := PteAddress(table, va, level);
    assert at in WalkReads(bus, priv, va, table, level);
    ReadApart(bus.mem, a, v, at);
    assert ReadPte(after, priv, at) == ReadPte(bus, priv, at);
    match ReadPte(bus, priv, at)
    case None =>
    case Some(pte) =>
      if !(IsBroken(pte) || IsRead(pte) || IsExec(pte) || level == 0) {
        var next := WalkReads(bus, priv, va, TableAddress(Ppn(pte)), level - 1);
        assert forall p :: p in next ==> p in WalkReads(bus, priv, va, table, level);
        WalkIgnoresOtherStores(bus, priv, va, TableAddress(Ppn(pte)), level - 1, a, v);
      }
  }

  /** A pointer to the table at page `ppn`, and a leaf for page `ppn` with the given flags. */
  function PointerPte(ppn: nat): Word
    requires Fits(ppn)
  {
    ppn * 0x400 + 1
  }

  function LeafPte(ppn: nat, flags: nat): Word
    requires Fits(ppn) && flags < 0x100
  {
    ppn * 0x400 + flags
  }

  /** Memory after a two-level mapping of the page of `va` to page `frame` was installed. */
  function Install(mem: Memory, root: nat, table: nat, va: Word, frame: nat, flags: nat): Memory
    requires Fits(root) && Fits(table) && Fits(frame) && flags < 0x100
  {
    var first := WriteBytes(mem, PteAddress(0x1000 * root, va, 1), 4, PointerPte(table));
    WriteBytes(first, PteAddress(0x1000 * table, va, 0), 4, LeafPte(frame, flags))
  }

  lemma EntryAddresses(table: nat, va: Word, level: nat)
    requires Fits(table)
    ensures var at := PteAddress(0x1000 * table, va, level);
      at % 4 == 0 && at / 0x1000 == table && at == 0x1000 * table + 4 * Vpn(va, level)
  {
    VpnBound(va, level);
    hide Vpn;
    EntryInTable(table, Vpn(va, level));
  }

  lemma PointerFields(ppn: nat)
    requires Fits(ppn)
    ensures var pte := PointerPte(ppn); !IsBroken(pte) && !IsRead(pte) && !IsExec(pte) && Ppn(pte) == ppn
  {
    assert PointerPte(ppn) / 2 == ppn * 0x200 && PointerPte(ppn) / 4 == ppn * 0x100 && PointerPte(ppn) / 8 == ppn * 0x80;
  }

  /** The two entries of an installed mapping are found where they were stored. */
  lemma InstalledEntries(bus: Bus, root: nat, table: nat, priv: Priv, va: Word, frame: nat, flags: nat)
    requires bus.pmp.Valid() && Fits(root) && Fits(table) && Fits(frame) && flags < 0x100
    requires PteAddress(0x1000 * root, va, 1) != PteAddress(0x1000 * table, va, 0)
    requires Allowed(bus.pmp, priv, PteAddress(0x1000 * root, va, 1), 4, Read)
    requires Allowed(bus.pmp, priv, PteAddress(0x1000 * table, va, 0), 4, Read)
    ensures var after := bus.(mem := Install(bus.mem, root, table, va, frame, flags));
      && ReadPte(after, priv, PteAddress(0x1000 * root, va, 1)) == Some(PointerPte(table))
      && ReadPte(after, priv, PteAddress(0x1000 * table, va, 0)) == Some(LeafPte(frame, flags))
  {
    var at1, at0 := PteAddress(0x1000 * root, va, 1), PteAddress(0x1000 * table, va, 0);
    EntryAddresses(root, va, 1);
    EntryAddresses(table, va, 0);
    hide Allowed, PteAddress, PointerPte, LeafPte, WriteBytes, ReadBytes, Fits, Vpn;
    var first := WriteBytes(bus.mem, at1, 4, PointerPte(table));
    ReadBack(bus.mem, at1, PointerPte(table));
    ReadApart(first, at0, LeafPte(frame, flags), at1);
    ReadBack(first, at0, LeafPte(frame, flags));
  }

  lemma TwoLevelWalk(bus: Bus, root: nat, table: nat, priv: Priv, va: Word, leaf: Word)
    requires bus.pmp.Valid() && Fits(root) && Fits(table)
    requires ReadPte(bus, priv, PteAddress(0x1000 * root, va, 1)) == Some(PointerPte(table))
    requires ReadPte(bus, priv, PteAddress(0x1000 * table, va, 0)) == Some(leaf)
    requires !IsBroken(leaf) && (IsRead(leaf) || IsExec(leaf))
    ensures Walk(bus, priv, va, 0x1000 * root, 1) == Leaf(0, leaf)
  {
    PointerFields(table);
    TableAddressFits(table);
    hide Allowed, IsBroken, IsRead, IsExec, Ppn, ReadPte, PteAddress, TableAddress, Fits, PointerPte;
    assert Walk(bus, priv, va, 0x1000 * table, 0) == Leaf(0, leaf);
  }

  lemma RootOf(root: nat)
    requires Fits(root)
    ensures !Bare(0x8000_0000 + root, USER) && RootTable(0x8000_0000 + root) == 0x1000 * root
  {
  }

  /** Both indices of the address are the same. */
  predicate SelfIndexed(va: Word) {
    va / 0x40_0000 == va / 0x1000 % 0x400
  }

  /** The two entries of an installation are the same word exactly if the root is its own table and the numbers agree. */
  lemma EntriesCoincide(root: nat, table: nat, va: Word)
    requires Fits(root) && Fits(table)
    ensures PteAddress(0x1000 * root, va, 1) == PteAddress(0x1000 * table, va, 0) <==> root == table && SelfIndexed(va)
  {
    hide PteAddress, Vpn, Fits;
    EntryAddresses(root, va, 1);
    EntryAddresses(table, va, 0);
    AddressParts(va);
  }

  /**
    * After installing a mapping, its page translates to its frame, unless the second store
    * overwrote the pointer. The root may be its own second-level table.
    */
  lemma InstalledPageTranslates(bus: Bus, root: nat, table: nat, priv: Priv, va: Word, frame: nat, flags: nat,
                                access: Access, sum: bool, mxr: bool)
    requires bus.pmp.Valid() && Fits(root) && Fits(table) && Fits(frame) && flags < 0x100
    requires !(root == table && SelfIndexed(va)) && priv != MACHINE
    requires Allowed(bus.pmp, priv, PteAddress(0x1000 * root, va, 1), 4, Read)
    requires Allowed(bus.pmp, priv, PteAddress(0x1000 * table, va, 0), 4, Read)
    requires var pte := LeafPte(frame, flags);
      !IsBroken(pte) && (IsRead(pte) || IsExec(pte)) && Usable(0, pte, priv, access, sum, mxr)
    ensures Translate(bus.(mem := Install(bus.mem, root, table, va, frame, flags)), 0x8000_0000 + root,
                      priv, va, access, sum, mxr) == Success(0x1000 * frame + va % 0x1000)
  {
    hide Allowed, IsBroken, IsRead, IsExec, Usable, PhysicalAddress, PteAddress, ReadPte,
      TableAddress, RootTable, PointerPte, LeafPte, Install, Walk, SelfIndexed;
    var after := bus.(mem := Install(bus.mem, root, table, va, frame, flags));
    EntriesCoincide(root, table, va);
    InstalledEntries(bus, root, table, priv, va, frame, flags);
    TwoLevelWalk(after, root, table, priv, va, LeafPte(frame, flags));
    LeafFrame(frame, flags, va);
    RootOf(root);
  }

  /** The case of unit_tests.c: the root page is its own second-level table. */
  lemma SelfMappedPageTranslates(bus: Bus, root: nat, priv: Priv, va: Word, frame: nat, flags: nat,
                                 access: Access, sum: bool, mxr: bool)
    requires bus.pmp.Valid() && Fits(root) && Fits(frame) && flags < 0x100 && priv != MACHINE
    requires Allowed(bus.pmp, priv, PteAddress(0x1000 * root, va, 1), 4, Read)
    requires Allowed(bus.pmp, priv, PteAddress(0x1000 * root, va, 0), 4, Read)
    requires var pte := LeafPte(frame, flags);
      !IsBroken(pte) && (IsRead(pte) || IsExec(pte)) && Usable(0, pte, priv, access, sum, mxr)
    ensures var r := Translate(bus.(mem := Install(bus.mem, root, root, va, frame, flags)), 0x8000_0000 + root,
                               priv, va, access, sum, mxr);
      if !SelfIndexed(va) then r == Success(0x1000 * frame + va % 0x1000)
      else if frame % 0x400 == 0 then r == Success(0x1000 * frame + va % 0x40_0000)
      else r == Failure(Fault(PageFault(access), va))
  {
    hide Allowed, IsBroken, IsRead, IsExec, PhysicalAddress, RootTable, LeafPte, Install, Walk, SelfIndexed, Permits,
      IsAccessed, IsDirty, Bare, PteAddress, Fits;
    if !SelfIndexed(va) {
      InstalledPageTranslates(bus, root, root, priv, va, frame, flags, access, sum, mxr);
    } else {
      OverwrittenPointer(bus, root, priv, va, frame, flags);
      RootOf(root);
      BareByLevel(0x8000_0000 + root, priv);
      SuperpageFrame(frame, flags, va);
    }
  }

  lemma BareByLevel(satp: Word, priv: Priv)
    requires priv != MACHINE
    ensures Bare(satp, priv) == Bare(satp, USER)
  {
  }

  /**
    * With equal page numbers the leaf overwrites the pointer to the root: the walk ends at level 1,
    * and the mapping is a superpage.
    */
  lemma OverwrittenPointer(bus: Bus, root: nat, priv: Priv, va: Word, frame: nat, flags: nat)
    requires bus.pmp.Valid() && Fits(root) && Fits(frame) && flags < 0x100 && SelfIndexed(va)
    requires Allowed(bus.pmp, priv, PteAddress(0x1000 * root, va, 1), 4, Read)
    requires var pte := LeafPte(frame, flags); !IsBroken(pte) && (IsRead(pte) || IsExec(pte))
    ensures Walk(bus.(mem := Install(bus.mem, root, root, va, frame, flags)), priv, va, 0x1000 * root, 1)
         == Leaf(1, LeafPte(frame, flags))
  {
    var at := PteAddress(0x1000 * root, va, 1);
    EntriesCoincide(root, root, va);
    hide Allowed, IsBroken, IsRead, IsExec, PteAddress, SelfIndexed, PointerPte, LeafPte, WriteBytes, ReadBytes, Fits;
    ReadBack(WriteBytes(bus.mem, at, 4, PointerPte(root)), at, LeafPte(frame, flags));
  }

  lemma SuperpageFrame(frame: nat, flags: nat, va: Word)
    requires Fits(frame) && flags < 0x100
    ensures Ppn(LeafPte(frame, flags)) == frame
    ensures frame % 0x400 == 0 ==> Wrap(PhysicalAddress(1, LeafPte(frame, flags), va)) == 0x1000 * frame + va % 0x40_0000
  {
    assert Ppn(LeafPte(frame, flags)) == frame;
  }

  lemma LeafFrame(frame: nat, flags: nat, va: Word)
    requires Fits(frame) && flags < 0x100
    ensures Wrap(PhysicalAddress(0, LeafPte(frame, flags), va)) == 0x1000 * frame + va % 0x1000
  {
    assert Ppn(LeafPte(frame, flags)) == frame;
  }

  /**
    * Installing a mapping leaves every page alone whose walk reads neither of the two entries it
    * wrote: in particular all pages with another first-level number that use other tables.
    */
  lemma OtherPagesKeepTheirTranslation(bus: Bus, root: nat, table: nat, priv: Priv, va: Word, frame: nat, flags: nat,
                                       other: Word, access: Access, sum: bool, mxr: bool)
    requires bus.pmp.Valid() && Fits(root) && Fits(table) && Fits(frame) && flags < 0x100 && priv != MACHINE
    requires var entries := WalkReads(bus, priv, other, 0x1000 * root, 1);
      && PteAddress(0x1000 * root, va, 1) !in entries
      && PteAddress(0x1000 * table, va, 0) !in entries
    ensures Translate(bus.(mem := Install(bus.mem, root, table, va, frame, flags)), 0x8000_0000 + root,
                      priv, other, access, sum, mxr)
         == Translate(bus, 0x8000_0000 + root, priv, other, access, sum, mxr)
  {
    hide Walk, WalkReads, Usable, PhysicalAddress, WriteBytes, PteAddress, TableAddress, PointerPte, LeafPte,
      Vpn, RootTable, Bare, Allowed, PageFault, AccessFault;
    var at1, at0 := PteAddress(0x1000 * root, va, 1), PteAddress(0x1000 * table, va, 0);
    var first := bus.(mem := WriteBytes(bus.mem, at1, 4, PointerPte(table)));
    EntryAddresses(root, va, 1);
    EntryAddresses(table, va, 0);
    RootOf(root);
    WalkReadsAligned(bus, priv, other, 0x1000 * root, 1);
    WalkIgnoresOtherStores(bus, priv, other, 0x1000 * root, 1, at1, PointerPte(table));
    WalkIgnoresOtherStores(first, priv, other, 0x1000 * root, 1, at0, LeafPte(frame, flags));
  }

  /** Two addresses lie in the same 4 MiB, and in the same 4 KiB. */
  predicate SameMegapage(va: Word, other: Word) {
    va / 0x40_0000 == other / 0x40_0000
  }

  predicate SameSmallPage(va: Word, other: Word) {
    va / 0x1000 == other / 0x1000
  }

  /**
    * The table that `other` uses below the root, if any: in the same 4 MiB as `va` it is already
    * the table of the mapping, and elsewhere it is a table of its own.
    */
  predicate Separate(bus: Bus, root: nat, table: nat, priv: Priv, va: Word, other: Word)
    requires bus.pmp.Valid() && Fits(root) && Fits(table)
  {
    match ReadPte(bus, priv, PteAddress(0x1000 * root, other, 1))
    case None => !SameMegapage(va, other)
    case Some(pte) =>
      if SameMegapage(va, other) then pte == PointerPte(table)
      else IsBroken(pte) || IsRead(pte) || IsExec(pte)
           || (TableAddress(Ppn(pte)) / 0x1000 != root && TableAddress(Ppn(pte)) / 0x1000 != table)
  }

  lemma DifferentEntries(table: nat, va: Word, other: Word, level: nat)
    requires Fits(table)
    ensures PteAddress(0x1000 * table, va, level) == PteAddress(0x1000 * table, other, level) <==> Vpn(va, level) == Vpn(other, level)
  {
    EntryAddresses(table, va, level);
    EntryAddresses(table, other, level);
  }

  lemma PageOfEntry(ppn: nat, va: Word, level: nat)
    ensures PteAddress(TableAddress(ppn), va, level) / 0x1000 == TableAddress(ppn) / 0x1000
  {
    TableAddressAligned(ppn);
    EntryAddresses(TableAddress(ppn) / 0x1000, va, level);
  }

  /** The walk of a page under another first-level number reads neither installed entry. */
  lemma SeparateWalkReads(bus: Bus, root: nat, table: nat, priv: Priv, va: Word, other: Word)
    requires bus.pmp.Valid() && Fits(root) && Fits(table) && root != table
    requires !SameMegapage(va, other) && Separate(bus, root, table, priv, va, other)
    ensures var entries := WalkReads(bus, priv, other, 0x1000 * root, 1);
      PteAddress(0x1000 * root, va, 1) !in entries && PteAddress(0x1000 * table, va, 0) !in entries
  {
    EntryAddresses(root, va, 1);
    EntryAddresses(root, other, 1);
    EntryAddresses(table, va, 0);
    DifferentEntries(root, va, other, 1);
    SamePage4K(va, other);
    hide PteAddress, Vpn, TableAddress, Fits, IsBroken, IsRead, IsExec, Allowed, Ppn, ReadPte;
    match ReadPte(bus, priv, PteAddress(0x1000 * root, other, 1))
    case None =>
    case Some(pte) =>
      PageOfEntry(Ppn(pte), other, 0);
      assert WalkReads(bus, priv, other, TableAddress(Ppn(pte)), 0) == [PteAddress(TableAddress(Ppn(pte)), other, 0)];
  }

  /** What reading the entries of `other` gives after an installation under the same first-level number. */
  lemma SiblingReads(bus: Bus, root: nat, table: nat, priv: Priv, va: Word, frame: nat, flags: nat, other: Word)
    requires bus.pmp.Valid() && Fits(root) && Fits(table) && Fits(frame) && flags < 0x100 && root != table
    requires SameMegapage(va, other) && !SameSmallPage(va, other) && Separate(bus, root, table, priv, va, other)
    ensures var after := bus.(mem := Install(bus.mem, root, table, va, frame, flags));
      var at1, at := PteAddress(0x1000 * root, other, 1), PteAddress(0x1000 * table, other, 0);
      && (ReadPte(bus, priv, at1).Some? ==> ReadPte(after, priv, at1) == ReadPte(bus, priv, at1) == Some(PointerPte(table)))
      && ReadPte(after, priv, at) == ReadPte(bus, priv, at)
  {
    var at1, at0, at := PteAddress(0x1000 * root, va, 1), PteAddress(0x1000 * table, va, 0), PteAddress(0x1000 * table, other, 0);
    EntryAddresses(root, va, 1);
    EntryAddresses(table, va, 0);
    EntryAddresses(table, other, 0);
    DifferentEntries(root, va, other, 1);
    DifferentEntries(table, va, other, 0);
    SamePage4K(va, other);
    hide PteAddress, Vpn, TableAddress, Fits, IsBroken, IsRead, IsExec, Allowed, Ppn, PointerPte, LeafPte, WriteBytes, ReadBytes;
    var first := WriteBytes(bus.mem, at1, 4, PointerPte(table));
    ReadBack(bus.mem, at1, PointerPte(table));
    ReadApart(first, at0, LeafPte(frame, flags), at1);
    ReadApart(bus.mem, at1, PointerPte(table), at);
    ReadApart(first, at0, LeafPte(frame, flags), at);
  }

  /** The sibling pages of one table: only the entry of `va` is overwritten. */
  lemma SiblingWalk(bus: Bus, root: nat, table: nat, priv: Priv, va: Word, frame: nat, flags: nat, other: Word)
    requires bus.pmp.Valid() && Fits(root) && Fits(table) && Fits(frame) && flags < 0x100 && root != table
    requires SameMegapage(va, other) && !SameSmallPage(va, other) && Separate(bus, root, table, priv, va, other)
    ensures Walk(bus.(mem := Install(bus.mem, root, table, va, frame, flags)), priv, other, 0x1000 * root, 1)
         == Walk(bus, priv, other, 0x1000 * root, 1)
  {
    SiblingReads(bus, root, table, priv, va, frame, flags, other);
    PointerFields(table);
    TableAddressFits(table);
    SamePage4K(va, other);
    hide PteAddress, Vpn, TableAddress, Fits, IsBroken, IsRead, IsExec, Ppn, PointerPte, ReadPte, Install;
    var after := bus.(mem := Install(bus.mem, root, table, va, frame, flags));
    assert Walk(after, priv, other, 0x1000 * table, 0) == Walk(bus, priv, other, 0x1000 * table, 0);
  }

  /** With separate tables, installing a mapping changes the translation of no page with another number. */
  lemma SeparatePagesAreUnchanged(bus: Bus, root: nat, table: nat, priv: Priv, va: Word, frame: nat, flags: nat,
                                  other: Word, access: Access, sum: bool, mxr: bool)
    requires bus.pmp.Valid() && Fits(root) && Fits(table) && Fits(frame) && flags < 0x100
    requires root != table && priv != MACHINE
    requires !SameSmallPage(va, other) && Separate(bus, root, table, priv, va, other)
    ensures Translate(bus.(mem := Install(bus.mem, root, table, va, frame, flags)), 0x8000_0000 + root,
                      priv, other, access, sum, mxr)
         == Translate(bus, 0x8000_0000 + root, priv, other, access, sum, mxr)
  {
    hide Walk, WalkReads, Usable, PhysicalAddress, PteAddress, Separate, Install, RootTable, Allowed, ReadPte, SameMegapage, SameSmallPage;
    if !SameMegapage(va, other) {
      SeparateWalkReads(bus, root, table, priv, va, other);
      OtherPagesKeepTheirTranslation(bus, root, table, priv, va, frame, flags, other, access, sum, mxr);
    } else {
      SiblingWalk(bus, root, table, priv, va, frame, flags, other);
      RootOf(root);
    }
  }

  lemma TableAddressAligned(ppn: nat)
    ensures TableAddress(ppn) % 0x1000 == 0
  {
  }

  lemma {:induction false} WalkReadsAligned(bus: Bus, priv: Priv, va: Word, table: Word, level: nat)
    requires bus.pmp.Valid() && table % 0x1000 == 0
    ensures forall at :: at in WalkReads(bus, priv, va, table, level) ==> at % 4 == 0
    decreases level
  {
    PteAddressFits(table, va, level);
    hide Allowed, IsBroken, IsRead, IsExec, Vpn, PteAddress, ReadPte, Ppn, TableAddress;
    match ReadPte(bus, priv, PteAddress(table, va, level))
    case None =>
    case Some(pte) =>
      if !(IsBroken(pte) || IsRead(pte) || IsExec(pte) || level == 0) {
        TableAddressAligned(Ppn(pte));
        WalkReadsAligned(bus, priv, va, TableAddress(Ppn(pte)), level - 1);
      }
  }
}
