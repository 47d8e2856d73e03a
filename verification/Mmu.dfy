/** Sv32 address translation (src/core/mmu/mmu.c) as a declarative walk over PMP-checked memory. */
module Mmu {
  import opened Words
  import opened Pmp

  // Exception causes of accesses

  function AccessFault(access: Access): Cause {
    match access case Fetch => 1 case Read => 5 case Write => 7
  }

  function PageFault(access: Access): Cause {
    match access case Fetch => 12 case Read => 13 case Write => 15
  }

  // Page table entries: PPN ... D A G U X W R V

  predicate IsValid(pte: Word) { pte % 2 == 1 }
  predicate IsRead(pte: Word) { pte / 2 % 2 == 1 }
  predicate IsWrite(pte: Word) { pte / 4 % 2 == 1 }
  predicate IsExec(pte: Word) { pte / 8 % 2 == 1 }
  predicate IsUser(pte: Word) { pte / 16 % 2 == 1 }
  predicate IsAccessed(pte: Word) { pte / 64 % 2 == 1 }
  predicate IsDirty(pte: Word) { pte / 128 % 2 == 1 }

  function Ppn(pte: Word): nat { pte / 0x400 }

  function Vpn(va: Word, level: nat): nat {
    if level == 0 then va / 0x1000 % 0x400 else va / 0x40_0000 % 0x400
  }

  /** Where the walk finds the entry for `va` in the table at `table`. */
  function PteAddress(table: Word, va: Word, level: nat): Word {
    Wrap(table + 4 * Vpn(va, level))
  }

  function TableAddress(ppn: nat): Word {
    Wrap(0x1000 * ppn)
  }

  /** Memory behind the PMP unit. */
  datatype Bus = Bus(pmp: PmpState, mem: Memory)

  /** The word at `a` if the PMP unit lets this privilege read it. */
  function ReadPte(bus: Bus, priv: Priv, a: Word): Option<Word>
    requires bus.pmp.Valid()
  {
    if Allowed(bus.pmp, priv, a, 4, Read) then Some(ReadBytes(bus.mem, a, 4)) else None
  }

  datatype WalkResult =
    | Leaf(level: nat, pte: Word)
    | NoLeaf
    | Denied(at: Word)

  /** Step 3 of section 4.3.2 of the Privileged Spec. */
  predicate IsBroken(pte: Word) {
    !IsValid(pte) || (!IsRead(pte) && IsWrite(pte))
  }

  /** Steps 2 to 4: descend from `table` until an entry is a leaf, is broken or cannot be read. */
  function Walk(bus: Bus, priv: Priv, va: Word, table: Word, level: nat): WalkResult
    requires bus.pmp.Valid()
    decreases level
  {
    var at := PteAddress(table, va, level);
    match ReadPte(bus, priv, at)
    case None => Denied(at)
    case Some(pte) =>
      if IsBroken(pte) then NoLeaf
      else if IsRead(pte) || IsExec(pte) then Leaf(level, pte)
      else if level == 0 then NoLeaf
      else Walk(bus, priv, va, TableAddress(Ppn(pte)), level - 1)
  }

  /** Step 5, as the code decides it. */
  predicate Permits(pte: Word, priv: Priv, access: Access, sum: bool, mxr: bool) {
    (priv == USER ==> IsUser(pte))
    && (priv == SUPERVISOR && IsUser(pte) ==> sum)
    && match access
       case Read => IsRead(pte) || (mxr && IsExec(pte))
       case Write => IsWrite(pte)
       case Fetch => IsExec(pte)
  }

  /** Steps 5 to 7: the leaf allows the access, is aligned and has its A and D bits set. */
  predicate Usable(level: nat, pte: Word, priv: Priv, access: Access, sum: bool, mxr: bool) {
    Permits(pte, priv, access, sum, mxr)
    && (level > 0 ==> Ppn(pte) % 0x400 == 0)
    && IsAccessed(pte) && (access == Write ==> IsDirty(pte))
  }

  /** Step 8: the 34-bit physical address. */
  function PhysicalAddress(level: nat, pte: Word, va: Word): nat {
    if level == 0 then Ppn(pte) * 0x1000 + va % 0x1000
    else Ppn(pte) / 0x400 * 0x40_0000 + va % 0x40_0000
  }

  predicate Bare(satp: Word, priv: Priv) {
    priv == MACHINE || satp / 0x8000_0000 == 0
  }

  function RootTable(satp: Word): Word {
    TableAddress(satp % 0x40_0000)
  }

  /**
    * The translation of an access: a physical address, or the first exception it latches. A page
    * table read that PMP denies is a load access fault at the address of the entry.
    */
  function Translate(bus: Bus, satp: Word, priv: Priv, va: Word, access: Access, sum: bool, mxr: bool): Result<Word, Fault>
    requires bus.pmp.Valid()
  {
    if Bare(satp, priv) then Success(va)
    else match Walk(bus, priv, va, RootTable(satp), 1)
      case Denied(at) => Failure(Fault(AccessFault(Read), at))
      case NoLeaf => Failure(Fault(PageFault(access), va))
      case Leaf(level, pte) =>
        if Usable(level, pte, priv, access, sum, mxr) then Success(Wrap(PhysicalAddress(level, pte, va)))
        else Failure(Fault(PageFault(access), va))
  }
}
