/** The PMP check against section 3.6.1 of the Privileged Spec. */
module PmpSpec {
  import opened Words
  import opened Quotients
  import opened Pmp
  import opened PmpProofs

  /** Address registers from here on stand for addresses beyond 32 bits. */
  const REACH: Word := 0x4000_0000

  // Ranges of the specification, over 34-bit addresses

  /** The size of a NAPOT range: 2^(t + 3) bytes for t trailing ones. */
  function SpecSize(addr: Word): (size: nat)
    ensures size >= 1
  {
    if addr == LIMIT - 1 then Pow2(35) else Pow2(Ffs(Complement(addr)) + 2)
  }

  /** Byte `b` lies in the range of a mode (1 TOR, 2 NA4, 3 NAPOT), the register before and the register itself. */
  predicate SpecWithin(mode: nat, previous: Word, addr: Word, b: nat) {
    if mode == 1 then 4 * previous <= b < 4 * addr
    else if mode == 3 then Upper(b, SpecSize(addr)) == Upper(4 * addr, SpecSize(addr))
    else 4 * addr <= b < 4 * addr + 4
  }

  function Previous(p: PmpState, k: nat): Word
    requires p.Valid() && k < ENTRIES
  {
    if k == 0 then 0 else p.addr[k - 1]
  }

  predicate SpecMatches(p: PmpState, k: nat, b: nat)
    requires p.Valid() && k < ENTRIES
  {
    MatchingField(p.cfg[k]) != 0 && SpecWithin(MatchingField(p.cfg[k]), Previous(p, k), p.addr[k], b)
  }

  /** The code and the specification give the entry the same bytes of the 32-bit bus. */
  ghost predicate SameRange(p: PmpState, k: nat)
    requires p.Valid() && k < ENTRIES
  {
    forall b: Word :: Matches(p, k, b) <==> SpecMatches(p, k, b)
  }

  /** The first byte of a NAPOT range, a 34-bit address. */
  function SpecBase(addr: Word): nat {
    Upper(4 * addr, SpecSize(addr)) * SpecSize(addr)
  }

  /** When a TOR, a NA4 and a NAPOT entry cover the bytes that the specification gives them. */
  predicate FaithfulTor(previous: Word, addr: Word) {
    if previous < REACH then addr < REACH else Times4(previous) >= Times4(addr)
  }

  predicate FaithfulNa4(addr: Word) {
    if addr < REACH then addr != REACH - 1 else Times4(addr) == LIMIT - 4
  }

  predicate FaithfulNapot(addr: Word) {
    addr != LIMIT - 1
    && if SpecBase(addr) < LIMIT then SpecBase(addr) + SpecSize(addr) != LIMIT
       else Wrap(SpecBase(addr)) + SpecSize(addr) == LIMIT
  }

  predicate Faithful(mode: Byte, previous: Word, addr: Word) {
    if mode == OFF then true
    else if mode == TOR then FaithfulTor(previous, addr)
    else if mode == NAPOT then FaithfulNapot(addr)
    else FaithfulNa4(addr)
  }

  lemma Times4Splits(addr: Word)
    ensures Times4(addr) % 4 == 0
    ensures 4 * addr == Times4(addr) + 0x1_0000_0000 * (addr / 0x4000_0000)
    ensures addr < REACH ==> Times4(addr) == 4 * addr
    ensures addr >= REACH ==> 4 * addr >= LIMIT
  {
    var q, r := addr / 0x4000_0000, addr % 0x4000_0000;
    assert addr == 0x4000_0000 * q + r;
    WrapDrops(q, 4 * r);
  }

  lemma TorRange(previous: Word, addr: Word)
    ensures (forall b: Word :: Within(b, RegionOf(TOR, Times4(previous), addr)) <==> SpecWithin(TOR, previous, addr, b))
        <==> FaithfulTor(previous, addr)
  {
    Times4Splits(previous);
    Times4Splits(addr);
    forall b: Word
      ensures Within(b, RegionOf(TOR, Times4(previous), addr)) <==> Times4(previous) <= b < Times4(addr)
    {
      TorCovers(Times4(previous), addr, b);
    }
    hide RegionOf, Times4, Within;
    var last: Word := LIMIT - 1;
    assert Within(last, RegionOf(TOR, Times4(previous), addr)) <==> Times4(previous) <= last < Times4(addr);
    assert SpecWithin(TOR, previous, addr, last) <==> 4 * previous <= last < 4 * addr;
    var first := Times4(previous);
    assert Within(first, RegionOf(TOR, Times4(previous), addr)) <==> Times4(previous) < Times4(addr);
    assert SpecWithin(TOR, previous, addr, first) <==> 4 * previous <= first < 4 * addr;
  }

  lemma Na4Range(previous: Word, base: Word, addr: Word)
    ensures (forall b: Word :: Within(b, RegionOf(NA4, base, addr)) <==> SpecWithin(NA4, previous, addr, b))
        <==> FaithfulNa4(addr)
  {
    Times4Splits(addr);
    forall b: Word
      ensures Within(b, RegionOf(NA4, base, addr)) <==> Times4(addr) <= b < Times4(addr) + 4 && Times4(addr) != LIMIT - 4
    {
    }
    hide RegionOf, Times4, Within;
    var first := Times4(addr);
    assert Within(first, RegionOf(NA4, base, addr)) <==> Times4(addr) != LIMIT - 4;
    assert SpecWithin(NA4, previous, addr, first) <==> 4 * addr <= first;
  }

  /** A positive number is an odd one shifted left to its lowest set bit. */
  lemma {:induction false} LowestBit(v: nat) returns (h: nat)
    requires v > 0
    ensures Ffs(v) >= 1 && v == Pow2(Ffs(v) - 1) * (2 * h + 1)
    decreases v
  {
    if v % 2 == 1 {
      h := v / 2;
    } else {
      h := LowestBit(v / 2);
      assert v == 2 * (v / 2);
    }
  }

  lemma FactorAddress(addr: Word, p: nat, r: nat, h: nat) returns (q: nat)
    requires 1 <= p && 2 * (p * r) == LIMIT && Complement(addr) == p * (2 * h + 1)
    ensures addr == 2 * (p * q) + p - 1
  {
    assert p * (2 * h + 1) == 2 * (p * h) + p;
    Below(h, r, p);
    q := r - h - 1;
    assert p * q == p * r - p * h - p;
  }

  lemma ShapeFactors(n: nat)
    requires 3 <= n < 32
    ensures var p, r := Pow2(n - 3), Pow2(32 - n);
      Pow2(n) == 8 * p && 8 * p < LIMIT && 8 * p * r == LIMIT && 2 * (p * (4 * r)) == LIMIT
  {
    hide Pow2;
    EightTimes(n - 3);
    Pow2Sum(n, 32 - n);
    Pow2Word();
    Pow2Below(n);
    Regrouped(Pow2(n - 3), Pow2(32 - n));
  }

  lemma Regrouped(p: nat, r: nat)
    ensures 2 * (p * (4 * r)) == 8 * p * r
  {
  }

  /** The parts of a NAPOT address: `p` one-bits below the number `q` of its block of 8 * p bytes. */
  lemma NapotShape(addr: Word) returns (p: nat, q: nat, r: nat)
    requires addr != LIMIT - 1 && Ffs(Complement(addr)) <= 29
    ensures 1 <= p && 8 * p < LIMIT && 8 * p * r == LIMIT && addr == 2 * (p * q) + p - 1
    ensures SpecSize(addr) == 8 * p && NapotSize(addr) == 8 * p
  {
    hide Ffs, Pow2, NapotSize;
    var h := LowestBit(Complement(addr));
    var n := Ffs(Complement(addr)) + 2;
    SizeOfCount(addr, n);
    ShapeFactors(n);
    p, r := Pow2(n - 3), Pow2(32 - n);
    q := FactorAddress(addr, p, 4 * r, h);
  }

  /** What both sides make of such an address. */
  lemma NapotParts(addr: Word, p: nat, q: nat, r: nat, b: Word)
    requires 1 <= p && 8 * p < LIMIT && 8 * p * r == LIMIT && addr == 2 * (p * q) + p - 1
    requires SpecSize(addr) == 8 * p && NapotSize(addr) == 8 * p && addr != LIMIT - 1
    ensures SpecBase(addr) == 8 * p * q
    ensures forall previous: Word :: SpecWithin(NAPOT, previous, addr, b) <==> 8 * p * q <= b < 8 * p * q + 8 * p
    ensures forall base: Word :: RegionOf(NAPOT, base, addr) == Region(Wrap(8 * p * q), 8 * p)
    ensures Wrap(8 * p * q) + 8 * p <= LIMIT
  {
    hide NapotSize, SpecSize;
    var size := 8 * p;
    assert size * q == 8 * (p * q);
    Unique(4 * addr, size, q, 4 * p - 4);
    InBlock(b, size, q);
    assert Wrap(size / 2 - 1) / 4 == p - 1;
    assert NapotStart(addr) == Wrap(size * q);
    WrappedBlock(size, r, q);
  }

  lemma InBlock(b: nat, size: nat, q: nat)
    requires size > 0
    ensures Upper(b, size) == q <==> size * q <= b < size * q + size
  {
    Split(b, size);
    if size * q <= b < size * q + size {
      Unique(b, size, q, b - size * q);
    }
  }

  /** Blocks keep their alignment when their address wraps. */
  lemma WrappedBlock(size: nat, r: nat, q: nat)
    requires size > 0 && size * r == LIMIT
    ensures Wrap(size * q) + size <= LIMIT
  {
    var m := q / r;
    var rest := q % r;
    assert r > 0;
    assert q == m * r + rest;
    assert size * q == LIMIT * m + size * rest by {
      assert size * (m * r) == size * r * m;
      assert size * q == size * (m * r) + size * rest;
    }
    assert size * rest + size <= LIMIT by {
      Monotone(rest + 1, r, size);
      assert (rest + 1) * size == size * rest + size;
    }
    WrapDrops(m, size * rest);
  }

  /** The block of a NAPOT address, and the range that the code tests for it. */
  lemma NapotBlock(previous: Word, base: Word, addr: Word) returns (start: nat, size: Word)
    requires addr != LIMIT - 1 && Ffs(Complement(addr)) <= 29
    ensures size > 0 && SpecSize(addr) == size && SpecBase(addr) == start && Wrap(start) + size <= LIMIT
    ensures RegionOf(NAPOT, base, addr) == Region(Wrap(start), size)
    ensures forall b: Word :: SpecWithin(NAPOT, previous, addr, b) <==> start <= b < start + size
  {
    hide RegionOf, SpecWithin, SpecSize, SpecBase, NapotSize, Ffs, Complement, Wrap;
    var p, q, r := NapotShape(addr);
    start, size := 8 * p * q, 8 * p;
    NapotParts(addr, p, q, r, 0);
    forall b: Word
      ensures SpecWithin(NAPOT, previous, addr, b) <==> start <= b < start + size
    {
      NapotParts(addr, p, q, r, b);
    }
  }

  lemma NapotRange(previous: Word, base: Word, addr: Word)
    requires addr != LIMIT - 1 ==> Ffs(Complement(addr)) <= 29
    ensures (forall b: Word :: Within(b, RegionOf(NAPOT, base, addr)) <==> SpecWithin(NAPOT, previous, addr, b))
        <==> FaithfulNapot(addr)
  {
    hide RegionOf, SpecWithin, SpecSize, SpecBase, Within, Wrap, Ffs, Complement;
    if addr == LIMIT - 1 {
      var last: Word := LIMIT - 1;
      AllOnesMisses(base);
      AllOnesCovers(previous, last);
      assert !Within(last, RegionOf(NAPOT, base, addr)) && SpecWithin(NAPOT, previous, addr, last);
    } else {
      var start, size := NapotBlock(previous, base, addr);
      SameBlock(start, size);
    }
  }

  lemma AllOnesMisses(base: Word)
    ensures !Within(LIMIT - 1, RegionOf(NAPOT, base, LIMIT - 1))
  {
  }

  lemma AllOnesCovers(previous: Word, b: Word)
    ensures SpecWithin(NAPOT, previous, LIMIT - 1, b)
  {
    Pow2Word();
    Pow2Sum(32, 3);
    assert Pow2(3) == 8;
    Small(b, Pow2(35));
    Small(4 * (LIMIT - 1), Pow2(35));
  }

  /** A block of 34-bit addresses and the wrapped range the code tests. */
  lemma SameBlock(start: nat, size: Word)
    requires size > 0 && Wrap(start) + size <= LIMIT
    ensures (forall b: Word :: Within(b, Region(Wrap(start), size)) <==> start <= b < start + size)
        <==> if start < LIMIT then start + size != LIMIT else Wrap(start) + size == LIMIT
  {
    var first := Wrap(start);
    assert Within(first, Region(Wrap(start), size)) <==> first + size != LIMIT;
  }

  /** An entry stands for the bytes that the specification gives it exactly under these conditions. */
  lemma SameRangeExactly(p: PmpState, k: nat)
    requires p.Valid() && k < ENTRIES && ShiftsDefined(p)
    ensures SameRange(p, k) <==> Faithful(Mode(p.cfg[k]), Previous(p, k), p.addr[k])
  {
    hide RegionOf, SpecWithin, Within, FaithfulTor, FaithfulNa4, FaithfulNapot, Mode, Ffs, MatchingField, Times4;
    var mode, previous, addr := Mode(p.cfg[k]), Previous(p, k), p.addr[k];
    var base := if k == 0 then 0 else Times4(p.addr[k - 1]);
    ConfigurationBits(p.cfg[k]);
    ZeroTimes4();
    TorRange(previous, addr);
    Na4Range(previous, base, addr);
    if mode == NAPOT {
      NapotRange(previous, base, addr);
    }
    assert forall b: Word :: Matches(p, k, b) <==> mode != OFF && Within(b, RegionOf(mode, base, addr));
    assert forall b: Word :: SpecMatches(p, k, b) <==> mode != OFF && SpecWithin(mode, previous, addr, b);
    if mode != OFF && mode != TOR && mode != NAPOT {
      ModeRange(p.cfg[k]);
    }
  }

  lemma ModeRange(cfg: Byte)
    ensures Mode(cfg) <= 3
  {
  }

  lemma ZeroTimes4()
    ensures Times4(0) == 0
  {
  }

  // The decision of the specification

  ghost predicate SpecTouches(p: PmpState, k: nat, a: Word, len: nat)
    requires p.Valid() && k < ENTRIES
  {
    exists b: Word :: InAccess(b, a, len) && SpecMatches(p, k, b)
  }

  ghost predicate SpecCovers(p: PmpState, k: nat, a: Word, len: nat)
    requires p.Valid() && k < ENTRIES
  {
    forall b: Word :: InAccess(b, a, len) ==> SpecMatches(p, k, b)
  }

  /** The lowest entry that matches a byte of the access, locked or not. */
  ghost predicate SpecDecides(p: PmpState, k: nat, a: Word, len: nat)
    requires p.Valid()
  {
    k < ENTRIES && SpecTouches(p, k, a, len) && forall j :: 0 <= j < k ==> !SpecTouches(p, j, a, len)
  }

  /**
    * That entry must match all bytes; then machine mode passes an unlocked entry, and its RWX bits
    * decide in every other case. Machine mode passes where no entry matches.
    */
  ghost predicate SpecAllowed(p: PmpState, priv: Priv, a: Word, len: nat, access: Access)
    requires p.Valid()
  {
    (exists k: nat :: SpecDecides(p, k, a, len) && SpecCovers(p, k, a, len)
                      && ((priv == MACHINE && !LockBit(p.cfg[k])) || PermissionBit(p.cfg[k], access)))
    || (priv == MACHINE && forall k :: 0 <= k < ENTRIES ==> !SpecTouches(p, k, a, len))
  }

  /**
    * Where machine mode gets the specification's answer: an access that no entry matches, or whose
    * lowest entry is locked and covers it or refuses it, or whose lowest entry is unlocked and covers
    * it exactly if the lowest locked entry in the way, if there is one, grants it.
    */
  ghost predicate MachineAgrees(p: PmpState, a: Word, len: nat, access: Access)
    requires p.Valid()
  {
    forall k: nat :: SpecDecides(p, k, a, len) ==>
      if LockBit(p.cfg[k]) then SpecCovers(p, k, a, len) || !PermissionBit(p.cfg[k], access)
      else SpecCovers(p, k, a, len) <==> forall j: nat :: Decides(p, MACHINE, j, a, len) ==> PermissionBit(p.cfg[j], access)
  }

  lemma TouchesAlike(p: PmpState, priv: Priv, k: nat, a: Word, len: nat)
    requires p.Valid() && k < ENTRIES && SameRange(p, k)
    ensures Touches(p, priv, k, a, len) <==> SpecTouches(p, k, a, len) && (priv == MACHINE ==> LockBit(p.cfg[k]))
    ensures Covers(p, k, a, len) <==> SpecCovers(p, k, a, len)
  {
    hide Decode, Within, SpecWithin, InAccess, LockBit, MatchingField, Mode;
  }

  /** The entry that decides an access, if any. */
  lemma FindDecider(p: PmpState, a: Word, len: nat) returns (k: nat)
    requires p.Valid()
    ensures k <= ENTRIES && (k < ENTRIES ==> SpecDecides(p, k, a, len))
    ensures k == ENTRIES ==> forall j :: 0 <= j < ENTRIES ==> !SpecTouches(p, j, a, len)
  {
    hide SpecTouches;
    k := 0;
    while k < ENTRIES && !SpecTouches(p, k, a, len)
      invariant k <= ENTRIES
      invariant forall j :: 0 <= j < k ==> !SpecTouches(p, j, a, len)
    {
      k := k + 1;
    }
  }

  lemma FindLocked(p: PmpState, a: Word, len: nat) returns (k: nat)
    requires p.Valid()
    ensures k <= ENTRIES && (k < ENTRIES ==> Decides(p, MACHINE, k, a, len))
    ensures k == ENTRIES ==> forall j :: 0 <= j < ENTRIES ==> !Touches(p, MACHINE, j, a, len)
  {
    hide Touches;
    k := 0;
    while k < ENTRIES && !Touches(p, MACHINE, k, a, len)
      invariant k <= ENTRIES
      invariant forall j :: 0 <= j < k ==> !Touches(p, MACHINE, j, a, len)
    {
      k := k + 1;
    }
  }

  /** Below machine mode the check is the specification's. */
  lemma LowerModesFollowSpec(p: PmpState, priv: Priv, a: Word, len: nat, access: Access)
    requires p.Valid() && ShiftsDefined(p) && 1 <= len <= 4 && a + len <= LIMIT && priv != MACHINE
    requires forall k :: 0 <= k < ENTRIES ==> SameRange(p, k)
    ensures Allowed(p, priv, a, len, access) == SpecAllowed(p, priv, a, len, access)
  {
    CheckMeansLowestEntryDecides(p, priv, a, len, access);
    forall k: nat | k < ENTRIES
      ensures Touches(p, priv, k, a, len) <==> SpecTouches(p, k, a, len)
      ensures Covers(p, k, a, len) <==> SpecCovers(p, k, a, len)
    {
      TouchesAlike(p, priv, k, a, len);
    }
    hide Allowed, Touches, SpecTouches, Covers, SpecCovers, PermissionBit, LockBit, SameRange;
    assert forall k: nat :: Decides(p, priv, k, a, len) <==> SpecDecides(p, k, a, len);
  }

  /** In machine mode the check is the specification's exactly where `MachineAgrees` says so. */
  lemma MachineModeAgainstSpec(p: PmpState, a: Word, len: nat, access: Access)
    requires p.Valid() && ShiftsDefined(p) && 1 <= len <= 4 && a + len <= LIMIT
    requires forall k :: 0 <= k < ENTRIES ==> SameRange(p, k)
    ensures Allowed(p, MACHINE, a, len, access) == SpecAllowed(p, MACHINE, a, len, access)
        <==> MachineAgrees(p, a, len, access)
  {
    hide Allowed, Touches, SpecTouches, Covers, SpecCovers, PermissionBit, LockBit, SameRange, SpecDecides, Decides;
    var k := FindDecider(p, a, len);
    var j := FindLocked(p, a, len);
    CheckMeansLowestEntryDecides(p, MACHINE, a, len, access);
    DecidersAreUnique(p, a, len, k, j);
  }

  lemma DecidersAreUnique(p: PmpState, a: Word, len: nat, k: nat, j: nat)
    requires p.Valid() && k <= ENTRIES && j <= ENTRIES && forall i :: 0 <= i < ENTRIES ==> SameRange(p, i)
    requires k < ENTRIES ==> SpecDecides(p, k, a, len)
    requires k == ENTRIES ==> forall i :: 0 <= i < ENTRIES ==> !SpecTouches(p, i, a, len)
    requires j < ENTRIES ==> Decides(p, MACHINE, j, a, len)
    requires j == ENTRIES ==> forall i :: 0 <= i < ENTRIES ==> !Touches(p, MACHINE, i, a, len)
    ensures forall i: nat :: SpecDecides(p, i, a, len) <==> i == k < ENTRIES
    ensures forall i: nat :: Decides(p, MACHINE, i, a, len) <==> i == j < ENTRIES
    ensures k < ENTRIES && LockBit(p.cfg[k]) ==> j == k
    ensures k == ENTRIES ==> j == ENTRIES
    ensures j < ENTRIES ==> Touches(p, MACHINE, j, a, len)
    ensures k < ENTRIES ==> SpecTouches(p, k, a, len)
  {
    forall i: nat | i < ENTRIES
      ensures Touches(p, MACHINE, i, a, len) <==> SpecTouches(p, i, a, len) && LockBit(p.cfg[i])
    {
      TouchesAlike(p, MACHINE, i, a, len);
    }
    hide Touches, SpecTouches, SameRange, LockBit;
    if k < ENTRIES && LockBit(p.cfg[k]) {
      assert Decides(p, MACHINE, k, a, len);
    }
  }

  // Witnesses

  lemma Na4Within(base: Word, previous: Word, addr: Word, b: Word)
    requires addr < REACH - 1
    ensures Within(b, RegionOf(NA4, base, addr)) <==> 4 * addr <= b < 4 * addr + 4
    ensures SpecWithin(NA4, previous, addr, b) <==> 4 * addr <= b < 4 * addr + 4
  {
    hide NapotStart, NapotSize, SpecSize, Span;
  }

  lemma Na4Bytes(p: PmpState, k: nat, b: Word)
    requires p.Valid() && k < ENTRIES && Mode(p.cfg[k]) == NA4 && p.addr[k] < REACH - 1
    ensures var first := 4 * p.addr[k];
      (Matches(p, k, b) <==> first <= b < first + 4) && (SpecMatches(p, k, b) <==> first <= b < first + 4)
  {
    hide Mode, MatchingField, Locked, LockBit, Grants, PermissionBit, RegionOf, Within, SpecWithin, Times4;
    ConfigurationBits(p.cfg[k]);
    Na4Within(if k == 0 then 0 else Times4(p.addr[k - 1]), Previous(p, k), p.addr[k], b);
  }

  /** Entry 0 is an unlocked word, and entry 1 locks the same word without write permission. */
  predicate Shadowed(p: PmpState)
    requires p.Valid()
  {
    && Mode(p.cfg[0]) == NA4 && !Locked(p.cfg[0]) && Mode(p.cfg[1]) == NA4 && Locked(p.cfg[1]) && !Grants(p.cfg[1], Write)
    && p.addr[0] == p.addr[1] && p.addr[0] < REACH - 1
  }

  lemma ShadowedIsDenied(p: PmpState)
    requires p.Valid() && Shadowed(p)
    ensures !Allowed(p, MACHINE, 4 * p.addr[0], 4, Write)
  {
    var a := 4 * p.addr[0];
    Na4Bytes(p, 1, a);
    hide Matches, Mode, Locked, Grants;
    assert Hit(p, MACHINE, 1, a, a + 3) && !Hit(p, MACHINE, 0, a, a + 3);
    hide Hit;
    FirstHitIs(p, MACHINE, a, a + 3, 0, 1);
  }

  lemma ShadowedIsGranted(p: PmpState)
    requires p.Valid() && Shadowed(p)
    ensures SpecAllowed(p, MACHINE, 4 * p.addr[0], 4, Write)
  {
    var a: Word := 4 * p.addr[0];
    hide SpecMatches, Matches, Mode, Grants, Locked, LockBit, PermissionBit, MatchingField;
    ConfigurationBits(p.cfg[0]);
    Na4Bytes(p, 0, a);
    assert InAccess(a, a, 4);
    forall b: Word | InAccess(b, a, 4)
      ensures SpecMatches(p, 0, b)
    {
      Na4Bytes(p, 0, b);
    }
    assert SpecDecides(p, 0, a, 4);
  }

  /** Machine mode skips an unlocked entry, which the specification lets decide. */
  lemma UnlockedEntryIsSkipped(rest: Byte)
    ensures var p := PmpState([0x17, 0x95] + seq(ENTRIES - 2, _ => rest), seq(ENTRIES, _ => 0x40));
      && p.Valid() && !Allowed(p, MACHINE, 0x100, 4, Write) && SpecAllowed(p, MACHINE, 0x100, 4, Write)
  {
    var p := PmpState([0x17, 0x95] + seq(ENTRIES - 2, _ => rest), seq(ENTRIES, _ => 0x40));
    assert Shadowed(p);
    hide Shadowed, Allowed, SpecAllowed;
    ShadowedIsDenied(p);
    ShadowedIsGranted(p);
  }

  /** Only entry 0 is on, as an unlocked four-byte entry below 2^32 - 4. */
  predicate LoneWord(p: PmpState)
    requires p.Valid()
  {
    && Mode(p.cfg[0]) == NA4 && !Locked(p.cfg[0]) && p.addr[0] < REACH - 1
    && forall k :: 1 <= k < ENTRIES ==> Mode(p.cfg[k]) == OFF
  }

  /** Such an entry passes exactly the accesses of S-mode and U-mode to its word that its bits name. */
  lemma LoneWordGrants(p: PmpState, priv: Priv, a: Word, access: Access)
    requires p.Valid() && LoneWord(p) && priv != MACHINE
    ensures Allowed(p, priv, a, 1, access) <==> 4 * p.addr[0] <= a < 4 * p.addr[0] + 4 && PermissionBit(p.cfg[0], access)
  {
    ConfigurationBits(p.cfg[0]);
    Na4Bytes(p, 0, a);
    hide Decode, Within, Mode, Grants, PermissionBit, Locked, MatchingField, LockBit;
    assert forall k: nat :: 1 <= k < ENTRIES ==> !Hit(p, priv, k, a, a);
    FirstHitIs(p, priv, a, a, 0, if Matches(p, 0, a) then 0 else ENTRIES);
  }

  /** One entry for the word at 0x4000_0000. */
  function OneWord(cfg: Byte): (p: PmpState)
    ensures p.Valid()
  {
    PmpState(seq(ENTRIES, k => if k == 0 then cfg else 0), seq(ENTRIES, k => if k == 0 then 0x1000_0000 else 0))
  }

  lemma OneWordGrants(cfg: Byte, priv: Priv, a: Word, access: Access)
    requires Mode(cfg) == NA4 && !Locked(cfg) && priv != MACHINE
    ensures Allowed(OneWord(cfg), priv, a, 1, access) <==> 0x4000_0000 <= a <= 0x4000_0003 && PermissionBit(cfg, access)
  {
    assert LoneWord(OneWord(cfg));
    hide Allowed, LoneWord, PermissionBit;
    LoneWordGrants(OneWord(cfg), priv, a, access);
  }

  /** The entry of unit_tests.c:159 lets S-mode read its word and nothing else; its X-only sibling, fetch. */
  lemma ReadOnlyAndExecuteOnly(a: Word, access: Access)
    ensures Allowed(OneWord(0x11), SUPERVISOR, a, 1, access) <==> 0x4000_0000 <= a <= 0x4000_0003 && access == Read
    ensures Allowed(OneWord(0x14), SUPERVISOR, a, 1, access) <==> 0x4000_0000 <= a <= 0x4000_0003 && access == Fetch
  {
    LowPowers();
    hide Allowed, OneWord;
    OneWordGrants(0x11, SUPERVISOR, a, access);
    OneWordGrants(0x14, SUPERVISOR, a, access);
  }

  /** An address register beyond 32-bit addresses covers the bottom of memory. */
  lemma HighAddressAliases(previous: Word, base: Word)
    ensures Within(0, RegionOf(NA4, base, REACH)) && !SpecWithin(NA4, previous, REACH, 0)
  {
  }
}
