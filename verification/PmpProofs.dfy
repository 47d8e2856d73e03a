/** What PMP entries mean, why the endpoint test is exact, and why locks are permanent. */
module PmpProofs {
  import opened Words
  import opened Pmp

  // NAPOT decoding inverts encoding

  lemma ShiftByOne(k: nat, odd: nat)
    requires odd >= 1 && k > 0
    ensures Pow2(k) * odd == 2 * (Pow2(k - 1) * odd) && Pow2(k - 1) * odd > 0
  {
  }

  /** find-first-set of an odd number shifted left by k. */
  lemma {:induction false} FfsOfShiftedOdd(k: nat, odd: nat)
    requires odd % 2 == 1
    ensures Ffs(Pow2(k) * odd) == k + 1
  {
    if k > 0 {
      FfsOfShiftedOdd(k - 1, odd);
      ShiftByOne(k, odd);
      FfsOfDouble(Pow2(k - 1) * odd);
    }
  }

  lemma FfsOfDouble(half: nat)
    requires half > 0
    ensures Ffs(2 * half) == 1 + Ffs(half)
  {
  }

  /** `base` is the q-th naturally aligned block of 2^n bytes. */
  predicate Block(base: Word, n: nat, q: nat) {
    3 <= n < 32 && base == Pow2(n) * q
  }

  /** The pmpaddr value that software writes for a block: (base + size / 2 - 1) shifted right by 2. */
  function NapotEncode(base: Word, n: nat): Word
    requires 1 <= n < 32
  {
    Pow2Below(n - 1);
    (base + Pow2(n - 1) - 1) / 4
  }

  lemma EncodedBlock(base: Word, n: nat, q: nat)
    requires Block(base, n, q)
    ensures Pow2(n) == 8 * Pow2(n - 3) && base == 8 * (Pow2(n - 3) * q)
    ensures NapotEncode(base, n) == 2 * (Pow2(n - 3) * q) + Pow2(n - 3) - 1
  {
    assert Pow2(n) == 8 * Pow2(n - 3) && Pow2(n - 1) == 4 * Pow2(n - 3);
    assert base == 8 * (Pow2(n - 3) * q);
  }

  lemma BlockNumber(m: nat, q: nat, count: nat)
    requires m > 0 && m * q < m * count
    ensures q < count && m * q + m <= m * count
  {
    assert m * (q + 1) == m * q + m;
  }

  /** A block lies inside the address space, and there are 2^(32-n) of them. */
  lemma BlockFits(base: Word, n: nat, q: nat)
    requires Block(base, n, q)
    ensures q < Pow2(32 - n) && base + Pow2(n) <= LIMIT
  {
    Pow2Word();
    Pow2Sum(n, 32 - n);
    BlockNumber(Pow2(n), q, Pow2(32 - n));
  }

  lemma ComplementFactors(e: Word, p: nat, r: nat, q: nat)
    requires p * r == LIMIT && e == 2 * (p * q) + p - 1
    ensures Complement(e) == p * (r - 2 * q - 1)
  {
    assert p * (r - 2 * q - 1) == p * r - 2 * (p * q) - p;
  }

  /** The complement of an encoded value has its lowest set bit at position n - 3. */
  lemma FfsOfEncoded(base: Word, n: nat, q: nat)
    requires Block(base, n, q)
    ensures NapotEncode(base, n) != LIMIT - 1
    ensures Ffs(Complement(NapotEncode(base, n))) == n - 2
  {
    hide NapotEncode, Ffs, Pow2, Complement;
    OddFactor(base, n, q);
    EncodedBlock(base, n, q);
    ComplementFactors(NapotEncode(base, n), Pow2(n - 3), Pow2(35 - n), q);
    FfsOfShiftedOdd(n - 3, Pow2(35 - n) - 2 * q - 1);
    FfsOfZero();
  }

  lemma OddFactor(base: Word, n: nat, q: nat)
    requires Block(base, n, q)
    ensures Pow2(n - 3) * Pow2(35 - n) == LIMIT
    ensures Pow2(35 - n) - 2 * q - 1 > 0 && (Pow2(35 - n) - 2 * q - 1) % 2 == 1
  {
    Pow2Of32();
    Pow2Sum(n - 3, 35 - n);
    BlockFits(base, n, q);
    EightTimes(32 - n);
    hide Block, Pow2;
  }

  lemma Pow2Of32()
    ensures Pow2(32) == LIMIT
  {
    Pow2Word();
  }

  lemma EightTimes(k: nat)
    ensures Pow2(k + 3) == 8 * Pow2(k)
  {
    assert Pow2(k + 3) == 2 * Pow2(k + 2);
  }

  lemma FfsOfZero()
    ensures Ffs(Complement(LIMIT - 1)) == 0
  {
  }

  lemma SizeOfCount(addr: Word, n: nat)
    requires 3 <= n < 32 && Ffs(Complement(addr)) == n - 2
    ensures Pow2(n) < LIMIT && NapotSize(addr) == Pow2(n)
  {
    hide Ffs, Pow2, Complement;
    Pow2Below(n);
  }

  lemma BaseOfBlock(base: Word, n: nat, q: nat)
    requires Block(base, n, q) && Pow2(n) < LIMIT
    ensures NapotBase(NapotEncode(base, n), Pow2(n)) == base
  {
    hide NapotEncode, Pow2;
    EncodedBlock(base, n, q);
    BaseOf(base, NapotEncode(base, n), Pow2(n - 3), Pow2(n - 3) * q);
  }

  lemma BaseOf(base: Word, e: Word, p: nat, x: nat)
    requires 1 <= p && 8 * p < LIMIT && base == 8 * x && e == 2 * x + p - 1
    ensures NapotBase(e, 8 * p) == base
  {
    assert Wrap(8 * p / 2 - 1) / 4 == p - 1;
  }

  /** Decoding an encoded block gives back exactly its base and its size. */
  lemma NapotDecodeInvertsEncode(base: Word, n: nat, q: nat)
    requires Block(base, n, q)
    ensures Pow2(n) < LIMIT
    ensures RegionOf(NAPOT, 0, NapotEncode(base, n)) == Region(base, Pow2(n))
  {
    hide NapotEncode, NapotSize, NapotBase, Ffs;
    FfsOfEncoded(base, n, q);
    SizeOfCount(NapotEncode(base, n), n);
    BaseOfBlock(base, n, q);
  }

  // Which bytes an entry covers

  /** A TOR entry covers exactly [base, top); the wrapped size makes nothing of base >= top. */
  lemma TorCovers(base: Word, top: Word, a: Word)
    ensures Within(a, RegionOf(TOR, base, top)) <==> base <= a < Times4(top)
  {
    hide NapotStart, NapotSize;
  }

  /**
    * A NAPOT entry covers its block if and only if the block does not end at the top of the
    * address space: there the end of the range wraps to 0 and the entry covers nothing.
    */
  lemma NapotCoversUnlessAtTop(base: Word, n: nat, q: nat, a: Word)
    requires Block(base, n, q)
    ensures Within(a, RegionOf(NAPOT, 0, NapotEncode(base, n)))
        <==> base <= a < base + Pow2(n) && base + Pow2(n) != LIMIT
  {
    hide NapotEncode, RegionOf, Pow2;
    NapotDecodeInvertsEncode(base, n, q);
    BlockFits(base, n, q);
  }

  /** Two entries that software would expect to cover the last byte of memory and that do not. */
  lemma TopOfMemoryIsMissed(a: Word)
    ensures !Within(a, RegionOf(NAPOT, 0, NapotEncode(0xc000_0000, 30)))
    ensures Within(a, RegionOf(NAPOT, 0, LIMIT - 1)) <==> a != LIMIT - 1
  {
    BigBlock();
    hide NapotEncode, Pow2, NapotStart, NapotSize, Block;
    NapotCoversUnlessAtTop(0xc000_0000, 30, 3, a);
  }

  lemma BigBlock()
    ensures Pow2(30) == 0x4000_0000 && Block(0xc000_0000, 30, 3)
  {
    Pow2Word();
    assert Pow2(31) == 2 * Pow2(30);
  }

  // The endpoint test

  /** A range of at least four bytes that meets an access of at most four meets an end of it. */
  lemma MeetsAtEndpoint(r: Region, a: Word, len: nat, b: Word)
    requires 1 <= len <= 4 && r.size >= 4
    requires InAccess(b, a, len) && Within(b, r)
    ensures Within(a, r) || Within(Wrap(a + (len - 1)), r)
  {
  }

  lemma InsideBetweenEndpoints(r: Region, a: Word, len: nat, b: Word)
    requires 1 <= len <= 4 && a + len <= LIMIT
    requires Within(a, r) && Within(Wrap(a + (len - 1)), r)
    requires InAccess(b, a, len)
    ensures Within(b, r)
  {
  }

  /** The size that an entry which covers something has, unless its shift count overflowed. */
  lemma CoveringSize(mode: Byte, base: Word, addr: Word, b: Word)
    requires base % 4 == 0 && Within(b, RegionOf(mode, base, addr))
    requires mode == NAPOT && addr != LIMIT - 1 ==> Ffs(Complement(addr)) <= 29
    ensures RegionOf(mode, base, addr).size >= 4
  {
    hide NapotSize, NapotStart, Ffs, Pow2;
    if mode == NAPOT && addr != LIMIT - 1 {
      hide Within;
      NapotSizeAtLeast8(addr);
    } else if mode == TOR {
      TorCovers(base, addr, b);
      assert Times4(addr) % 4 == 0;
    }
  }

  lemma NapotSizeAtLeast8(addr: Word)
    requires addr != LIMIT - 1 && Ffs(Complement(addr)) <= 29
    ensures NapotSize(addr) >= 8
  {
    FfsPositive(Complement(addr));
    var n := Ffs(Complement(addr)) + 2;
    Pow2Monotonic(3, n);
    assert Pow2(3) == 8;
    SizeOfCount(addr, n);
  }

  lemma FfsPositive(v: nat)
    requires v > 0
    ensures Ffs(v) >= 1
  {
  }

  /** The shift that sizes a NAPOT entry is one that C defines (sizes up to 2^30 and just above). */
  predicate ShiftsDefined(p: PmpState)
    requires p.Valid()
  {
    forall k :: 0 <= k < ENTRIES && Mode(p.cfg[k]) == NAPOT && p.addr[k] != LIMIT - 1 ==>
      Ffs(Complement(p.addr[k])) <= 29
  }

  // The configuration byte as section 3.6.1 of the Privileged Spec lays it out

  /** R, W and X are the bits 0, 1 and 2. */
  predicate PermissionBit(cfg: Byte, access: Access) {
    HasBit(cfg, match access case Read => 0 case Write => 1 case Fetch => 2)
  }

  /** L is bit 7. */
  predicate LockBit(cfg: Byte) {
    HasBit(cfg, 7)
  }

  /** A is the field of the bits 3 and 4. */
  function MatchingField(cfg: Byte): nat {
    (if HasBit(cfg, 3) then 1 else 0) + (if HasBit(cfg, 4) then 2 else 0)
  }

  lemma ConfigurationBits(cfg: Byte)
    ensures forall access: Access :: Grants(cfg, access) <==> PermissionBit(cfg, access)
    ensures Locked(cfg) <==> LockBit(cfg)
    ensures Mode(cfg) == MatchingField(cfg)
  {
    LowPowers();
    hide Pow2;
    assert cfg / 16 == cfg / 8 / 2;
  }

  /** Some byte of the access belongs to entry `k`, which is looked at for this privilege. */
  ghost predicate Touches(p: PmpState, priv: Priv, k: nat, a: Word, len: nat)
    requires p.Valid() && k < ENTRIES
  {
    (priv == MACHINE ==> LockBit(p.cfg[k])) && exists b: Word :: InAccess(b, a, len) && Matches(p, k, b)
  }

  /** Entry `k` is the lowest eligible one that the access touches. */
  ghost predicate Decides(p: PmpState, priv: Priv, k: nat, a: Word, len: nat)
    requires p.Valid()
  {
    k < ENTRIES && Touches(p, priv, k, a, len) && forall j :: 0 <= j < k ==> !Touches(p, priv, j, a, len)
  }

  /** Every byte of the access belongs to entry `k`. */
  ghost predicate Covers(p: PmpState, k: nat, a: Word, len: nat)
    requires p.Valid() && k < ENTRIES
  {
    forall b: Word :: InAccess(b, a, len) ==> Matches(p, k, b)
  }

  lemma HitIsTouch(p: PmpState, priv: Priv, k: nat, a: Word, len: nat)
    requires p.Valid() && k < ENTRIES && ShiftsDefined(p)
    requires 1 <= len <= 4
    ensures Hit(p, priv, k, a, Wrap(a + (len - 1))) <==> Touches(p, priv, k, a, len)
  {
    var e := Wrap(a + (len - 1));
    hide RegionOf, Ffs, Mode, Within, LockBit, PermissionBit, MatchingField, Locked;
    ConfigurationBits(p.cfg[k]);
    if Touches(p, priv, k, a, len) {
      var b: Word :| InAccess(b, a, len) && Matches(p, k, b);
      CoveringSize(Mode(p.cfg[k]), if k == 0 then 0 else Times4(p.addr[k - 1]), p.addr[k], b);
      MeetsAtEndpoint(Decode(p, k), a, len, b);
    }
    assert InAccess(a, a, len) && InAccess(e, a, len);
  }

  lemma BothEndsIsCover(p: PmpState, k: nat, a: Word, len: nat)
    requires p.Valid() && k < ENTRIES
    requires 1 <= len <= 4 && a + len <= LIMIT
    ensures Matches(p, k, a) && Matches(p, k, Wrap(a + (len - 1))) <==> Covers(p, k, a, len)
  {
    var e := Wrap(a + (len - 1));
    hide Decode, Within;
    assert InAccess(a, a, len) && InAccess(e, a, len);
    if Matches(p, k, a) && Matches(p, k, e) {
      forall b: Word | InAccess(b, a, len)
        ensures Matches(p, k, b)
      {
        InsideBetweenEndpoints(Decode(p, k), a, len, b);
      }
    }
  }

  /** No entry covers an access that wraps past the top address: none reaches the last byte. */
  lemma WrappedIsNeverCovered(p: PmpState, k: nat, a: Word, len: nat)
    requires p.Valid() && k < ENTRIES && len <= 4 && a + len > LIMIT
    ensures !Covers(p, k, a, len)
  {
    hide Decode;
    assert InAccess(LIMIT - 1, a, len) && !Matches(p, k, LIMIT - 1);
  }

  /**
    * An access below machine mode that wraps past the top address and passes because its first
    * and its last byte both lie in the entry that decides it.
    */
  ghost predicate WrapsThrough(p: PmpState, priv: Priv, a: Word, len: nat, access: Access)
    requires p.Valid()
  {
    && priv != MACHINE && a + len > LIMIT
    && exists k: nat :: Decides(p, priv, k, a, len) && PermissionBit(p.cfg[k], access)
                        && Matches(p, k, a) && Matches(p, k, Wrap(a + (len - 1)))
  }

  /**
    * The check is "the lowest eligible entry decides" over sets of bytes: it grants the access
    * type and covers the access (M-mode is excused from that), or M-mode meets no entry at all.
    * The only further accesses that pass are those that wrap through an entry.
    */
  lemma CheckMeansLowestEntryDecides(p: PmpState, priv: Priv, a: Word, len: nat, access: Access)
    requires p.Valid() && ShiftsDefined(p)
    requires 1 <= len <= 4
    ensures Allowed(p, priv, a, len, access)
        <==> (exists k: nat :: Decides(p, priv, k, a, len) && PermissionBit(p.cfg[k], access)
                          && (priv == MACHINE || Covers(p, k, a, len)))
             || (priv == MACHINE && forall k :: 0 <= k < ENTRIES ==> !Touches(p, priv, k, a, len))
             || WrapsThrough(p, priv, a, len, access)
  {
    hide Touches, Hit, Covers, Grants, Matches, PermissionBit, ShiftsDefined;
    var e := Wrap(a + (len - 1));
    var f := FirstHit(p, priv, a, e, 0);
    forall k | 0 <= k < ENTRIES
      ensures Hit(p, priv, k, a, e) <==> Touches(p, priv, k, a, len)
    {
      HitIsTouch(p, priv, k, a, len);
    }
    if f < ENTRIES {
      ConfigurationBits(p.cfg[f]);
      if a + len <= LIMIT {
        BothEndsIsCover(p, f, a, len);
      } else {
        WrappedIsNeverCovered(p, f, a, len);
      }
      assert Decides(p, priv, f, a, len);
    }
  }
}
