/** The PMP unit of src/core/pmp/pmp.c: sixteen entries, their locks and the access check. */
module Pmp {
  import opened Words

  const ENTRIES := 16
  const CFG_REGS := 4

  /** Entry k has the configuration byte cfg[k] and the address register addr[k]. */
  datatype PmpState = PmpState(cfg: seq<Byte>, addr: seq<Word>) {
    ghost predicate Valid() {
      |cfg| == ENTRIES && |addr| == ENTRIES
    }
  }

  datatype Region = Region(start: Word, size: Word)

  // Configuration byte: L...AAXWR

  predicate Locked(cfg: Byte) {
    cfg / 0x80 == 1
  }

  function Mode(cfg: Byte): Byte {
    cfg / 8 % 4
  }

  const OFF: Byte := 0
  const TOR: Byte := 1
  const NA4: Byte := 2
  const NAPOT: Byte := 3

  /** The RWX bit of an access type is set. */
  predicate Grants(cfg: Byte, access: Access) {
    match access
    case Read => cfg % 2 == 1
    case Write => cfg / 2 % 2 == 1
    case Fetch => cfg / 4 % 2 == 1
  }

  // NAPOT decoding

  /** find-first-set: the 1-based position of the lowest set bit, 0 for no bit. */
  function Ffs(v: nat): (r: nat) {
    if v == 0 then 0 else if v % 2 == 1 then 1 else 1 + Ffs(v / 2)
  }

  function Complement(w: Word): Word {
    LIMIT - 1 - w
  }

  lemma Pow2Below(n: nat)
    requires n < 32
    ensures Pow2(n) < LIMIT
  {
    Pow2Monotonic(n, 31);
    Pow2Word();
  }

  /** The int 1 shifted left by `n`; the count is taken modulo 32 where C leaves it undefined. */
  function IntShift(n: nat): Word {
    Pow2Below(n % 32);
    Pow2(n % 32)
  }

  function NapotSize(addr: Word): Word {
    IntShift(Ffs(Complement(addr)) + 2)
  }

  function NapotBase(addr: Word, size: Word): Word {
    var mask := Wrap(size / 2 - 1) / 4;
    Wrap(4 * (addr - mask))
  }

  function NapotStart(addr: Word): Word {
    NapotBase(addr, NapotSize(addr))
  }

  /** The range [start, end), with its size computed modulo 2^32. */
  function Span(start: Word, end: Word): Region {
    Region(start, Wrap(end - start))
  }

  /** The range that an entry with the given mode, lower bound (for TOR) and address stands for. */
  function RegionOf(mode: Byte, base: Word, addr: Word): Region {
    if mode == TOR then Span(base, Times4(addr))
    else if mode == NAPOT then
      if addr == LIMIT - 1 then Region(0, LIMIT - 1)
      else Region(NapotStart(addr), NapotSize(addr))
    else Region(Times4(addr), 4)
  }

  /** The range of entry `k`; meaningless for an entry that is off. */
  function Decode(p: PmpState, k: nat): Region
    requires p.Valid() && k < ENTRIES
  {
    RegionOf(Mode(p.cfg[k]), if k == 0 then 0 else Times4(p.addr[k - 1]), p.addr[k])
  }

  /** The range test of the source: the end of the range is computed modulo 2^32. */
  predicate Within(a: Word, r: Region) {
    r.start <= a < Wrap(r.start + r.size)
  }

  /** Byte `a` belongs to entry `k`. */
  predicate Matches(p: PmpState, k: nat, a: Word)
    requires p.Valid() && k < ENTRIES
  {
    Mode(p.cfg[k]) != OFF && Within(a, Decode(p, k))
  }

  // The access check

  /** Entry `k` is looked at for accesses made with privilege `priv`. */
  predicate Eligible(p: PmpState, priv: Priv, k: nat)
    requires p.Valid() && k < ENTRIES
  {
    (priv == MACHINE ==> Locked(p.cfg[k])) && Mode(p.cfg[k]) != OFF
  }

  /** Entry `k` decides an access with first byte `a` and last byte `e` unless a lower one does. */
  predicate Hit(p: PmpState, priv: Priv, k: nat, a: Word, e: Word)
    requires p.Valid() && k < ENTRIES
  {
    Eligible(p, priv, k) && (Matches(p, k, a) || Matches(p, k, e))
  }

  /** What entry `k` says about an access it decides. */
  predicate Verdict(p: PmpState, priv: Priv, k: nat, a: Word, e: Word, access: Access)
    requires p.Valid() && k < ENTRIES
  {
    Grants(p.cfg[k], access) && (priv == MACHINE || (Matches(p, k, a) && Matches(p, k, e)))
  }

  function FirstHit(p: PmpState, priv: Priv, a: Word, e: Word, from: nat): (k: nat)
    requires p.Valid() && from <= ENTRIES
    ensures from <= k <= ENTRIES
    ensures k < ENTRIES ==> Hit(p, priv, k, a, e)
    ensures forall j :: from <= j < k ==> !Hit(p, priv, j, a, e)
    decreases ENTRIES - from
  {
    if from == ENTRIES || Hit(p, priv, from, a, e) then from
    else FirstHit(p, priv, a, e, from + 1)
  }

  lemma FirstHitIs(p: PmpState, priv: Priv, a: Word, e: Word, from: nat, k: nat)
    requires p.Valid() && from <= k <= ENTRIES
    requires k < ENTRIES ==> Hit(p, priv, k, a, e)
    requires forall j :: from <= j < k ==> !Hit(p, priv, j, a, e)
    ensures FirstHit(p, priv, a, e, from) == k
  {
  }

  /** The lowest eligible entry that the access touches decides; without one only M-mode passes. */
  predicate Allowed(p: PmpState, priv: Priv, a: Word, len: nat, access: Access)
    requires p.Valid()
  {
    var e := Wrap(a + (len - 1));
    var k := FirstHit(p, priv, a, e, 0);
    if k == ENTRIES then priv == MACHINE else Verdict(p, priv, k, a, e, access)
  }

  // CSR writes

  function CfgWord(p: PmpState, r: nat): Word
    requires p.Valid() && r < CFG_REGS
  {
    WordOf(p.cfg[4 * r], p.cfg[4 * r + 1], p.cfg[4 * r + 2], p.cfg[4 * r + 3])
  }

  /** Writing pmpcfg register `r`: in M-mode every unlocked byte of it takes its new value. */
  function WriteCfg(p: PmpState, priv: Priv, r: nat, v: Word): (q: PmpState)
    requires p.Valid() && r < CFG_REGS
    ensures q.Valid()
  {
    if priv != MACHINE then p
    else p.(cfg := seq(ENTRIES, k requires 0 <= k < ENTRIES =>
      if k / 4 == r && !Locked(p.cfg[k]) then ByteOf(v, k % 4) else p.cfg[k]))
  }

  /** The configuration byte that follows entry `k`; behind the last one lies pmpaddr0. */
  function NextCfg(p: PmpState, k: nat): Byte
    requires p.Valid() && k < ENTRIES
  {
    if k + 1 < ENTRIES then p.cfg[k + 1] else ByteOf(p.addr[0], 0)
  }

  /** A write to pmpaddr `k` takes effect: nothing freezes the register. */
  predicate AddrWritable(p: PmpState, k: nat)
    requires p.Valid() && k < ENTRIES
  {
    !Locked(p.cfg[k]) && !(Locked(NextCfg(p, k)) && Mode(NextCfg(p, k)) == TOR)
  }

  function WriteAddr(p: PmpState, priv: Priv, k: nat, v: Word): (q: PmpState)
    requires p.Valid() && k < ENTRIES
    ensures q.Valid()
  {
    if priv == MACHINE && AddrWritable(p, k) then p.(addr := p.addr[k := v]) else p
  }

  class Unit {
    const cfg: array<Byte>
    const addr: array<Word>

    ghost predicate Valid()
      reads this
    {
      cfg.Length == ENTRIES && addr.Length == ENTRIES
    }

    ghost function State(): (p: PmpState)
      reads this, cfg, addr
    {
      PmpState(cfg[..], addr[..])
    }

    constructor ()
      ensures Valid() && fresh(cfg) && fresh(addr)
      ensures State() == PmpState(seq(ENTRIES, _ => 0), seq(ENTRIES, _ => 0))
    {
      cfg := new Byte[ENTRIES](_ => 0);
      addr := new Word[ENTRIES](_ => 0);
      new;
      assert cfg[..] == seq(ENTRIES, _ => 0);
      assert addr[..] == seq(ENTRIES, _ => 0);
    }

    method WriteCsrCfg(priv: Priv, r: nat, v: Word) returns (ret: Ret)
      requires Valid() && r < CFG_REGS
      modifies cfg
      ensures ret.Ok? <==> priv == MACHINE
      ensures State() == WriteCfg(old(State()), priv, r, v)
    {
      if priv != MACHINE {
        return Err;
      }
      ghost var p := State();
      for i := 0 to 4
        invariant forall k :: 0 <= k < ENTRIES ==>
          cfg[k] == if 4 * r <= k < 4 * r + i && !Locked(p.cfg[k]) then ByteOf(v, k % 4) else p.cfg[k]
      {
        if !Locked(cfg[4 * r + i]) {
          cfg[4 * r + i] := ByteOf(v, i);
        }
      }
      assert cfg[..] == WriteCfg(p, priv, r, v).cfg;
      return Ok;
    }

    method ReadCsrCfg(r: nat) returns (v: Word)
      requires Valid() && r < CFG_REGS
      ensures v == CfgWord(State(), r)
    {
      v := WordOf(cfg[4 * r], cfg[4 * r + 1], cfg[4 * r + 2], cfg[4 * r + 3]);
    }

    method WriteCsrAddr(priv: Priv, k: nat, v: Word) returns (ret: Ret)
      requires Valid() && k < ENTRIES
      modifies addr
      ensures ret.Ok? <==> priv == MACHINE
      ensures State() == WriteAddr(old(State()), priv, k, v)
    {
      if priv != MACHINE {
        return Err;
      }
      var next := if k + 1 < ENTRIES then cfg[k + 1] else ByteOf(addr[0], 0);
      if Mode(next) == TOR && Locked(next) {
        return Ok;
      }
      if Locked(cfg[k]) {
        return Ok;
      }
      addr[k] := v;
      return Ok;
    }

    method DecodeEntry(k: nat) returns (r: Region)
      requires Valid() && k < ENTRIES && Mode(cfg[k]) != OFF
      ensures r == Decode(State(), k)
    {
      hide NapotSize, NapotStart;
      var mode := Mode(cfg[k]);
      if mode == TOR {
        if k == 0 {
          r := Span(0, Times4(addr[k]));
        } else {
          r := Span(Times4(addr[k - 1]), Times4(addr[k]));
        }
      } else if mode == NAPOT {
        if addr[k] == LIMIT - 1 {
          r := Region(0, LIMIT - 1);
        } else {
          r := Region(NapotStart(addr[k]), NapotSize(addr[k]));
        }
      } else {
        r := Region(Times4(addr[k]), 4);
      }
    }

    method MemCheck(priv: Priv, a: Word, len: nat, access: Access) returns (ret: Ret)
      requires Valid()
      ensures ret.Ok? <==> Allowed(State(), priv, a, len, access)
    {
      ghost var p := State();
      var e := Wrap(a + (len - 1));
      for i := 0 to CFG_REGS
        invariant forall k :: 0 <= k < 4 * i ==> !Hit(p, priv, k, a, e)
      {
        for j := 0 to 4
          invariant forall k :: 0 <= k < 4 * i + j ==> !Hit(p, priv, k, a, e)
        {
          var count := 4 * i + j;
          // In M-mode only locked entries are looked at.
          if priv == MACHINE && !Locked(cfg[count]) {
            continue;
          }
          if Mode(cfg[count]) == OFF {
            continue;
          }
          var r := DecodeEntry(count);
          var lower := Within(a, r);
          var upper := Within(e, r);
          assert (lower || upper) == Hit(p, priv, count, a, e);
          if lower || upper {
            FirstHitIs(p, priv, a, e, 0, count);
          }
          if lower && !upper {
            return if priv == MACHINE && Grants(cfg[count], access) then Ok else Err;
          }
          if upper && !lower {
            return if priv == MACHINE && Grants(cfg[count], access) then Ok else Err;
          }
          if upper && lower {
            return if Grants(cfg[count], access) then Ok else Err;
          }
        }
      }
      FirstHitIs(p, priv, a, e, 0, ENTRIES);
      return if priv == MACHINE then Ok else Err;
    }
  }
}
