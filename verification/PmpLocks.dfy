/** Locks are permanent, and a locked read-only entry keeps every write out of its range. */
module PmpLocks {
  import opened Words
  import opened Pmp
  import opened PmpProofs

  /** A CSR write that reaches the PMP unit, with the privilege it is made with. */
  datatype PmpWrite =
    | CfgWrite(priv: Priv, reg: nat, value: Word)
    | AddrWrite(priv: Priv, entry: nat, value: Word)
  {
    predicate Legal() {
      match this
      case CfgWrite(_, r, _) => r < CFG_REGS
      case AddrWrite(_, k, _) => k < ENTRIES
    }
  }

  function Apply(p: PmpState, w: PmpWrite): (q: PmpState)
    requires p.Valid() && w.Legal()
    ensures q.Valid()
  {
    match w
    case CfgWrite(priv, r, v) => WriteCfg(p, priv, r, v)
    case AddrWrite(priv, k, v) => WriteAddr(p, priv, k, v)
  }

  function ApplyAll(p: PmpState, ws: seq<PmpWrite>): (q: PmpState)
    requires p.Valid() && forall w :: w in ws ==> w.Legal()
    ensures q.Valid()
    decreases ws
  {
    if ws == [] then p else ApplyAll(Apply(p, ws[0]), ws[1..])
  }

  /** Everything that gives entry `k` its meaning is the same in `p` and `q`. */
  predicate Frozen(p: PmpState, q: PmpState, k: nat)
    requires p.Valid() && q.Valid() && k < ENTRIES
  {
    q.cfg[k] == p.cfg[k] && q.addr[k] == p.addr[k]
    && (k > 0 && Mode(p.cfg[k]) == TOR ==> q.addr[k - 1] == p.addr[k - 1])
  }

  lemma WriteKeepsLocked(p: PmpState, w: PmpWrite, k: nat)
    requires p.Valid() && w.Legal() && k < ENTRIES && Locked(p.cfg[k])
    ensures Frozen(p, Apply(p, w), k)
  {
    hide Locked, Mode, ByteOf;
  }

  lemma FrozenMeansSame(p: PmpState, q: PmpState, k: nat, a: Word)
    requires p.Valid() && q.Valid() && k < ENTRIES && Frozen(p, q, k)
    ensures Mode(p.cfg[k]) != OFF ==> Decode(q, k) == Decode(p, k)
    ensures Matches(q, k, a) <==> Matches(p, k, a)
  {
    hide NapotStart, NapotSize, Within;
    if Mode(p.cfg[k]) != TOR {
      NotTor(Mode(p.cfg[k]), if k == 0 then 0 else Times4(p.addr[k - 1]),
             if k == 0 then 0 else Times4(q.addr[k - 1]), p.addr[k]);
    }
  }

  lemma NotTor(mode: Byte, base: Word, other: Word, addr: Word)
    requires mode != TOR
    ensures RegionOf(mode, base, addr) == RegionOf(mode, other, addr)
  {
    hide NapotStart, NapotSize;
  }

  /** No sequence of cfg and addr writes, in any mode, changes what a locked entry means. */
  lemma {:induction false} LocksArePermanent(p: PmpState, ws: seq<PmpWrite>, k: nat)
    requires p.Valid() && k < ENTRIES && Locked(p.cfg[k])
    requires forall w :: w in ws ==> w.Legal()
    ensures Frozen(p, ApplyAll(p, ws), k)
    ensures forall a: Word :: Matches(ApplyAll(p, ws), k, a) <==> Matches(p, k, a)
    decreases ws
  {
    hide Locked, Mode, Apply, Matches, Decode;
    if ws != [] {
      WriteKeepsLocked(p, ws[0], k);
      LocksArePermanent(Apply(p, ws[0]), ws[1..], k);
    }
    forall a: Word
      ensures Matches(ApplyAll(p, ws), k, a) <==> Matches(p, k, a)
    {
      FrozenMeansSame(p, ApplyAll(p, ws), k, a);
    }
  }

  /** What entries 0..i say about an access, if one of them decides it. */
  function PrefixDecision(p: PmpState, i: nat, priv: Priv, a: Word, len: nat, access: Access): Option<bool>
    requires p.Valid() && i < ENTRIES
  {
    var e := Wrap(a + (len - 1));
    var k := FirstHit(p, priv, a, e, 0);
    if k <= i then Some(Verdict(p, priv, k, a, e, access)) else None
  }

  /** While entries 0..i are locked, every decision that one of them makes is constant. */
  lemma LockedPrefixIsConstant(p: PmpState, ws: seq<PmpWrite>, i: nat, priv: Priv, a: Word, len: nat, access: Access)
    requires p.Valid() && i < ENTRIES
    requires forall k :: 0 <= k <= i ==> Locked(p.cfg[k])
    requires forall w :: w in ws ==> w.Legal()
    ensures PrefixDecision(ApplyAll(p, ws), i, priv, a, len, access) == PrefixDecision(p, i, priv, a, len, access)
    ensures PrefixDecision(p, i, priv, a, len, access).Some? ==>
      Allowed(ApplyAll(p, ws), priv, a, len, access) == Allowed(p, priv, a, len, access)
  {
    var q := ApplyAll(p, ws);
    var e := Wrap(a + (len - 1));
    hide Locked, Mode, Matches, Grants, ApplyAll;
    forall k: nat | k <= i
      ensures q.cfg[k] == p.cfg[k]
      ensures Matches(q, k, a) == Matches(p, k, a) && Matches(q, k, e) == Matches(p, k, e)
      ensures Hit(q, priv, k, a, e) == Hit(p, priv, k, a, e)
    {
      LocksArePermanent(p, ws, k);
    }
    hide Hit;
    var kp := FirstHit(p, priv, a, e, 0);
    if kp <= i {
      FirstHitIs(q, priv, a, e, 0, kp);
    }
  }

  // The bytes of pmpcfg registers

  /** pmpcfg register r holds the bytes of entries 4r to 4r + 3, the lowest entry in its lowest byte. */
  lemma CfgWordBytes(p: PmpState, r: nat)
    requires p.Valid() && r < CFG_REGS
    ensures var b0: int, b1: int, b2: int, b3: int := p.cfg[4 * r], p.cfg[4 * r + 1], p.cfg[4 * r + 2], p.cfg[4 * r + 3];
      CfgWord(p, r) == b0 + 0x100 * b1 + 0x1_0000 * b2 + 0x100_0000 * b3
  {
  }

  /** The byte that a write to register r puts into entry k, unless the entry is locked. */
  lemma WrittenCfgBytes(p: PmpState, r: nat, v: Word, k: nat)
    requires p.Valid() && r < CFG_REGS && k < ENTRIES
    ensures var q := WriteCfg(p, MACHINE, r, v);
      q.cfg[k] == if k / 4 != r || Locked(p.cfg[k]) then p.cfg[k]
                  else if k == 4 * r then v % 0x100
                  else if k == 4 * r + 1 then v / 0x100 % 0x100
                  else if k == 4 * r + 2 then v / 0x1_0000 % 0x100
                  else v / 0x100_0000
  {
    BytePositions(v);
    hide ByteOf, Locked;
  }

  /** Outside machine mode nothing changes; in it, a cfg write keeps all addresses and an addr write everything but its register. */
  lemma WritesNeedMachineMode(p: PmpState, priv: Priv, r: nat, k: nat, v: Word)
    requires p.Valid() && r < CFG_REGS && k < ENTRIES
    ensures priv != 3 ==> WriteCfg(p, priv, r, v) == p && WriteAddr(p, priv, k, v) == p
    ensures WriteCfg(p, priv, r, v).addr == p.addr && WriteAddr(p, priv, k, v).cfg == p.cfg
    ensures forall j :: 0 <= j < ENTRIES && j != k ==> WriteAddr(p, priv, k, v).addr[j] == p.addr[j]
  {
  }

  /** While no entry of it is locked, a register reads back as it was written. */
  lemma CfgReadsBack(p: PmpState, r: nat, v: Word)
    requires p.Valid() && r < CFG_REGS && forall k :: 4 * r <= k < 4 * r + 4 ==> !Locked(p.cfg[k])
    ensures CfgWord(WriteCfg(p, MACHINE, r, v), r) == v
  {
    BytesOfWord(v);
    hide ByteOf, WordOf, Locked;
  }

  // When a write to a pmpaddr register takes effect

  /** The rule of section 3.6.1 of the Privileged Spec: only the entry and a locked TOR successor freeze it. */
  predicate SpecWritable(p: PmpState, k: nat)
    requires p.Valid() && k < ENTRIES
  {
    !Locked(p.cfg[k]) && (k + 1 < ENTRIES ==> !(Locked(p.cfg[k + 1]) && Mode(p.cfg[k + 1]) == TOR))
  }

  /**
    * The code follows that rule except for the last register, where the byte it inspects is the
    * low byte of pmpaddr0: the write is lost exactly when that byte looks like a locked TOR entry.
    */
  lemma AddrWriteRule(p: PmpState, k: nat, v: Word)
    requires p.Valid() && k < ENTRIES
    ensures AddrWritable(p, k) == SpecWritable(p, k)
        <==> k + 1 < ENTRIES || Locked(p.cfg[k]) || !(p.addr[0] % 256 / 8 in {17, 21, 25, 29})
    ensures WriteAddr(p, MACHINE, k, v).addr[k] == v <==> AddrWritable(p, k) || p.addr[k] == v
  {
  }

  /** pmpaddr15 of an unlocked, switched-off entry ignores a write after 0x88 went to pmpaddr0. */
  lemma LastAddrWriteIsLost()
    ensures var p := PmpState(seq(ENTRIES, _ => 0), seq(ENTRIES, k => if k == 0 then 0x88 else 0));
      p.Valid() && SpecWritable(p, 15) && WriteAddr(p, MACHINE, 15, 7) == p
  {
    var p := PmpState(seq(ENTRIES, _ => 0), seq(ENTRIES, k => if k == 0 then 0x88 else 0));
    assert ByteOf(p.addr[0], 0) == 0x88;
  }

  // Write protection by one locked entry

  predicate Near(a: Word, b: Word) {
    Wrap(a - b) < 4 || Wrap(b - a) < 4
  }

  /**
    * Entries 0..i are locked, entry i does not grant writes and stands for at least four bytes, as
    * every entry does whose shift count C defines and that covers anything, and no lower entry
    * reaches into its range or within three bytes of it.
    */
  ghost predicate Protects(p: PmpState, i: nat)
    requires p.Valid()
  {
    i < ENTRIES
    && (forall k :: 0 <= k <= i ==> Locked(p.cfg[k]))
    && !Grants(p.cfg[i], Write)
    && Decode(p, i).size >= 4
    && (forall k, a, b :: 0 <= k < i && Near(a, b) && Matches(p, i, b) ==> !Matches(p, k, a))
  }

  /** A check never lets a write through that would reach a byte of the protecting entry. */
  lemma WriteIntoProtectedIsDenied(p: PmpState, i: nat, priv: Priv, a: Word, len: nat, b: Word)
    requires p.Valid() && Protects(p, i)
    requires 1 <= len <= 4 && InAccess(b, a, len) && Matches(p, i, b)
    ensures !Allowed(p, priv, a, len, Write)
  {
    var e := Wrap(a + (len - 1));
    EndsAreNear(a, len, b);
    hide Decode, Within, Near, Grants, Locked, InAccess;
    MeetsAtEndpoint(Decode(p, i), a, len, b);
    hide Wrap;
    forall k | 0 <= k < i
      ensures !Hit(p, priv, k, a, e)
    {
      assert !Matches(p, k, a) && !Matches(p, k, e);
    }
    FirstHitIs(p, priv, a, e, 0, i);
  }

  lemma EndsAreNear(a: Word, len: nat, b: Word)
    requires 1 <= len <= 4 && InAccess(b, a, len)
    ensures Near(a, b) && Near(Wrap(a + (len - 1)), b)
  {
  }

  /** Protection survives any sequence of PMP writes, over the very same bytes. */
  lemma ProtectionIsPermanent(p: PmpState, ws: seq<PmpWrite>, i: nat)
    requires p.Valid() && Protects(p, i)
    requires forall w :: w in ws ==> w.Legal()
    ensures Protects(ApplyAll(p, ws), i)
    ensures forall a: Word :: Matches(ApplyAll(p, ws), i, a) <==> Matches(p, i, a)
  {
    var q := ApplyAll(p, ws);
    hide Locked, Grants, Near, ApplyAll;
    forall k: nat | k <= i
      ensures q.cfg[k] == p.cfg[k] && forall a: Word :: Matches(q, k, a) <==> Matches(p, k, a)
    {
      LocksArePermanent(p, ws, k);
    }
    LocksArePermanent(p, ws, i);
    hide Matches;
    SizeIsConstant(p, q, i);
  }

  lemma SizeIsConstant(p: PmpState, q: PmpState, i: nat)
    requires p.Valid() && q.Valid() && i < ENTRIES && Frozen(p, q, i)
    ensures Decode(q, i).size == Decode(p, i).size
  {
    FrozenMeansSame(p, q, i, 0);
    hide NapotStart, NapotSize;
  }
}
