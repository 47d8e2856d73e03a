/** The interrupt controller of src/peripherals/plic/plic.c. */
module Plic {
  import opened Words
  import opened Quotients

  const SOURCES := 256
  const WORDS := 8

  type Source = id: int | 0 <= id < 256

  /** Bit 32 * w + j of the bit registers is bit j of their word w. */
  datatype PlicState = PlicState(priority: seq<Word>, pending: seq<bool>, enable: seq<bool>, claimed: seq<bool>,
                                 threshold: Word, claim: Source)
  {
    ghost predicate Valid() {
      && |priority| == SOURCES && |pending| == SOURCES && |enable| == SOURCES && |claimed| == SOURCES
      && priority[0] == 0 && threshold <= 7 && (forall id :: 0 <= id < SOURCES ==> priority[id] <= 7)
    }
  }

  // Words of bits

  function Unpack(v: nat, n: nat): (bits: seq<bool>)
    ensures |bits| == n
  {
    if n == 0 then [] else [v % 2 == 1] + Unpack(v / 2, n - 1)
  }

  function Pack(bits: seq<bool>): nat {
    if bits == [] then 0 else (if bits[0] then 1 else 0) + 2 * Pack(bits[1..])
  }

  /** Reading a bit register gives back the word that was written to it. */
  lemma {:induction false} PackUnpack(v: nat, n: nat)
    requires v < Pow2(n)
    ensures Pack(Unpack(v, n)) == v
  {
    if n > 0 {
      PackUnpack(v / 2, n - 1);
    }
  }

  function Word32(bits: seq<bool>, w: nat): seq<bool>
    requires |bits| == SOURCES && w < WORDS
  {
    bits[32 * w..32 * w + 32]
  }

  function Replaced(bits: seq<bool>, w: nat, v: Word): (r: seq<bool>)
    requires |bits| == SOURCES && w < WORDS
    ensures |r| == SOURCES
  {
    bits[..32 * w] + Unpack(v, 32) + bits[32 * w + 32..]
  }

  lemma WordReadsBack(bits: seq<bool>, w: nat, v: Word)
    requires |bits| == SOURCES && w < WORDS
    ensures Pack(Word32(Replaced(bits, w, v), w)) == v
  {
    Pow2Word();
    assert Word32(Replaced(bits, w, v), w) == Unpack(v, 32);
    PackUnpack(v, 32);
  }

  /** Bit j of the word becomes element j. */
  lemma {:induction false} UnpackBit(v: nat, n: nat, j: nat)
    requires j < n
    ensures Unpack(v, n)[j] <==> HasBit(v, j)
    decreases n
  {
    if j > 0 {
      UnpackBit(v / 2, n - 1, j - 1);
      HalfBit(v, j);
    }
  }

  lemma HalfBit(v: nat, j: nat)
    requires j > 0
    ensures HasBit(v, j) == HasBit(v / 2, j - 1)
  {
    var d := Pow2(j - 1);
    assert Pow2(j) == 2 * d;
    HalfQuotient(v, d);
  }

  lemma HalfQuotient(v: nat, d: nat)
    requires d > 0
    ensures v / (2 * d) == v / 2 / d
  {
    var h := v / 2;
    Split(h, d);
    hide Upper, Lower;
    var q, r := Upper(h, d), Lower(h, d);
    assert v == 2 * h + v % 2 && q * (2 * d) == 2 * (q * d);
    Unique(v, 2 * d, q, 2 * r + v % 2);
    QuotientIsUpper(v, 2 * d);
    QuotientIsUpper(h, d);
  }

  lemma QuotientIsUpper(v: nat, d: nat)
    requires d > 0
    ensures v / d == Upper(v, d)
  {
  }

  // The scan

  predicate AnySet(bits: seq<bool>, w: nat)
    requires |bits| == SOURCES && w < WORDS
  {
    exists k :: 32 * w <= k < 32 * w + 32 && bits[k]
  }

  /** Words without an enabled or without a pending bit are skipped. */
  predicate Active(s: PlicState, w: nat)
    requires |s.enable| == SOURCES && |s.pending| == SOURCES && w < WORDS
  {
    AnySet(s.enable, w) && AnySet(s.pending, w)
  }

  /** How many words before `w` are not skipped. */
  function Rank(s: PlicState, w: nat): (r: nat)
    requires s.Valid() && w <= WORDS
    ensures r <= w
  {
    if w == 0 then 0 else Rank(s, w - 1) + if Active(s, w - 1) then 1 else 0
  }

  /** The number that the code takes bit `b` for: it does not count skipped words. */
  function IdOf(s: PlicState, b: Source): Source
    requires s.Valid()
  {
    32 * Rank(s, b / 32) + b % 32
  }

  /** Bit `b` is looked at, enabled, pending and not below the threshold. */
  predicate Requests(s: PlicState, b: Source)
    requires s.Valid()
  {
    Active(s, b / 32) && s.enable[b] && s.pending[b] && s.priority[IdOf(s, b)] >= s.threshold
  }

  /** The winner among the first `n` bits and its priority: a later one wins a tie. */
  function Scan(s: PlicState, n: nat): (r: (Source, Word))
    requires s.Valid() && n <= SOURCES
  {
    if n == 0 then (0, 0)
    else
      var r := Scan(s, n - 1);
      var b := n - 1;
      if Requests(s, b) && !s.claimed[b] && s.priority[IdOf(s, b)] >= r.1 then (IdOf(s, b), s.priority[IdOf(s, b)]) else r
  }

  /** A claimed source that requests again loses its pending bit. */
  function Settled(s: PlicState, n: nat): (p: seq<bool>)
    requires s.Valid() && n <= SOURCES
    ensures |p| == SOURCES
  {
    seq(SOURCES, k requires 0 <= k < SOURCES => s.pending[k] && !(k < n && Requests(s, k) && s.claimed[k]))
  }

  function Presented(s: PlicState): Source
    requires s.Valid()
  {
    Scan(s, SOURCES).0
  }

  // Events

  datatype Register = Priority(id: Source) | PendingWord(w: nat) | EnableWord(w: nat) | Threshold | Claim | NoRegister {
    predicate Exists() {
      match this
      case Priority(id) => id > 0
      case PendingWord(w) => w < WORDS
      case EnableWord(w) => w < WORDS
      case _ => true
    }
  }

  /** The register at a word-aligned address. */
  function Locate(address: Word): (r: Register)
    ensures r.Exists()
  {
    if address < 0x400 then if address >= 4 then Priority(address / 4) else NoRegister
    else if 0x1000 <= address < 0x1020 then PendingWord((address - 0x1000) / 4)
    else if 0x2000 <= address < 0x2020 then EnableWord((address - 0x2000) / 4)
    else if 0x20_0000 <= address < 0x20_0004 then Threshold
    else if 0x20_0004 <= address < 0x20_0008 then Claim
    else NoRegister
  }

  /** plic_check_sanity: three bits of every priority and of the threshold. */
  function Sane(p: seq<Word>): (q: seq<Word>)
    ensures |q| == |p|
  {
    seq(|p|, k requires 0 <= k < |p| => p[k] % 8)
  }

  lemma SaneAlready(p: seq<Word>)
    requires forall k :: 0 <= k < |p| ==> p[k] <= 7
    ensures Sane(p) == p
  {
  }

  /** A write to a register; the identifier of a completion must exist. */
  function WriteTo(s: PlicState, r: Register, v: Word): (q: PlicState)
    requires s.Valid() && r.Exists() && (r.Claim? ==> v < SOURCES)
    ensures q.Valid()
  {
    match r
    case Priority(id) => s.(priority := Sane(s.priority[id := v]))
    case PendingWord(w) => s.(pending := Replaced(s.pending, w, v))
    case EnableWord(w) => s.(enable := Replaced(s.enable, w, v))
    case Threshold => s.(threshold := v % 8)
    case Claim => s.(claim := v, claimed := s.claimed[v := false])
    case NoRegister => s
  }

  function ReadValue(s: PlicState, r: Register, before: Word): nat
    requires s.Valid() && r.Exists()
  {
    match r
    case Priority(id) => s.priority[id]
    case PendingWord(w) => Pack(Word32(s.pending, w))
    case EnableWord(w) => Pack(Word32(s.enable, w))
    case Threshold => s.threshold
    case Claim => s.claim
    case NoRegister => before
  }

  /** Reading the claim register claims the source it holds, if that is still pending. */
  function ReadFrom(s: PlicState, r: Register): (q: PlicState)
    requires s.Valid()
    ensures q.Valid()
  {
    if r.Claim? && s.pending[s.claim] then s.(claimed := s.claimed[s.claim := true]) else s
  }

  function Updated(s: PlicState): (q: PlicState)
    requires s.Valid()
    ensures q.Valid()
  {
    s.(pending := Settled(s, SOURCES), claim := Presented(s))
  }

  // The register map and what writes leave

  /** Priorities at 4 * id, pending words from 0x1000, enable words from 0x2000, threshold and claim at 2 MiB. */
  lemma RegisterMap(id: Source, w: nat)
    requires id > 0 && w < 8
    ensures Locate(4 * id) == Priority(id)
    ensures Locate(0x1000 + 4 * w) == PendingWord(w) && Locate(0x2000 + 4 * w) == EnableWord(w)
    ensures Locate(0x20_0000) == Threshold && Locate(0x20_0004) == Claim && Locate(0) == NoRegister
  {
  }

  /** Every other word-aligned address has no register. */
  lemma NothingElse(address: Word)
    requires address % 4 == 0 && Locate(address) != NoRegister
    ensures (4 <= address < 0x400) || 0x1000 <= address < 0x1020 || 0x2000 <= address < 0x2020
         || address == 0x20_0000 || address == 0x20_0004
  {
  }

  lemma ReplacedBit(bits: seq<bool>, w: nat, v: Word, k: Source)
    requires |bits| == SOURCES && w < WORDS
    ensures Replaced(bits, w, v)[k] <==> if k / 32 == w then HasBit(v, k % 32) else bits[k]
  {
    if k / 32 == w {
      UnpackBit(v, 32, k % 32);
    }
    hide Unpack, HasBit;
  }

  /** A write to a priority, an enable word or a pending word, by its effect on every source. */
  lemma WritesLand(s: PlicState, id: Source, w: nat, v: Word, k: Source)
    requires s.Valid() && id > 0 && w < WORDS
    ensures var p := WriteTo(s, Priority(id), v);
      p == s.(priority := p.priority) && p.priority[k] == if k == id then v % 8 else s.priority[k]
    ensures var e := WriteTo(s, EnableWord(w), v);
      e == s.(enable := e.enable) && (e.enable[k] <==> if k / 32 == w then HasBit(v, k % 32) else s.enable[k])
    ensures var p := WriteTo(s, PendingWord(w), v);
      p == s.(pending := p.pending) && (p.pending[k] <==> if k / 32 == w then HasBit(v, k % 32) else s.pending[k])
    ensures WriteTo(s, Threshold, v) == s.(threshold := v % 8)
  {
    hide Replaced, HasBit;
    ReplacedBit(s.enable, w, v, k);
    ReplacedBit(s.pending, w, v, k);
  }

  class Unit {
    const priority: array<Word>
    const pending: array<bool>
    const enable: array<bool>
    const claimed: array<bool>
    var threshold: Word
    var claim: Source

    ghost predicate Valid()
      reads this, priority
    {
      && priority.Length == SOURCES && pending.Length == SOURCES && enable.Length == SOURCES && claimed.Length == SOURCES
      && pending != enable && enable != claimed && pending != claimed
      && priority[0] == 0 && threshold <= 7 && (forall id :: 0 <= id < SOURCES ==> priority[id] <= 7)
    }

    ghost function State(): (s: PlicState)
      reads this, priority, pending, enable, claimed
      ensures Valid() ==> s.Valid()
    {
      PlicState(priority[..], pending[..], enable[..], claimed[..], threshold, claim)
    }

    constructor ()
      ensures Valid() && fresh(priority) && fresh(pending) && fresh(enable) && fresh(claimed)
    {
      priority := new Word[SOURCES](_ => 0);
      pending := new bool[SOURCES](_ => false);
      enable := new bool[SOURCES](_ => false);
      claimed := new bool[SOURCES](_ => false);
      threshold, claim := 0, 0;
    }

    method UpdatePending(id: Source, level: bool)
      requires Valid()
      modifies pending
      ensures Valid() && State() == old(State()).(pending := old(State()).pending[id := level])
    {
      pending[id] := level;
    }

    method ScanWord(ghost s: PlicState, i: nat, count0: nat, irq0: Source, highest0: Word)
        returns (count: nat, irq: Source, highest: Word)
      requires Valid() && s.Valid() && i < WORDS && Active(s, i)
      requires State() == s.(pending := Settled(s, 32 * i))
      requires count0 == 32 * Rank(s, i) && (irq0, highest0) == Scan(s, 32 * i)
      modifies pending
      ensures Valid() && State() == s.(pending := Settled(s, 32 * (i + 1)))
      ensures count == 32 * Rank(s, i + 1) && (irq, highest) == Scan(s, 32 * (i + 1))
    {
      count, irq, highest := count0, irq0, highest0;
      hide Scan, Requests, Active, Settled;
      for j := 0 to 32
        invariant State() == s.(pending := Settled(s, 32 * i + j))
        invariant count == 32 * Rank(s, i) + j
        invariant (irq, highest) == Scan(s, 32 * i + j)
      {
        var b := 32 * i + j;
        assert count == IdOf(s, b);
        ScanStep(s, b);
        SettledStep(s, b);
        if enable[b] && pending[b] && priority[count] >= threshold {
          if claimed[b] {
            pending[b] := false;
          } else if priority[count] >= highest {
            highest := priority[count];
            irq := count;
          }
        }
        count := count + 1;
      }
    }

    /** Every word with something enabled and something pending is scanned bit by bit. */
    method ScanAll() returns (irq: Source)
      requires Valid()
      modifies pending
      ensures Valid() && State() == old(State()).(pending := Settled(old(State()), SOURCES))
      ensures irq == Presented(old(State()))
    {
      hide Requests, AnySet, Settled, Scan, IdOf, Active;
      ghost var s := State();
      var count := 0;
      irq := 0;
      var highest: Word := 0;
      ScanNothing(s);
      for i := 0 to WORDS
        invariant State() == s.(pending := Settled(s, 32 * i))
        invariant count == 32 * Rank(s, i)
        invariant (irq, highest) == Scan(s, 32 * i)
      {
        var active := AnySet(enable[..], i) && AnySet(pending[..], i);
        LaterBitsUntouched(s, i);
        if active {
          count, irq, highest := ScanWord(s, i, count, irq, highest);
        } else {
          SkippedWord(s, i, 32);
        }
      }
    }

    method Update() returns (trigger: bool)
      requires Valid()
      modifies this`claim, pending
      ensures Valid() && State() == Updated(old(State()))
      ensures trigger <==> Presented(old(State())) > 0
    {
      hide Presented, Settled;
      var irq := ScanAll();
      if irq > 0 {
        claim := irq;
        return true;
      }
      claim := 0;
      return false;
    }

    method CheckSanity()
      requires priority.Length == SOURCES
      modifies this`threshold, priority
      ensures priority[..] == Sane(old(priority[..])) && threshold == old(threshold) % 8
    {
      ghost var was := priority[..];
      for k := 0 to SOURCES
        invariant threshold == old(threshold)
        invariant forall i :: 0 <= i < SOURCES ==> priority[i] == if i < k then was[i] % 8 else was[i]
      {
        priority[k] := priority[k] % 8;
      }
      threshold := threshold % 8;
    }

    method Write(address: Word, v: Word)
      requires Valid() && (Locate(address) == Claim ==> v < SOURCES)
      modifies this, priority, pending, enable, claimed
      ensures Valid() && State() == WriteTo(old(State()), Locate(address), v)
    {
      hide Replaced;
      var r := Locate(address);
      SaneAlready(priority[..]);
      hide Locate;
      if r == NoRegister {
        return;
      }
      match r {
        case Priority(id) => priority[id] := v;
        case PendingWord(w) => StoreWord(pending, w, v);
        case EnableWord(w) => StoreWord(enable, w, v);
        case Threshold => threshold := v;
        case Claim =>
          claim := v;
          claimed[v] := false;
      }
      CheckSanity();
    }

    method Read(address: Word, before: Word) returns (v: nat)
      requires Valid()
      modifies claimed
      ensures Valid() && State() == ReadFrom(old(State()), Locate(address))
      ensures v == ReadValue(old(State()), Locate(address), before)
    {
      var r := Locate(address);
      hide Locate, Pack, Word32;
      match r {
        case Priority(id) => v := priority[id];
        case PendingWord(w) => v := Pack(Word32(pending[..], w));
        case EnableWord(w) => v := Pack(Word32(enable[..], w));
        case Threshold => v := threshold;
        case Claim => v := claim;
        case NoRegister => v := before;
      }
      if r == Claim && pending[claim] {
        claimed[claim] := true;
      }
    }
  }

  /** The 32 bits of word `w` are overwritten with those of `v`. */
  method StoreWord(bits: array<bool>, w: nat, v: Word)
    requires bits.Length == SOURCES && w < WORDS
    modifies bits
    ensures bits[..] == Replaced(old(bits[..]), w, v)
  {
    ghost var was := bits[..];
    var rest: nat := v;
    for j := 0 to 32
      invariant bits[..] == was[..32 * w] + Unpack(v, 32)[..j] + was[32 * w + j..]
      invariant Unpack(v, 32)[j..] == Unpack(rest, 32 - j)
    {
      bits[32 * w + j] := rest % 2 == 1;
      rest := rest / 2;
    }
  }

  lemma ScanNothing(s: PlicState)
    requires s.Valid()
    ensures Scan(s, 0) == (0, 0) && Settled(s, 0) == s.pending
  {
  }

  lemma LaterBitsUntouched(s: PlicState, i: nat)
    requires s.Valid() && i < WORDS
    ensures AnySet(s.enable, i) && AnySet(Settled(s, 32 * i), i) <==> Active(s, i)
  {
    hide Requests;
    assert forall k :: 32 * i <= k < 32 * i + 32 ==> Settled(s, 32 * i)[k] == s.pending[k];
  }

  lemma ScanStep(s: PlicState, b: Source)
    requires s.Valid()
    ensures var r := Scan(s, b);
      Scan(s, b + 1) ==
        if Requests(s, b) && !s.claimed[b] && s.priority[IdOf(s, b)] >= r.1 then (IdOf(s, b), s.priority[IdOf(s, b)]) else r
    ensures Requests(s, b) == (Active(s, b / 32) && s.enable[b] && s.pending[b] && s.priority[IdOf(s, b)] >= s.threshold)
  {
  }

  lemma SettledStep(s: PlicState, b: Source)
    requires s.Valid()
    ensures Settled(s, b)[b] == s.pending[b]
    ensures Settled(s, b + 1) == if Requests(s, b) && s.claimed[b] then Settled(s, b)[b := false] else Settled(s, b)
  {
    hide Requests;
  }

  /** The bits of a skipped word neither win nor change. */
  lemma {:induction false} SkippedWord(s: PlicState, i: nat, n: nat)
    requires s.Valid() && i < WORDS && n <= 32 && !Active(s, i)
    ensures Scan(s, 32 * i + n) == Scan(s, 32 * i) && Settled(s, 32 * i + n) == Settled(s, 32 * i)
    decreases n
  {
    hide Scan, Settled, Active, IdOf;
    if n > 0 {
      SkippedWord(s, i, n - 1);
      ScanStep(s, 32 * i + n - 1);
      SettledStep(s, 32 * i + n - 1);
    }
  }

  /** Every register but the claim register reads back as written, priorities and threshold by their low three bits. */
  lemma RegistersReadBack(s: PlicState, id: Source, w: nat, v: Word, before: Word)
    requires s.Valid() && id > 0 && w < WORDS
    ensures ReadValue(WriteTo(s, Priority(id), v), Priority(id), before) == v % 8
    ensures ReadValue(WriteTo(s, EnableWord(w), v), EnableWord(w), before) == v
    ensures ReadValue(WriteTo(s, PendingWord(w), v), PendingWord(w), before) == v
    ensures ReadValue(WriteTo(s, Threshold, v), Threshold, before) == v % 8
  {
    hide Replaced, Word32, Pack;
    WordReadsBack(s.enable, w, v);
    WordReadsBack(s.pending, w, v);
  }

  // What is presented

  predicate Waiting(s: PlicState, b: Source)
    requires s.Valid()
  {
    Requests(s, b) && !s.claimed[b]
  }

  lemma {:induction false} RankGrows(s: PlicState, w: nat, u: nat)
    requires s.Valid() && w < u <= WORDS && Active(s, w)
    ensures Rank(s, w) + 1 <= Rank(s, u)
  {
    hide Active;
    if w + 1 < u {
      RankGrows(s, w, u - 1);
    }
  }

  lemma IdsAreOrdered(s: PlicState, b: Source, c: Source)
    requires s.Valid() && b < c && Active(s, b / 32)
    ensures IdOf(s, b) < IdOf(s, c)
  {
    hide Active;
    if b / 32 < c / 32 {
      RankGrows(s, b / 32, c / 32);
    }
  }

  /** The scan finds the waiting bit of highest priority, and among equals the highest number. */
  lemma {:induction false} ScanFindsBest(s: PlicState, n: nat)
    requires s.Valid() && n <= SOURCES
    ensures var (irq, highest) := Scan(s, n);
      && (forall b: Source :: b < n && Waiting(s, b) ==>
            s.priority[IdOf(s, b)] < highest || (s.priority[IdOf(s, b)] == highest && IdOf(s, b) <= irq))
      && ((irq, highest) == (0, 0) || exists b: Source :: b < n && Waiting(s, b) && irq == IdOf(s, b) && highest == s.priority[irq])
    decreases n
  {
    hide Scan, Requests, IdOf;
    if n == 0 {
      ScanNothing(s);
    } else {
      ScanFindsBest(s, n - 1);
      ScanStep(s, n - 1);
      forall b: Source | b < n - 1 && Waiting(s, b)
        ensures IdOf(s, b) < IdOf(s, n - 1)
      {
        WaitingIsActive(s, b);
        IdsAreOrdered(s, b, n - 1);
      }
    }
  }

  lemma WaitingIsActive(s: PlicState, b: Source)
    requires s.Valid() && Waiting(s, b)
    ensures Active(s, b / 32) && s.enable[b] && s.pending[b] && s.priority[IdOf(s, b)] >= s.threshold && !s.claimed[b]
  {
  }

  /** Word `w` holds a bit that is both enabled and pending. */
  predicate Requesting(s: PlicState, w: nat)
    requires s.Valid() && w < WORDS
  {
    exists k :: 32 * w <= k < 32 * w + 32 && s.enable[k] && s.pending[k]
  }

  /** No word is skipped in front of one with an enabled pending bit. */
  predicate Ordered(s: PlicState)
    requires s.Valid()
  {
    forall w, u :: 0 <= u < w < WORDS && Requesting(s, w) ==> Active(s, u)
  }

  lemma {:induction false} RankIsFull(s: PlicState, w: nat)
    requires s.Valid() && w <= WORDS && forall u :: 0 <= u < w ==> Active(s, u)
    ensures Rank(s, w) == w
  {
    hide Active;
    if w > 0 {
      RankIsFull(s, w - 1);
    }
  }

  lemma {:induction false} RankMisses(s: PlicState, w: nat, u: nat)
    requires s.Valid() && u < w <= WORDS && !Active(s, u)
    ensures Rank(s, w) < w
  {
    hide Active;
    if u + 1 < w {
      RankMisses(s, w - 1, u);
    }
  }

  lemma RequestIsFound(s: PlicState, b: Source)
    requires s.Valid() && s.enable[b] && s.pending[b]
    ensures Requesting(s, b / 32) && Active(s, b / 32)
  {
    assert 32 * (b / 32) <= b < 32 * (b / 32) + 32;
  }

  lemma RequestOfWord(s: PlicState, w: nat) returns (b: Source)
    requires s.Valid() && w < WORDS && Requesting(s, w)
    ensures s.enable[b] && s.pending[b] && b / 32 == w
  {
    b :| 32 * w <= b < 32 * w + 32 && s.enable[b] && s.pending[b];
  }

  /** Exactly when no word is skipped in front of a requesting one, every request goes by its own number. */
  lemma NumbersAreRight(s: PlicState)
    requires s.Valid()
    ensures Ordered(s) <==> forall b: Source :: s.enable[b] && s.pending[b] ==> IdOf(s, b) == b
  {
    hide Active, Requesting, Rank;
    if Ordered(s) {
      forall b: Source | s.enable[b] && s.pending[b]
        ensures IdOf(s, b) == b
      {
        RequestIsFound(s, b);
        RankIsFull(s, b / 32);
      }
    } else {
      var w, u :| 0 <= u < w < WORDS && Requesting(s, w) && !Active(s, u);
      RankMisses(s, w, u);
      var b := RequestOfWord(s, w);
      assert IdOf(s, b) != b;
    }
  }

  /** Source `id` is enabled, pending, not below the threshold and not claimed. */
  predicate Eligible(s: PlicState, id: Source)
    requires s.Valid()
  {
    s.enable[id] && s.pending[id] && s.priority[id] >= s.threshold && !s.claimed[id]
  }

  lemma WaitingIsEligible(s: PlicState, b: Source)
    requires s.Valid() && Ordered(s)
    ensures Waiting(s, b) <==> Eligible(s, b)
    ensures Waiting(s, b) ==> IdOf(s, b) == b
  {
    NumbersAreRight(s);
    hide Active, IdOf, Ordered;
    if s.enable[b] && s.pending[b] {
      RequestIsFound(s, b);
    }
  }

  /**
    * The update is right: it presents the eligible source of highest priority, the highest number
    * among equals, and 0 exactly if no source above 0 is eligible.
    */
  predicate Right(s: PlicState)
    requires s.Valid()
  {
    var p := Presented(s);
    && (p > 0 ==> Eligible(s, p))
    && (p == 0 ==> forall id: Source :: id > 0 ==> !Eligible(s, id))
    && (forall id: Source :: Eligible(s, id) && id > 0 ==>
          s.priority[id] < s.priority[p] || (s.priority[id] == s.priority[p] && id <= p))
  }

  lemma PresentsTheBest(s: PlicState)
    requires s.Valid() && Ordered(s)
    ensures Right(s)
  {
    ScanFindsBest(s, SOURCES);
    hide Scan, Waiting, Eligible, IdOf, Ordered;
    forall b: Source
      ensures Waiting(s, b) <==> Eligible(s, b)
      ensures Waiting(s, b) ==> IdOf(s, b) == b
    {
      WaitingIsEligible(s, b);
    }
  }

  /** The same enabled and pending bits with equal priorities, no threshold and nothing claimed. */
  function Levelled(s: PlicState): (r: PlicState)
    requires s.Valid()
    ensures r.Valid()
  {
    s.(priority := seq(SOURCES, _ => 0), threshold := 0, claimed := seq(SOURCES, _ => false))
  }

  lemma LevelledIds(s: PlicState)
    requires s.Valid()
    ensures Ordered(Levelled(s)) == Ordered(s)
    ensures forall b: Source :: Eligible(Levelled(s), b) <==> s.enable[b] && s.pending[b]
  {
    var r := Levelled(s);
    assert forall w :: 0 <= w < WORDS ==> Requesting(r, w) == Requesting(s, w) && Active(r, w) == Active(s, w);
    hide Requesting, Active;
  }

  /** There is a last enabled pending bit, if there is one at all. */
  lemma LastRequest(s: PlicState, some: Source) returns (b: Source)
    requires s.Valid() && s.enable[some] && s.pending[some]
    ensures b >= some && s.enable[b] && s.pending[b] && forall c: Source :: c > b ==> !(s.enable[c] && s.pending[c])
  {
    b := some;
    var k := some + 1;
    while k < SOURCES
      invariant some <= b < k <= SOURCES && s.enable[b] && s.pending[b]
      invariant forall c: Source :: b < c < k ==> !(s.enable[c] && s.pending[c])
    {
      if s.enable[k] && s.pending[k] {
        b := k;
      }
      k := k + 1;
    }
  }

  lemma IdsFallBehind(s: PlicState, b: Source, u: nat)
    requires s.Valid() && u < b / 32 && !Active(s, u)
    ensures IdOf(s, b) < b
  {
    hide Active;
    RankMisses(s, b / 32, u);
  }

  lemma WaitingRequests(s: PlicState, b: Source)
    requires s.Valid() && Waiting(s, b)
    ensures s.enable[b] && s.pending[b]
  {
  }

  /** A skipped word in front of a request: the levelled update misses the last request. */
  lemma MisorderedIsWrong(s: PlicState)
    requires s.Valid() && !Ordered(s)
    ensures !Right(Levelled(s))
  {
    var r := Levelled(s);
    LevelledIds(s);
    hide Active, Requesting, IdOf, Scan, Eligible, Waiting;
    var w, u :| 0 <= u < w < WORDS && Requesting(r, w) && !Active(r, u);
    var some := RequestOfWord(r, w);
    var last := LastRequest(r, some);
    ScanFindsBest(r, SOURCES);
    IdsFallBehind(r, last, u);
    forall b: Source | Waiting(r, b)
      ensures IdOf(r, b) < last
    {
      WaitingRequests(r, b);
      if b < last {
        RequestIsFound(r, b);
        IdsAreOrdered(r, b, last);
      }
    }
    assert Presented(r) < last;
    assert Eligible(r, last);
  }

  /**
    * For given enabled and pending bits, the update is right for all priorities, thresholds and
    * claims if and only if no word is skipped in front of a requesting one.
    */
  lemma UpdateIsRightExactly(s: PlicState)
    requires s.Valid()
    ensures Ordered(s)
        <==> forall r: PlicState :: r.Valid() && r.enable == s.enable && r.pending == s.pending ==> Right(r)
  {
    hide Right;
    if Ordered(s) {
      forall r: PlicState | r.Valid() && r.enable == s.enable && r.pending == s.pending
        ensures Right(r)
      {
        SameOrder(s, r);
        PresentsTheBest(r);
      }
    } else {
      MisorderedIsWrong(s);
    }
  }

  lemma SameOrder(s: PlicState, r: PlicState)
    requires s.Valid() && r.Valid() && r.enable == s.enable && r.pending == s.pending
    ensures Ordered(r) == Ordered(s)
  {
    assert forall w :: 0 <= w < WORDS ==> Requesting(r, w) == Requesting(s, w) && Active(r, w) == Active(s, w);
    hide Requesting, Active;
  }

  /** Only sources below 32 are enabled. */
  predicate LowSourcesOnly(s: PlicState)
    requires s.Valid()
  {
    forall b :: 32 <= b < SOURCES ==> !s.enable[b]
  }

  lemma LowSourcesAreOrdered(s: PlicState)
    requires s.Valid() && LowSourcesOnly(s)
    ensures Ordered(s)
  {
  }

  /** Source 33 alone is presented as source 1. */
  lemma SkippedWordMisnumbers()
    ensures var bits := seq(SOURCES, k => k == 33);
      var s := PlicState(seq(SOURCES, _ => 0), bits, bits, seq(SOURCES, _ => false), 0, 0);
      s.Valid() && Eligible(s, 33) && !Eligible(s, 1) && Presented(s) == 1
  {
    var bits := seq(SOURCES, k => k == 33);
    var s := PlicState(seq(SOURCES, _ => 0), bits, bits, seq(SOURCES, _ => false), 0, 0);
    assert bits[33];
    RequestIsFound(s, 33);
    assert !Active(s, 0) && Active(s, 1);
    assert Rank(s, 1) == 0 && IdOf(s, 33) == 1;
    assert Waiting(s, 33);
    ScanFindsBest(s, SOURCES);
    hide Scan, IdOf;
    assert forall b: Source :: Waiting(s, b) ==> b == 33;
  }

  /** A completion releases its source, and only that: it can be presented again as soon as it requests. */
  lemma CompletionReleases(s: PlicState, id: Source)
    requires s.Valid()
    ensures var q := WriteTo(s, Claim, id);
      && !q.claimed[id] && (forall k: Source :: k != id ==> q.claimed[k] == s.claimed[k])
      && q == s.(claimed := q.claimed, claim := id)
      && (Eligible(q, id) <==> s.enable[id] && s.pending[id] && s.priority[id] >= s.threshold)
  {
  }

  /** Completed, still requesting and better than every other eligible source, it is presented by the next update. */
  lemma CompletedIsPresentedAgain(s: PlicState, id: Source)
    requires s.Valid() && Ordered(s) && id > 0 && s.enable[id] && s.pending[id] && s.priority[id] >= s.threshold
    requires forall k: Source :: k != id && Eligible(s, k) ==> s.priority[k] < s.priority[id]
    ensures Presented(WriteTo(s, Claim, id)) == id
  {
    var q := WriteTo(s, Claim, id);
    CompletionReleases(s, id);
    SameOrder(s, q);
    hide Presented, Ordered;
    PresentsTheBest(q);
    assert forall k: Source :: k != id ==> Eligible(q, k) == Eligible(s, k);
  }

  // The claim protocol

  datatype Event =
    | Line(id: Source, level: bool)
    | Update
    | WriteReg(r: Register, v: Word)
    | ReadReg(r: Register)
  {
    predicate Legal() {
      match this
      case WriteReg(r, v) => r.Exists() && (r.Claim? ==> v < SOURCES)
      case ReadReg(r) => r.Exists()
      case _ => true
    }
  }

  function Step(s: PlicState, e: Event): (q: PlicState)
    requires s.Valid() && e.Legal()
    ensures q.Valid()
  {
    match e
    case Line(id, level) => s.(pending := s.pending[id := level])
    case Update => Updated(s)
    case WriteReg(r, v) => WriteTo(s, r, v)
    case ReadReg(r) => ReadFrom(s, r)
  }

  ghost predicate LegalEvents(es: seq<Event>) {
    forall e :: e in es ==> e.Legal()
  }

  /** At every update of the run, no word is skipped in front of a requesting one. */
  ghost predicate AlwaysOrdered(s: PlicState, es: seq<Event>)
    requires s.Valid() && LegalEvents(es)
    decreases es
  {
    es == [] || ((es[0].Update? ==> Ordered(s)) && AlwaysOrdered(Step(s, es[0]), es[1..]))
  }

  /** No update of the run presents `id`. */
  ghost predicate NeverPresented(s: PlicState, es: seq<Event>, id: Source)
    requires s.Valid() && LegalEvents(es)
    decreases es
  {
    es == [] || ((es[0].Update? ==> Presented(s) != id) && NeverPresented(Step(s, es[0]), es[1..], id))
  }

  predicate Completes(e: Event, id: Source) {
    e.WriteReg? && e.r.Claim? && e.v == id
  }

  lemma ClaimStays(s: PlicState, e: Event, id: Source)
    requires s.Valid() && e.Legal() && s.claimed[id] && !Completes(e, id)
    ensures Step(s, e).claimed[id]
  {
    hide Scan, Settled, Sane, Replaced;
  }

  /** Updates of the run present `id` at most while a word is skipped in front of a requesting one. */
  ghost predicate PresentedOnlyMisordered(s: PlicState, es: seq<Event>, id: Source)
    requires s.Valid() && LegalEvents(es)
    decreases es
  {
    es == [] ||
    ((es[0].Update? && Presented(s) == id ==> !Ordered(s)) && PresentedOnlyMisordered(Step(s, es[0]), es[1..], id))
  }

  /**
    * Over every run, a claimed source is not presented again before its completion, but by an
    * update that takes another source for it because a word is skipped in front of a requesting one.
    */
  lemma {:induction false} ClaimedUntilCompletion(s: PlicState, es: seq<Event>, id: Source)
    requires s.Valid() && LegalEvents(es) && id > 0 && s.claimed[id]
    requires forall e :: e in es ==> !Completes(e, id)
    ensures PresentedOnlyMisordered(s, es, id)
    ensures AlwaysOrdered(s, es) ==> NeverPresented(s, es, id)
    decreases es
  {
    hide Step, Presented, Ordered;
    if es != [] {
      if es[0].Update? && Ordered(s) {
        PresentsTheBest(s);
      }
      ClaimStays(s, es[0], id);
      ClaimedUntilCompletion(Step(s, es[0]), es[1..], id);
    }
  }

  /**
    * Reading the claim register right after an update hands out the presented source, claims it,
    * and keeps it from being presented until the run completes it.
    */
  lemma ClaimProtocol(s: PlicState, es: seq<Event>)
    requires s.Valid() && Ordered(s) && Presented(s) > 0 && LegalEvents(es)
    ensures var u := Updated(s);
      var id, c := ReadValue(u, Claim, 0), ReadFrom(u, Claim);
      && id == Presented(s) && c.claimed[id] && Eligible(s, id)
      && (AlwaysOrdered(c, es) && (forall e :: e in es ==> !Completes(e, id)) ==> NeverPresented(c, es, id))
  {
    PresentsTheBest(s);
    var id := Presented(s);
    var u := Updated(s);
    hide Presented, Ordered, AlwaysOrdered, NeverPresented;
    assert u.pending[id];
    var c := ReadFrom(u, Claim);
    if AlwaysOrdered(c, es) && (forall e :: e in es ==> !Completes(e, id)) {
      ClaimedUntilCompletion(c, es, id);
    }
  }

  /** If a run enables no source from 32 up, every update of it is right. */
  lemma {:induction false} LowRunsAreOrdered(s: PlicState, es: seq<Event>)
    requires s.Valid() && LegalEvents(es) && LowSourcesOnly(s)
    requires forall e :: e in es && e.WriteReg? && e.r.EnableWord? ==> e.r.w == 0
    ensures AlwaysOrdered(s, es)
    decreases es
  {
    hide Step, Ordered, LowSourcesOnly;
    if es != [] {
      LowSourcesAreOrdered(s);
      LowStays(s, es[0]);
      LowRunsAreOrdered(Step(s, es[0]), es[1..]);
    }
  }

  lemma LowStays(s: PlicState, e: Event)
    requires s.Valid() && e.Legal() && LowSourcesOnly(s) && (e.WriteReg? && e.r.EnableWord? ==> e.r.w == 0)
    ensures LowSourcesOnly(Step(s, e))
  {
    hide Scan, Settled, Sane, Unpack;
  }

  /** A word above a skipped one escapes the protocol: claiming source 33 does not claim anything. */
  lemma MisnumberedClaimIsLost()
    ensures var bits := seq(SOURCES, k => k == 33);
      var s := PlicState(seq(SOURCES, _ => 0), bits, bits, seq(SOURCES, _ => false), 0, 0);
      s.Valid() && ReadFrom(Updated(s), Claim).claimed == s.claimed && Presented(ReadFrom(Updated(s), Claim)) == Presented(s)
  {
    SkippedWordMisnumbers();
    var bits := seq(SOURCES, k => k == 33);
    var s := PlicState(seq(SOURCES, _ => 0), bits, bits, seq(SOURCES, _ => false), 0, 0);
    hide Scan, Requests;
    assert Settled(s, SOURCES) == bits;
    var c := ReadFrom(Updated(s), Claim);
    assert c == s.(claim := 1);
    ScanIgnoresClaim(s, c, SOURCES);
  }

  lemma {:induction false} ScanIgnoresClaim(s: PlicState, c: PlicState, n: nat)
    requires s.Valid() && c.Valid() && c == s.(claim := c.claim) && n <= SOURCES
    ensures Scan(c, n) == Scan(s, n)
  {
    hide Scan, Requests, Active, IdOf;
    if n == 0 {
      ScanNothing(s);
      ScanNothing(c);
    } else {
      ScanIgnoresClaim(s, c, n - 1);
      ScanStep(s, n - 1);
      ScanStep(c, n - 1);
      SameIds(s, c, n - 1);
    }
  }

  lemma SameIds(s: PlicState, c: PlicState, b: Source)
    requires s.Valid() && c.Valid() && c == s.(claim := c.claim)
    ensures IdOf(c, b) == IdOf(s, b) && Active(c, b / 32) == Active(s, b / 32)
  {
    SameRank(s, c, b / 32);
  }

  lemma {:induction false} SameRank(s: PlicState, c: PlicState, w: nat)
    requires s.Valid() && c.Valid() && c == s.(claim := c.claim) && w <= WORDS
    ensures Rank(c, w) == Rank(s, w)
  {
    if w > 0 {
      SameRank(s, c, w - 1);
    }
  }
}
