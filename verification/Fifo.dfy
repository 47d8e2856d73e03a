/** The ring buffer of src/helpers/fifo.c as a bounded queue of bytes. */
module Fifo {
  import opened Words
  import opened Quotients

  /** Bitwise and. */
  function And(x: nat, y: nat): (r: nat)
    ensures r <= y
  {
    if x == 0 || y == 0 then 0
    else 2 * And(x / 2, y / 2) + if x % 2 == 1 && y % 2 == 1 then 1 else 0
  }

  lemma LowerOfDouble(x: nat, half: nat)
    requires half > 0
    ensures Lower(x, 2 * half) == 2 * Lower(x / 2, half) + x % 2
  {
    Split(x / 2, half);
    hide Lower, Upper;
    var q := Upper(x / 2, half);
    assert q * (2 * half) == 2 * (q * half);
    Unique(x, 2 * half, q, 2 * Lower(x / 2, half) + x % 2);
  }

  /** Masking with 2^k - 1 is the remainder by 2^k. */
  lemma {:induction false} AndMask(x: nat, k: nat)
    ensures And(x, Pow2(k) - 1) == Lower(x, Pow2(k))
    decreases k
  {
    hide Lower;
    if k == 0 {
      Unique(x, 1, x, 0);
    } else {
      AndMask(x / 2, k - 1);
      LowerOfDouble(x, Pow2(k - 1));
      if x == 0 {
        Small(0, Pow2(k));
      } else {
        var y := Pow2(k) - 1;
        assert y / 2 == Pow2(k - 1) - 1 && y % 2 == 1;
      }
    }
  }

  /** The capacities that the mask works for. */
  ghost predicate IsCapacity(size: nat) {
    exists k: nat :: k <= 31 && size == Pow2(k)
  }

  lemma CapacityBounds(size: nat)
    requires IsCapacity(size)
    ensures 1 <= size <= 0x8000_0000
  {
    var k: nat :| k <= 31 && size == Pow2(k);
    Pow2Monotonic(k, 31);
    Pow2Word();
  }

  /** A counter selects its slot by masking. */
  function Slot(count: Word, size: nat): (r: nat)
    requires size > 0
    ensures r < size
  {
    And(count, size - 1)
  }

  /** The slot `n` places further on. */
  function Ring(p: nat, n: nat, size: nat): nat
    requires p < size && n <= size
  {
    if p + n < size then p + n else p + n - size
  }

  lemma RingIsModulo(c: nat, n: nat, size: nat)
    requires n <= size && 0 < size
    ensures Lower(c, size) < size && Lower(c + n, size) == Ring(Lower(c, size), n, size)
  {
    Split(c, size);
    hide Lower, Upper;
    var q, p := Upper(c, size), Lower(c, size);
    Distribute(q, 1, size);
    Unique(c + n, size, if p + n < size then q else q + 1, Ring(p, n, size));
  }

  lemma LowerOfSum(x: nat, q: nat, size: nat)
    requires size > 0
    ensures Lower(x + q * size, size) == Lower(x, size)
  {
    Split(x, size);
    hide Lower, Upper;
    Distribute(Upper(x, size), q, size);
    Unique(x + q * size, size, Upper(x, size) + q, Lower(x, size));
  }

  /** 2^32 is a multiple of every capacity, so that the counters may wrap. */
  lemma WrapKeepsSlot(c: nat, k: nat)
    requires k <= 31 && c < 2 * LIMIT
    ensures Lower(Wrap(c), Pow2(k)) == Lower(c, Pow2(k))
  {
    hide Lower, Pow2;
    Pow2Sum(32 - k, k);
    Pow2Word();
    if c >= LIMIT {
      assert c == Wrap(c) + Pow2(32 - k) * Pow2(k);
      LowerOfSum(Wrap(c), Pow2(32 - k), Pow2(k));
    }
  }

  /** Advancing a counter, even past 2^32, advances its slot around the ring. */
  lemma SlotAdvances(count: Word, n: nat, size: nat)
    requires IsCapacity(size) && n <= size
    ensures Slot(Wrap(count + n), size) == Ring(Slot(count, size), n, size)
  {
    CapacityBounds(size);
    var k: nat :| k <= 31 && size == Pow2(k);
    hide And, Lower, Upper, Wrap;
    AndMask(count, k);
    AndMask(Wrap(count + n), k);
    WrapKeepsSlot(count + n, k);
    RingIsModulo(count, n, size);
  }

  /** The `len` bytes from slot `p` on. */
  function Window(data: seq<Byte>, p: nat, len: nat): (w: seq<Byte>)
    requires p < |data| && len <= |data|
    ensures |w| == len
  {
    seq(len, j requires 0 <= j < len => data[Ring(p, j, |data|)])
  }

  /** `after` is `before` with `src` written from slot `p` on. */
  predicate WrittenFrom(before: seq<Byte>, after: seq<Byte>, p: nat, src: seq<Byte>)
    requires p < |before| && |after| == |before| && |src| <= |before|
  {
    (forall i :: 0 <= i < |src| ==> after[Ring(p, i, |before|)] == src[i])
    && (forall i :: |src| <= i < |before| ==> after[Ring(p, i, |before|)] == before[Ring(p, i, |before|)])
  }

  lemma RingTwice(p: nat, n: nat, j: nat, size: nat)
    requires p < size && n <= size && n + j <= size
    ensures Ring(Ring(p, n, size), j, size) == Ring(p, n + j, size)
  {
  }

  /** Bytes written behind a window lengthen it and leave what it held. */
  lemma WindowGrows(before: seq<Byte>, after: seq<Byte>, p: nat, len: nat, src: seq<Byte>)
    requires p < |before| && |after| == |before| && len + |src| <= |before|
    requires WrittenFrom(before, after, Ring(p, len, |before|), src)
    ensures Window(after, p, len + |src|) == Window(before, p, len) + src
  {
    var size := |before|;
    var end := Ring(p, len, size);
    forall j | 0 <= j < len
      ensures after[Ring(p, j, size)] == before[Ring(p, j, size)]
    {
      assert Ring(p, j, size) == Ring(end, size - len + j, size);
    }
    forall j | 0 <= j < |src|
      ensures after[Ring(p, len + j, size)] == src[j]
    {
      RingTwice(p, len, j, size);
    }
  }

  /** Skipping bytes at the front of a window. */
  lemma WindowShrinks(data: seq<Byte>, p: nat, len: nat, n: nat)
    requires p < |data| && n <= len <= |data|
    ensures Window(data, Ring(p, n, |data|), len - n) == Window(data, p, len)[n..]
  {
    forall j | 0 <= j < len - n
      ensures data[Ring(Ring(p, n, |data|), j, |data|)] == data[Ring(p, n + j, |data|)]
    {
      RingTwice(p, n, j, |data|);
    }
  }

  function Min(x: nat, y: nat): nat {
    if x < y then x else y
  }

  class Buffer {
    var inCount: Word
    var outCount: Word
    const mask: Word
    const data: array<Byte>

    /** What was accepted and what was handed out since the last reset. */
    ghost var accepted: seq<Byte>
    ghost var delivered: seq<Byte>

    ghost predicate Valid()
      reads this, data
    {
      && IsCapacity(data.Length) && data.Length > 0 && mask == data.Length - 1
      && Used() <= data.Length
      && accepted == delivered + Contents()
    }

    function Used(): Word
      reads this
    {
      Wrap(inCount - outCount)
    }

    ghost function Contents(): seq<Byte>
      reads this, data
      requires data.Length > 0 && Used() <= data.Length
    {
      Window(data[..], Slot(outCount, data.Length), Used())
    }

    constructor (data: array<Byte>)
      requires IsCapacity(data.Length)
      ensures Valid() && this.data == data && Contents() == [] && accepted == [] && delivered == []
    {
      CapacityBounds(data.Length);
      inCount, outCount := 0, 0;
      mask := data.Length - 1;
      this.data := data;
      accepted, delivered := [], [];
    }

    method Reset()
      requires Valid()
      modifies this
      ensures Valid() && Contents() == [] && accepted == [] && delivered == []
    {
      inCount, outCount := 0, 0;
      accepted, delivered := [], [];
    }

    method Size() returns (n: nat)
      requires Valid()
      ensures n == data.Length
    {
      CapacityBounds(data.Length);
      n := Wrap(mask + 1);
    }

    method Len() returns (n: nat)
      requires Valid()
      ensures n == |Contents()| && n <= data.Length
    {
      n := Wrap(inCount - outCount);
    }

    method IsEmpty() returns (b: bool)
      requires Valid()
      ensures b <==> Contents() == []
    {
      b := inCount == outCount;
    }

    method IsFull() returns (b: bool)
      requires Valid()
      ensures b <==> |Contents()| == data.Length
    {
      var n := Len();
      b := n > mask;
    }

    method Free() returns (n: nat)
      requires Valid()
      ensures n == data.Length - |Contents()|
    {
      hide Window, Slot, And;
      CapacityBounds(data.Length);
      n := Wrap(Wrap(mask + 1) - Wrap(inCount - outCount));
    }

    lemma Ends()
      requires Valid()
      ensures inCount == Wrap(outCount + Used())
      ensures Slot(inCount, data.Length) == Ring(Slot(outCount, data.Length), Used(), data.Length)
    {
      hide Window, Slot, And, Ring;
      SlotAdvances(outCount, Used(), data.Length);
    }

    method Put(v: Byte) returns (ok: bool)
      requires Valid()
      modifies this, data
      ensures Valid()
      ensures ok <==> |old(Contents())| < data.Length
      ensures Contents() == if ok then old(Contents()) + [v] else old(Contents())
      ensures accepted == (if ok then old(accepted) + [v] else old(accepted)) && delivered == old(delivered)
    {
      var full := IsFull();
      ok := !full;
      if ok {
        CapacityBounds(data.Length);
        var slot := And(inCount, mask);
        assert slot == Slot(inCount, data.Length);
        hide Window, Slot, And;
        ghost var before, was := data[..], Contents();
        Ends();
        data[slot] := v;
        WindowGrows(before, data[..], Slot(outCount, data.Length), Used(), [v]);
        hide WrittenFrom, Used, Ring;
        Commit(1, was, [v]);
      }
    }

    method Get() returns (v: Option<Byte>)
      requires Valid()
      modifies this
      ensures Valid()
      ensures v.None? <==> old(Contents()) == []
      ensures v.None? ==> Contents() == old(Contents()) && delivered == old(delivered)
      ensures v.Some? ==> old(Contents()) == [v.value] + Contents() && delivered == old(delivered) + [v.value]
      ensures accepted == old(accepted)
    {
      var empty := IsEmpty();
      if empty {
        return None;
      }
      var slot := And(outCount, mask);
      assert slot == Slot(outCount, data.Length);
      hide Slot, And;
      v := Some(data[slot]);
      assert v.value == Contents()[0];
      hide Window, Used;
      Skip(1);
    }

    /** fifo_copy_out */
    method CopyOut(dst: array<Byte>, len: nat)
      requires Valid() && dst != data && len <= Used() && len <= dst.Length
      modifies dst
      ensures dst[..] == Contents()[..len] + old(dst[len..])
    {
      var off := And(outCount, mask);
      assert off == Slot(outCount, data.Length);
      hide Slot, And, Wrap;
      CopyFrom(dst, data, off, len);
    }

    /** fifo_copy_in */
    method CopyIn(src: array<Byte>, len: nat)
      requires Valid() && src != data && len <= src.Length && Used() + len <= data.Length
      modifies data
      ensures WrittenFrom(old(data[..]), data[..], Ring(Slot(outCount, data.Length), Used(), data.Length), src[..len])
    {
      var off := And(inCount, mask);
      assert off == Slot(inCount, data.Length);
      hide Slot, And, Wrap, Window, WrittenFrom;
      Ends();
      CopyInto(data, off, src, len);
    }

    /** fifo_out_peek: copies without taking. */
    method OutPeek(dst: array<Byte>, len: Word) returns (n: nat)
      requires Valid() && dst != data && Min(len, |Contents()|) <= dst.Length
      modifies dst
      ensures n == Min(len, |Contents()|)
      ensures dst[..] == Contents()[..n] + old(dst[n..])
    {
      n := Len();
      if len <= n {
        n := len;
      }
      CopyOut(dst, n);
    }

    /** fifo_out: its count is an unsigned long, but only the low 32 bits of it are used. */
    method Out(dst: array<Byte>, len: nat) returns (n: nat)
      requires Valid() && dst != data && Min(Wrap(len), |Contents()|) <= dst.Length
      modifies this, dst
      ensures Valid()
      ensures n == Min(Wrap(len), |old(Contents())|)
      ensures dst[..] == old(Contents())[..n] + old(dst[n..])
      ensures Contents() == old(Contents())[n..]
      ensures delivered == old(delivered) + old(Contents())[..n] && accepted == old(accepted)
    {
      hide Window, Slot, Used, Wrap;
      n := OutPeek(dst, Wrap(len));
      Skip(n);
    }

    /** fifo->out += n */
    method Skip(n: nat)
      requires Valid() && n <= |Contents()|
      modifies this
      ensures Valid()
      ensures Contents() == old(Contents())[n..]
      ensures delivered == old(delivered) + old(Contents())[..n] && accepted == old(accepted)
    {
      hide Slot, And, Window, Ring, Wrap;
      Ends();
      WindowShrinks(data[..], Slot(outCount, data.Length), Used(), n);
      SlotAdvances(outCount, n, data.Length);
      CountDown(inCount, outCount, n);
      ghost var was := Contents();
      delivered := delivered + was[..n];
      outCount := Wrap(outCount + n);
      assert was == was[..n] + was[n..];
    }

    /** fifo->in += n, after the bytes were written behind the contents. */
    method Commit(n: nat, ghost was: seq<Byte>, ghost bytes: seq<Byte>)
      requires IsCapacity(data.Length) && data.Length > 0 && mask == data.Length - 1 && Used() + n <= data.Length
      requires n == |bytes| && accepted == delivered + was
      requires Window(data[..], Slot(outCount, data.Length), Used() + n) == was + bytes
      modifies this
      ensures Valid()
      ensures Contents() == was + bytes
      ensures accepted == old(accepted) + bytes && delivered == old(delivered)
    {
      hide Window, Slot;
      CapacityBounds(data.Length);
      CountUp(inCount, outCount, n);
      inCount := Wrap(inCount + n);
      accepted := accepted + bytes;
    }

    /** fifo_in: appends as much of the source as there is room for. */
    method In(src: array<Byte>, len: nat) returns (n: nat)
      requires Valid() && src != data && Min(len, data.Length - |Contents()|) <= src.Length
      modifies this, data
      ensures Valid()
      ensures n == Min(len, data.Length - |old(Contents())|)
      ensures Contents() == old(Contents()) + src[..n]
      ensures accepted == old(accepted) + src[..n] && delivered == old(delivered)
    {
      n := Free();
      if len <= n {
        n := len;
      }
      hide Window, Slot, And;
      ghost var before, was := data[..], Contents();
      CopyIn(src, n);
      WindowGrows(before, data[..], Slot(outCount, data.Length), Used(), src[..n]);
      hide WrittenFrom, Used, Ring;
      Commit(n, was, src[..n]);
    }
  }

  /** The slots up to the end of the ring, then those from its start. */
  method CopyFrom(dst: array<Byte>, data: array<Byte>, off: nat, len: nat)
    requires dst != data && off < data.Length && len <= data.Length && len <= dst.Length
    modifies dst
    ensures dst[..] == Window(data[..], off, len) + old(dst[len..])
  {
    var l := Min(data.Length - off, len);
    ghost var before := dst[..];
    MemCopy(dst, 0, data, off, l);
    ghost var between := dst[..];
    MemCopy(dst, l, data, 0, len - l);
    hide Window;
    TwoPieces(data[..], off, len, l);
    TwoCopies(before, between, dst[..], data[off..off + l], data[..len - l]);
  }

  method CopyInto(data: array<Byte>, off: nat, src: array<Byte>, len: nat)
    requires src != data && off < data.Length && len <= data.Length && len <= src.Length
    modifies data
    ensures WrittenFrom(old(data[..]), data[..], off, src[..len])
  {
    var l := data.Length - off;
    if len < l {
      l := len;
    }
    ghost var before := data[..];
    MemCopy(data, off, src, 0, l);
    ghost var between := data[..];
    MemCopy(data, 0, src, l, len - l);
    hide WrittenFrom;
    WrittenInPieces(before, between, data[..], off, src[..len], l);
  }

  method MemCopy(dst: array<Byte>, d: nat, src: array<Byte>, s: nat, n: nat)
    requires d + n <= dst.Length && s + n <= src.Length && dst != src
    modifies dst
    ensures dst[..] == old(dst[..d]) + src[s..s + n] + old(dst[d + n..])
  {
    forall i | 0 <= i < n {
      dst[d + i] := src[s + i];
    }
  }

  lemma TwoCopies(before: seq<Byte>, between: seq<Byte>, after: seq<Byte>, a: seq<Byte>, b: seq<Byte>)
    requires |a| + |b| <= |before|
    requires between == a + before[|a|..]
    requires after == between[..|a|] + b + between[|a| + |b|..]
    ensures after == a + b + before[|a| + |b|..]
  {
  }

  lemma WrittenInPieces(before: seq<Byte>, between: seq<Byte>, after: seq<Byte>, p: nat, src: seq<Byte>, l: nat)
    requires p < |before| && |src| <= |before| && l == Min(|before| - p, |src|)
    requires between == before[..p] + src[..l] + before[p + l..]
    requires after == src[l..] + between[|src| - l..]
    ensures WrittenFrom(before, after, p, src)
  {
    forall i | 0 <= i < |before|
      ensures after[Ring(p, i, |before|)] == if i < |src| then src[i] else before[Ring(p, i, |before|)]
    {
      var k := Ring(p, i, |before|);
      assert after[k] == if k < |src| - l then src[l + k] else between[k];
    }
  }

  /** A window is the slots up to the end of the array followed by the first slots. */
  lemma TwoPieces(data: seq<Byte>, p: nat, len: nat, l: nat)
    requires p < |data| && len <= |data| && l == Min(|data| - p, len)
    ensures data[p..p + l] + data[..len - l] == Window(data, p, len)
  {
  }

  lemma CountUp(a: Word, b: Word, n: nat)
    requires Wrap(a - b) + n < LIMIT
    ensures Wrap(Wrap(a + n) - b) == Wrap(a - b) + n
  {
  }

  lemma CountDown(a: Word, b: Word, n: nat)
    requires n <= Wrap(a - b)
    ensures Wrap(a - Wrap(b + n)) == Wrap(a - b) - n
  {
  }
}
