/** Machine words, privilege levels and the flat byte memory shared by every module. */
module Words {
  /** The range of a 32-bit word. */
  const LIMIT := 0x1_0000_0000

  /** An rv_uint_xlen of the RV32 configuration; the test of bit n of `w` is `w / 2^n % 2 == 1`. */
  type Word = w: int | 0 <= w < 0x1_0000_0000
  type Byte = b: int | 0 <= b < 256

  /** Unsigned 32-bit arithmetic: the result modulo 2^32. */
  function Wrap(x: int): Word {
    x % 0x1_0000_0000
  }

  lemma WrapDrops(k: nat, x: nat)
    requires x < LIMIT
    ensures Wrap(0x1_0000_0000 * k + x) == x
  {
  }

  /** A word shifted left by two. */
  function Times4(w: Word): Word {
    Wrap(4 * w)
  }

  /** The bus: every 32-bit address holds one byte. */
  type Memory = Word -> Byte

  /** The numbers of `privilege_level`; 2 is the reserved encoding that MPP can hold. */
  type Priv = p: int | 0 <= p <= 3

  const USER: Priv := 0
  const SUPERVISOR: Priv := 1
  const RESERVED: Priv := 2
  const MACHINE: Priv := 3

  datatype Access = Read | Write | Fetch

  datatype Ret = Ok | Err

  /** The number of an exception or an interrupt. */
  type Cause = c: int | 0 <= c < 32

  /** An exception that a failing access latches: its cause and the value for xtval. */
  datatype Fault = Fault(cause: Cause, tval: Word)

  datatype Result<+T, +E> = Success(value: T) | Failure(error: E)

  datatype Option<+T> = None | Some(value: T)

  function Pow2(n: nat): (r: nat)
    ensures r >= 1
  {
    if n == 0 then 1 else 2 * Pow2(n - 1)
  }

  lemma Pow2Sum(m: nat, n: nat)
    ensures Pow2(m + n) == Pow2(m) * Pow2(n)
  {
    if n > 0 {
      Pow2Sum(m, n - 1);
    }
  }

  lemma Pow2Monotonic(m: nat, n: nat)
    requires m <= n
    ensures Pow2(m) <= Pow2(n)
  {
  }

  lemma Pow2Word()
    ensures Pow2(16) == 0x1_0000 && Pow2(31) == 0x8000_0000 && Pow2(32) == LIMIT
  {
    assert Pow2(8) == 0x100;
    Pow2Sum(8, 8);
    Pow2Sum(16, 16);
  }

  /** Bit `n` of a number. */
  predicate HasBit(v: nat, n: nat) {
    v / Pow2(n) % 2 == 1
  }

  lemma LowPowers()
    ensures Pow2(0) == 1 && Pow2(1) == 2 && Pow2(2) == 4 && Pow2(3) == 8 && Pow2(4) == 16
    ensures Pow2(5) == 32 && Pow2(6) == 64 && Pow2(7) == 128 && Pow2(8) == 256 && Pow2(10) == 1024
  {
    assert Pow2(4) == 16;
    assert Pow2(8) == 16 * Pow2(4);
  }

  // Control registers that are only masked and shifted are kept as bit vectors.

  function Bits(w: Word): bv32 {
    w as bv32
  }

  function Value(b: bv32): Word {
    b as int
  }

  lemma BitsOfValue(b: bv32)
    ensures Bits(Value(b)) == b
  {
  }

  // Bytes of a word; the host is little-endian

  /** Byte `k` of a word, least significant first. */
  function ByteOf(w: nat, k: nat): Byte {
    if k == 0 then w % 0x100 else ByteOf(w / 0x100, k - 1)
  }

  function WordOf(b0: Byte, b1: Byte, b2: Byte, b3: Byte): Word {
    b0 + 0x100 * (b1 + 0x100 * (b2 + 0x100 * b3))
  }

  /** The access widths the core uses. */
  predicate Width(len: nat) {
    len == 1 || len == 2 || len == 4
  }

  /** The `len` bytes at `a` as a zero-extended little-endian value. */
  function ReadBytes(m: Memory, a: Word, len: nat): Word {
    if len == 1 then WordOf(m(a), 0, 0, 0)
    else if len == 2 then WordOf(m(a), m(Wrap(a + 1)), 0, 0)
    else WordOf(m(a), m(Wrap(a + 1)), m(Wrap(a + 2)), m(Wrap(a + 3)))
  }

  /** `b` is one of the `len` bytes of an access at `a`. */
  predicate InAccess(b: Word, a: Word, len: nat) {
    Wrap(b - a) < len
  }

  /** Memory after the low `len` bytes of `v` were stored at `a`. */
  function WriteBytes(m: Memory, a: Word, len: nat, v: Word): Memory {
    (p: Word) => if InAccess(p, a, len) then ByteOf(v, Wrap(p - a)) else m(p)
  }

  lemma Written(m: Memory, a: Word, len: nat, v: Word, p: Word)
    ensures WriteBytes(m, a, len, v)(p) == if InAccess(p, a, len) then ByteOf(v, Wrap(p - a)) else m(p)
  {
  }

  /** A word read back from where it was stored is the word that was stored. */
  lemma ReadBack(m: Memory, a: Word, v: Word)
    ensures ReadBytes(WriteBytes(m, a, 4, v), a, 4) == v
  {
    hide ByteOf, WordOf;
    WrittenByte(m, a, v, 0);
    WrittenByte(m, a, v, 1);
    WrittenByte(m, a, v, 2);
    WrittenByte(m, a, v, 3);
    assert Wrap(a + 0) == a;
    BytesOfWord(v);
  }

  lemma WrittenByte(m: Memory, a: Word, v: Word, k: nat)
    requires k < 4
    ensures WriteBytes(m, a, 4, v)(Wrap(a + k)) == ByteOf(v, k)
  {
    hide ByteOf;
    assert Wrap(Wrap(a + k) - a) == k;
    Written(m, a, 4, v, Wrap(a + k));
  }

  lemma FirstBytes(v: nat, b1: Byte, b2: Byte, b3: Byte)
    requires v / 0x100 == b1 + 0x100 * (b2 + 0x100 * b3)
    ensures WordOf(ByteOf(v, 0), b1, b2, b3) == v
  {
  }

  lemma BytesOfWord(v: Word)
    ensures WordOf(ByteOf(v, 0), ByteOf(v, 1), ByteOf(v, 2), ByteOf(v, 3)) == v
  {
    var v1 := v / 0x100;
    var v2 := v1 / 0x100;
    FirstBytes(v2, ByteOf(v2, 1), 0, 0);
    FirstBytes(v1, ByteOf(v1, 1), ByteOf(v1, 2), 0);
    FirstBytes(v, ByteOf(v, 1), ByteOf(v, 2), ByteOf(v, 3));
  }

  lemma ApartBytes(a: Word, b: Word, k: nat)
    requires a % 4 == 0 && b % 4 == 0 && a != b && k < 4
    ensures !InAccess(Wrap(b + k), a, 4)
  {
    assert Wrap(b + k) == b + k;
  }

  /** An aligned word elsewhere is not changed by a store. */
  lemma ReadApart(m: Memory, a: Word, v: Word, b: Word)
    requires a % 4 == 0 && b % 4 == 0 && a != b
    ensures ReadBytes(WriteBytes(m, a, 4, v), b, 4) == ReadBytes(m, b, 4)
  {
    Written(m, a, 4, v, b);
    Written(m, a, 4, v, Wrap(b + 1));
    Written(m, a, 4, v, Wrap(b + 2));
    Written(m, a, 4, v, Wrap(b + 3));
    ApartBytes(a, b, 0);
    ApartBytes(a, b, 1);
    ApartBytes(a, b, 2);
    ApartBytes(a, b, 3);
    assert Wrap(b + 0) == b;
  }

  // The byte order and the extent of an access

  /** Byte k of a word has the weight 256^k. */
  lemma BytePositions(w: Word)
    ensures ByteOf(w, 0) == w % 0x100 && ByteOf(w, 1) == w / 0x100 % 0x100
    ensures ByteOf(w, 2) == w / 0x1_0000 % 0x100 && ByteOf(w, 3) == w / 0x100_0000
  {
    ByteSteps(w);
    ByteSteps(w / 0x100);
    ByteSteps(w / 0x100 / 0x100);
    assert w / 0x100 / 0x100 == w / 0x1_0000 && w / 0x1_0000 / 0x100 == w / 0x100_0000;
  }

  lemma ByteSteps(w: nat)
    ensures ByteOf(w, 0) == w % 0x100
    ensures forall k: nat :: ByteOf(w, k + 1) == ByteOf(w / 0x100, k)
  {
  }

  /** The bytes of an access are the `len` ones from its address on, modulo 2^32. */
  lemma AccessBytes(b: Word, a: Word)
    ensures InAccess(b, a, 1) <==> b == a
    ensures InAccess(b, a, 2) <==> b == a || b == Wrap(a + 1)
    ensures InAccess(b, a, 4) <==> b == a || b == Wrap(a + 1) || b == Wrap(a + 2) || b == Wrap(a + 3)
  {
  }

  /** Memory holds numbers with the least significant byte first. */
  lemma LittleEndian(m: Memory, a: Word)
    ensures ReadBytes(m, a, 1) == m(a)
    ensures ReadBytes(m, a, 2) == m(a) + 0x100 * m(Wrap(a + 1))
    ensures ReadBytes(m, a, 4) == m(a) + 0x100 * m(Wrap(a + 1)) + 0x1_0000 * m(Wrap(a + 2)) + 0x100_0000 * m(Wrap(a + 3))
  {
  }
}
