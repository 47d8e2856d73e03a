/** DIV, DIVU, REM and REMU of src/core/core.c, against section 7.2 of the Unprivileged Spec. */
module Division {
  import opened Words
  import opened Core
  import opened Quotients

  /** The word that a signed value is stored as. */
  function ToWord(v: int): Word {
    Wrap(v)
  }

  const INT_MIN: Word := 0x8000_0000
  const MINUS_ONE: Word := 0xFFFF_FFFF

  function Magnitude(v: int): nat {
    if v < 0 then -v else v
  }

  /** The operators / and % of C, which truncate toward zero. */
  function Truncated(x: int, y: int): int
    requires y != 0
  {
    var q := Magnitude(x) / Magnitude(y);
    if (x < 0) == (y < 0) then q else -q
  }

  function Remainder(x: int, y: int): int
    requires y != 0
  {
    var r := Magnitude(x) % Magnitude(y);
    if x < 0 then -r else r
  }

  function Div(a: Word, b: Word): Word {
    if Signed(b) == 0 then MINUS_ONE
    else if a == INT_MIN && Signed(b) == -1 then INT_MIN
    else ToWord(Truncated(Signed(a), Signed(b)))
  }

  function Rem(a: Word, b: Word): Word {
    if Signed(b) == 0 then a
    else if a == INT_MIN && Signed(b) == -1 then 0
    else ToWord(Remainder(Signed(a), Signed(b)))
  }

  function DivU(a: Word, b: Word): Word {
    if b == 0 then MINUS_ONE else a / b
  }

  function RemU(a: Word, b: Word): Word {
    if b == 0 then a else a % b
  }

  // Products and signs

  lemma ProductSigns(q: int, y: int)
    ensures -q * -y == q * y && -q * y == -(q * y) && q * -y == -(q * y)
  {
  }

  /** Truncated division is the one whose remainder is smaller than the divisor and has the dividend's sign. */
  lemma TruncatedLaw(x: int, y: int)
    requires y != 0
    ensures Truncated(x, y) * y + Remainder(x, y) == x
    ensures Magnitude(Remainder(x, y)) < Magnitude(y)
    ensures Remainder(x, y) == 0 || (Remainder(x, y) < 0) == (x < 0)
  {
    var m, n := Magnitude(x), Magnitude(y);
    Euclid(m, n);
    SignedParts(x, y, m / n, m % n);
  }

  lemma Euclid(m: nat, n: nat)
    requires n > 0
    ensures m / n * n + m % n == m && m % n < n
  {
  }

  lemma SignedParts(x: int, y: int, q: int, r: int)
    requires q * Magnitude(y) + r == Magnitude(x)
    ensures (if (x < 0) == (y < 0) then q else -q) * y + (if x < 0 then -r else r) == x
  {
    ProductSigns(q, Magnitude(y));
    if y < 0 {
      assert y == 0 - Magnitude(y);
    }
  }

  /** A quotient is in the range of words, except that of the overflow. */
  lemma QuotientRange(x: int, y: int)
    requires y != 0 && 0 - 0x8000_0000 <= x < 0x8000_0000
    ensures Magnitude(Truncated(x, y)) <= Magnitude(x)
    ensures !(x == -0x8000_0000 && y == -1) ==> 0 - 0x8000_0000 <= Truncated(x, y) < 0x8000_0000
  {
    var m, n := Magnitude(x), Magnitude(y);
    var q := m / n;
    assert q * n <= m;
    if n == 1 {
      assert q == m;
    } else {
      assert q * n >= q * 2 by {
        ScaleUp(q, n);
      }
    }
  }

  lemma ScaleUp(q: nat, n: nat)
    requires n >= 2
    ensures q * n >= q * 2
  {
    assert q * (n - 2) >= 0;
    assert q * (n - 2) == q * n - q * 2;
  }

  lemma SignedOfWord(v: int)
    requires 0 - 0x8000_0000 <= v < 0x8000_0000
    ensures Signed(ToWord(v)) == v
  {
  }

  lemma WordOfSigned(a: Word)
    ensures ToWord(Signed(a)) == a && 0 - 0x8000_0000 <= Signed(a) < 0x8000_0000
  {
  }

  predicate Overflows(a: Word, b: Word) {
    a == INT_MIN && b == MINUS_ONE
  }

  /**
    * Away from the zero divisor and the overflow, DIV and REM give the exact quotient and
    * remainder: the remainder is smaller than the divisor and has the sign of the dividend or is 0.
    */
  lemma SignedDivision(a: Word, b: Word)
    requires b != 0 && !Overflows(a, b)
    ensures var q, r, x, y := Signed(Div(a, b)), Signed(Rem(a, b)), Signed(a), Signed(b);
      && q * y + r == x
      && Magnitude(r) < Magnitude(y)
      && (r == 0 || (r < 0) == (x < 0))
  {
    hide Truncated, Remainder, ToWord;
    var x, y := Signed(a), Signed(b);
    WordOfSigned(a);
    WordOfSigned(b);
    TruncatedLaw(x, y);
    QuotientRange(x, y);
    SignedOfWord(Truncated(x, y));
    SignedOfWord(Remainder(x, y));
  }

  /** These laws leave no other answer. */
  lemma SignedDivisionIsUnique(a: Word, b: Word, q: Word, r: Word)
    requires b != 0 && !Overflows(a, b)
    requires Signed(q) * Signed(b) + Signed(r) == Signed(a)
    requires Magnitude(Signed(r)) < Magnitude(Signed(b)) && (Signed(r) == 0 || (Signed(r) < 0) == (Signed(a) < 0))
    ensures q == Div(a, b) && r == Rem(a, b)
  {
    hide Div, Rem;
    SignedDivision(a, b);
    var dq, dr := Signed(q) - Signed(Div(a, b)), Signed(Rem(a, b)) - Signed(r);
    assert dq * Signed(b) == dr by {
      Difference(Signed(q), Signed(Div(a, b)), Signed(b));
    }
    NoMultiple(dq, Signed(b), dr);
    WordOfSigned(q);
    WordOfSigned(r);
    WordOfSigned(Div(a, b));
    WordOfSigned(Rem(a, b));
  }

  lemma Difference(p: int, q: int, y: int)
    ensures (p - q) * y == p * y - q * y
  {
  }

  lemma NoMultiple(k: int, y: int, d: int)
    requires k * y == d && Magnitude(d) < Magnitude(y)
    ensures k == 0
  {
    ProductSigns(k, y);
    BelowOne(k, Magnitude(y));
  }

  /** The results that the specification fixes for a zero divisor and for the overflow. */
  lemma SpecialCases(a: Word, b: Word)
    ensures b == 0 ==> Div(a, b) == MINUS_ONE && DivU(a, b) == MINUS_ONE && Rem(a, b) == a && RemU(a, b) == a
    ensures Overflows(a, b) ==> Div(a, b) == a && Rem(a, b) == 0
  {
  }

  lemma UnsignedDivision(a: Word, b: Word)
    requires b != 0
    ensures DivU(a, b) * b + RemU(a, b) == a && RemU(a, b) < b
  {
    assert a == a / b * b + a % b;
  }

  lemma UnsignedDivisionIsUnique(a: Word, b: Word, q: Word, r: Word)
    requires b != 0 && q * b + r == a && r < b
    ensures q == DivU(a, b) && r == RemU(a, b)
  {
    hide DivU, RemU;
    UnsignedDivision(a, b);
    Difference(q, DivU(a, b), b);
    NoMultiple(q - DivU(a, b), b, RemU(a, b) - r);
  }

  lemma WrapMultiple(x: int, k: int)
    ensures Wrap(x + 0x1_0000_0000 * k) == Wrap(x)
  {
  }

  /** The product of words and of their signed readings agree in the low word. */
  lemma SignedProductWraps(p: Word, q: Word, r: Word)
    ensures Wrap(p * q + r) == Wrap(Signed(p) * Signed(q) + Signed(r))
  {
    var i := if p < 0x8000_0000 then 0 else 1;
    var j := if q < 0x8000_0000 then 0 else 1;
    var k := if r < 0x8000_0000 then 0 else 1;
    var excess := i * q + j * p - 0x1_0000_0000 * i * j + k;
    assert Signed(p) * Signed(q) + Signed(r) == p * q + r - 0x1_0000_0000 * excess;
    WrapMultiple(p * q + r, -excess);
  }

  /** For all operands: quotient times divisor plus remainder is the dividend, modulo 2^32. */
  lemma DivisionLaw(a: Word, b: Word)
    ensures Wrap(Div(a, b) * b + Rem(a, b)) == a
    ensures Wrap(DivU(a, b) * b + RemU(a, b)) == a
  {
    SpecialCases(a, b);
    if b == 0 {
    } else {
      UnsignedDivision(a, b);
      if Overflows(a, b) {
        assert INT_MIN * MINUS_ONE == INT_MIN + 0x1_0000_0000 * 0x7FFF_FFFF;
      } else {
        SignedDivision(a, b);
        hide Div, Rem, DivU, RemU;
        SignedProductWraps(Div(a, b), b, Rem(a, b));
        WordOfSigned(a);
      }
    }
  }
}
