/** The wide multiplications of src/core/riscv_helper.h, for any even half-word range. */
module Multiply {
  import opened Quotients

  /** Half words lie below `half`, words below `half * half`: 2^16 for RV32 and 2^32 for RV64. */
  predicate HalfRange(half: nat) {
    half >= 4 && half % 2 == 0
  }

  lemma ProductBelow(a: nat, b: nat, m: nat)
    requires a < m && b < m
    ensures a * b < m * m
  {
    Monotone(b, m, a);
    Monotone(a, m - 1, m);
    Distribute(m, 1, m);
  }

  // The schoolbook sum

  lemma Schoolbook(half: nat, al: nat, ah: nat, bl: nat, bh: nat)
    ensures (ah * half + al) * (bh * half + bl)
         == ah * bh * (half * half) + (al * bh + ah * bl) * half + al * bl
  {
    var a := ah * half + al;
    assert a * (bh * half + bl) == a * bh * half + a * bl;
    assert a * bh == ah * bh * half + al * bh;
    assert a * bl == ah * bl * half + al * bl;
    Distribute(ah * bh * half, al * bh, half);
    Distribute(al * bh, ah * bl, half);
    assert ah * bh * half * half == ah * bh * (half * half);
  }

  lemma ScaleSplit(x: nat, half: nat)
    requires half > 0
    ensures x * half == Upper(x, half) * (half * half) + Lower(x, half) * half
  {
    Split(x, half);
    hide Upper, Lower;
    Distribute(Upper(x, half) * half, Lower(x, half), half);
    assert Upper(x, half) * half * half == Upper(x, half) * (half * half);
  }

  /** What remains of the sum once every partial product is cut into its halves. */
  lemma Regroup(half: nat, p0: nat, p1: nat, p2: nat, p3: nat)
    requires half > 0
    ensures var mid := Upper(p0, half) + Lower(p1, half) + Lower(p2, half);
      p3 * (half * half) + (p1 + p2) * half + p0
      == (p3 + Upper(p1, half) + Upper(p2, half) + Upper(mid, half)) * (half * half) + Lower(mid, half) * half + Lower(p0, half)
  {
    hide Upper, Lower;
    var mid := Upper(p0, half) + Lower(p1, half) + Lower(p2, half);
    Split(p0, half);
    ScaleSplit(p1, half);
    ScaleSplit(p2, half);
    ScaleSplit(mid, half);
    Distribute(p1, p2, half);
    Distribute(Upper(p0, half) + Lower(p1, half), Lower(p2, half), half);
    Distribute(Upper(p0, half), Lower(p1, half), half);
    var range := half * half;
    Distribute(p3 + Upper(p1, half) + Upper(p2, half), Upper(mid, half), range);
    Distribute(p3 + Upper(p1, half), Upper(p2, half), range);
    Distribute(p3, Upper(p1, half), range);
  }

  lemma RowBelow(l: nat, r: nat, half: nat)
    requires l < half && r < half
    ensures l * half + r < half * half
  {
    Monotone(l, half - 1, half);
    Distribute(half, 1, half);
  }

  /** Shifting left by a half word keeps the low half only. */
  lemma ShiftUp(half: nat, p: nat)
    requires half > 0 && half * half > 0
    ensures Lower(p * half, half * half) == Lower(p, half) * half
  {
    hide Upper, Lower;
    Split(p, half);
    ScaleSplit(p, half);
    RowBelow(Lower(p, half), 0, half);
    Unique(p * half, half * half, Upper(p, half), Lower(p, half) * half);
  }

  lemma LowWord(half: nat, p0: nat, p1: nat, p2: nat)
    requires half > 0 && half * half > 0
    ensures var range, mid := half * half, Upper(p0, half) + Lower(p1, half) + Lower(p2, half);
      Lower(p0 + Lower(p1 * half, range) + Lower(p2 * half, range), range) == Lower(mid, half) * half + Lower(p0, half)
  {
    hide Upper, Lower;
    var l1, l2 := Lower(p1, half), Lower(p2, half);
    var mid := Upper(p0, half) + l1 + l2;
    ShiftUp(half, p1);
    ShiftUp(half, p2);
    Split(p1, half);
    Split(p2, half);
    Split(p0, half);
    Split(mid, half);
    Small(l1, half);
    Small(l2, half);
    Regroup(half, p0, l1, l2, 0);
    Distribute(l1, l2, half);
    RowBelow(Lower(mid, half), Lower(p0, half), half);
    Unique(p0 + l1 * half + l2 * half, half * half, Upper(mid, half), Lower(mid, half) * half + Lower(p0, half));
  }

  lemma SmallCarry(half: nat, p0: nat, l1: nat, l2: nat)
    requires HalfRange(half) && p0 < half * half && l1 < half && l2 < half
    ensures var carry := Upper(Upper(p0, half) + l1 + l2, half); Lower(carry, half) == carry
  {
    hide Upper, Lower;
    UpperBelow(p0, half, half);
    var mid := Upper(p0, half) + l1 + l2;
    UpperBelow(mid, 3, half);
    Small(Upper(mid, half), half);
  }

  lemma HighWord(half: nat, a: nat, b: nat, al: nat, ah: nat, bl: nat, bh: nat)
    requires HalfRange(half) && a == ah * half + al && b == bh * half + bl
    ensures var p0, p1, p2, p3 := al * bl, al * bh, ah * bl, ah * bh;
      var mid := Upper(p0, half) + Lower(p1, half) + Lower(p2, half);
      a * b == (p3 + Upper(p1, half) + Upper(p2, half) + Upper(mid, half)) * (half * half)
               + (Lower(mid, half) * half + Lower(p0, half))
  {
    hide Upper, Lower;
    Schoolbook(half, al, ah, bl, bh);
    Regroup(half, al * bl, al * bh, ah * bl, ah * bh);
  }

  lemma NothingIsLost(range: nat, a: nat, b: nat, exact: nat, lo: nat)
    requires a < range && b < range && a * b == exact * range + lo
    ensures exact < range
  {
    ProductBelow(a, b, range);
    Below(exact, range, range);
  }

  /** The partial products p0 to p3 of `a` and `b`, and the words that the source makes of them. */
  lemma WordsOfProduct(half: nat, a: nat, b: nat, p0: nat, p1: nat, p2: nat, p3: nat)
    requires HalfRange(half) && a < half * half && b < half * half && half * half > 0
    requires p0 == Lower(a, half) * Lower(b, half) && p1 == Lower(a, half) * Upper(b, half)
    requires p2 == Upper(a, half) * Lower(b, half) && p3 == Upper(a, half) * Upper(b, half)
    ensures var range := half * half;
      var carry := Lower(Upper(Upper(p0, half) + Lower(p1, half) + Lower(p2, half), half), half);
      var lo := Lower(p0 + Lower(p1 * half, range) + Lower(p2 * half, range), range);
      var exact := p3 + Upper(p1, half) + Upper(p2, half) + carry;
      exact < range && lo < range && exact * range + lo == a * b
  {
    hide Upper, Lower;
    Split(a, half);
    Split(b, half);
    Split(p0, half);
    Split(p1, half);
    Split(p2, half);
    var mid := Upper(p0, half) + Lower(p1, half) + Lower(p2, half);
    Split(mid, half);
    ProductBelow(Lower(a, half), Lower(b, half), half);
    HighWord(half, a, b, Lower(a, half), Upper(a, half), Lower(b, half), Upper(b, half));
    SmallCarry(half, p0, Lower(p1, half), Lower(p2, half));
    LowWord(half, p0, p1, p2);
    RowBelow(Lower(mid, half), Lower(p0, half), half);
    NothingIsLost(half * half, a, b, p3 + Upper(p1, half) + Upper(p2, half) + Upper(mid, half), Lower(mid, half) * half + Lower(p0, half));
  }

  lemma Square(half: nat)
    requires half > 0
    ensures half * half > 0
  {
  }

  /** The product of two words in a high and a low word, from four partial products. */
  method UMulWide(half: nat, a: nat, b: nat) returns (hi: nat, lo: nat)
    requires HalfRange(half) && a < half * half && b < half * half
    ensures hi * (half * half) + lo == a * b
    ensures hi < half * half && lo < half * half
  {
    hide Upper, Lower;
    var range := half * half;
    Square(half);
    var al, ah, bl, bh := Lower(a, half), Upper(a, half), Lower(b, half), Upper(b, half);
    var p0, p1, p2, p3 := al * bl, al * bh, ah * bl, ah * bh;
    WordsOfProduct(half, a, b, p0, p1, p2, p3);
    var carry := Lower(Upper(Upper(p0, half) + Lower(p1, half) + Lower(p2, half), half), half);
    lo := Lower(p0 + Lower(p1 * half, range) + Lower(p2 * half, range), range);
    var sum := p3 + Upper(p1, half) + Upper(p2, half) + carry;
    Small(sum, range);
    hi := Lower(sum, range);
  }

  // Signed factors

  /** The two's complement reading of a word below `range`. */
  function ToSigned(w: nat, range: nat): int {
    if 2 * w < range then w else w - range
  }

  /** What a negative factor `w` takes from the high word of the product. */
  function Excess(w: nat, other: nat, range: nat): nat {
    if 2 * w < range then 0 else other
  }

  /** Subtraction of words. */
  function Minus(x: nat, y: nat, range: nat): nat
    requires x < range && y < range
  {
    if x >= y then x - y else x - y + range
  }

  lemma FirstNegative(a: int, b: int, hi: int, lo: int, range: int)
    requires hi * range + lo == a * b
    ensures (hi - b) * range + lo == (a - range) * b
  {
    Distribute(hi, b, range);
    Distribute(a, range, b);
  }

  lemma SecondNegative(a: int, b: int, hi: int, lo: int, range: int)
    requires hi * range + lo == a * b
    ensures (hi - a) * range + lo == a * (b - range)
  {
    FirstNegative(b, a, hi, lo, range);
  }

  lemma BothNegative(a: int, b: int, hi: int, lo: int, range: int)
    requires hi * range + lo == a * b
    ensures (hi - b - a + range) * range + lo == (a - range) * (b - range)
  {
    FirstNegative(a, b, hi, lo, range);
    SecondNegative(a - range, b, hi - b, lo, range);
  }

  /** The exact high word of the signed product. */
  lemma SignedHigh(a: nat, b: nat, hi: nat, lo: nat, range: nat)
    requires hi * range + lo == a * b
    ensures var both := if 2 * a >= range && 2 * b >= range then range else 0;
      (hi - Excess(a, b, range) - Excess(b, a, range) + both) * range + lo == ToSigned(a, range) * ToSigned(b, range)
    ensures (hi - Excess(a, b, range)) * range + lo == ToSigned(a, range) * b
  {
    FirstNegative(a, b, hi, lo, range);
    SecondNegative(a, b, hi, lo, range);
    BothNegative(a, b, hi, lo, range);
  }

  lemma ProductAtMost(m: nat, n: nat, p: nat, q: nat)
    requires m <= p && n <= q
    ensures m * n <= p * q
  {
    Monotone(m, p, n);
    Monotone(n, q, p);
  }

  function Abs(x: int): nat {
    if x < 0 then -x else x
  }

  lemma AbsOfProduct(x: int, y: int)
    ensures Abs(x * y) == Abs(x) * Abs(y)
  {
    if x >= 0 && y >= 0 {
    } else if x < 0 && y < 0 {
      assert x * y == -x * -y;
      Sign(-x, -y);
    } else if x < 0 {
      assert x * y == -(-x * y);
      Sign(-x, y);
    } else {
      assert x * y == -(x * -y);
      Sign(x, -y);
    }
  }

  lemma Sign(x: nat, y: nat)
    ensures x * y >= 0
  {
  }

  lemma TwiceProduct(x: int, y: int, range: nat)
    requires 2 * Abs(x) <= range && Abs(y) < range
    ensures 2 * Abs(x * y) <= range * range - range
  {
    AbsOfProduct(x, y);
    ProductAtMost(2 * Abs(x), Abs(y), range, range - 1);
    Distribute(range, 1, range);
    assert 2 * Abs(x) * Abs(y) == 2 * (Abs(x) * Abs(y));
  }

  /** A signed high word lies in the range of signed words. */
  lemma HighInRange(x: int, y: int, high: int, lo: nat, range: nat)
    requires range >= 4 && lo < range && high * range + lo == x * y
    requires 2 * Abs(x) <= range && Abs(y) < range
    ensures 0 - range <= 2 * high < range
  {
    TwiceProduct(x, y, range);
    Doubled(high, x * y, lo, range);
  }

  lemma Doubled(high: int, p: int, lo: nat, range: nat)
    requires range >= 4 && lo < range && high * range + lo == p
    requires 2 * Abs(p) <= range * range - range
    ensures 0 - range <= 2 * high < range
  {
    var scaled := high * range;
    assert 2 * high * range == 2 * scaled;
    Distribute(0 - range, 1, range);
    assert (0 - range) * range == 0 - range * range;
    Below(0 - range - 1, 2 * high, range);
    Below(2 * high, range, range);
  }

  /** A signed high word is found back from the word it wraps to. */
  lemma FromResidue(w: nat, high: int, k: int, range: nat)
    requires range > 0 && w < range && w == high + k * range && 0 - range <= 2 * high < range
    ensures ToSigned(w, range) == high
  {
    if high >= 0 {
      BelowOne(k, range);
    } else {
      Distribute(k, 1, range);
      BelowOne(k - 1, range);
    }
  }

  lemma EvenSquare(half: nat)
    requires HalfRange(half)
    ensures half * half % 2 == 0 && half * half >= 16
  {
    assert half * half == 2 * (half / 2 * half);
    ProductAtMost(4, 4, half, half);
  }

  /** Signed times signed: the high word is corrected once for every negative factor. */
  method MulWide(half: nat, a: nat, b: nat) returns (hi: nat, lo: nat)
    requires HalfRange(half) && a < half * half && b < half * half
    ensures ToSigned(hi, half * half) * (half * half) + lo == ToSigned(a, half * half) * ToSigned(b, half * half)
    ensures hi < half * half && lo < half * half
  {
    var range := half * half;
    EvenSquare(half);
    hi, lo := UMulWide(half, a, b);
    ghost var first := hi;
    hi := Minus(hi, Excess(a, b, range), range);
    ghost var second := hi;
    hi := Minus(hi, Excess(b, a, range), range);
    SignedHigh(a, b, first, lo, range);
    Corrected(a, b, first, lo, range);
  }

  lemma Multiples(range: nat)
    ensures 0 * range == 0 && 1 * range == range && 2 * range == range + range && -1 * range == 0 - range
  {
  }

  lemma Corrected(a: nat, b: nat, hi: nat, lo: nat, range: nat)
    requires range >= 4 && range % 2 == 0 && a < range && b < range && hi < range && lo < range
    requires hi * range + lo == a * b
    ensures var r := Minus(Minus(hi, Excess(a, b, range), range), Excess(b, a, range), range);
      ToSigned(r, range) * range + lo == ToSigned(a, range) * ToSigned(b, range)
  {
    var x, y := ToSigned(a, range), ToSigned(b, range);
    var both := if 2 * a >= range && 2 * b >= range then range else 0;
    var high := hi - Excess(a, b, range) - Excess(b, a, range) + both;
    var second := Minus(hi, Excess(a, b, range), range);
    var r := Minus(second, Excess(b, a, range), range);
    SignedHigh(a, b, hi, lo, range);
    HighInRange(x, y, high, lo, range);
    var k := (if second == hi - Excess(a, b, range) then 0 else 1) + (if r == second - Excess(b, a, range) then 0 else 1)
             - (if both == 0 then 0 else 1);
    Multiples(range);
    FromResidue(r, high, k, range);
  }

  /** Signed times unsigned: only the first factor can be negative. */
  method MulHsuWide(half: nat, a: nat, b: nat) returns (hi: nat, lo: nat)
    requires HalfRange(half) && a < half * half && b < half * half
    ensures ToSigned(hi, half * half) * (half * half) + lo == ToSigned(a, half * half) * b
    ensures hi < half * half && lo < half * half
  {
    var range := half * half;
    EvenSquare(half);
    hi, lo := UMulWide(half, a, b);
    ghost var first := hi;
    hi := Minus(hi, Excess(a, b, range), range);
    CorrectedOnce(a, b, first, lo, range);
  }

  lemma CorrectedOnce(a: nat, b: nat, hi: nat, lo: nat, range: nat)
    requires range >= 4 && range % 2 == 0 && a < range && b < range && hi < range && lo < range
    requires hi * range + lo == a * b
    ensures var r := Minus(hi, Excess(a, b, range), range);
      ToSigned(r, range) * range + lo == ToSigned(a, range) * b
  {
    var high := hi - Excess(a, b, range);
    var r := Minus(hi, Excess(a, b, range), range);
    SignedHigh(a, b, hi, lo, range);
    HighInRange(ToSigned(a, range), b, high, lo, range);
    FromResidue(r, high, if r == high then 0 else 1, range);
  }
}
