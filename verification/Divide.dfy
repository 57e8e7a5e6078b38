/**
 Division of wide integers: bit-by-bit long division for 128 bits, shift-and-subtract for the
 wider types, and signed division on top of both.  A value of W bits is a number below 2^W held in
 a cell; the routines write their results through cells, as the original does through pointers.
 */
module Divide {
  import opened Bytes
  import opened Limbs

  class Cell {
    var v: nat
    constructor (v: nat)
      ensures this.v == v
    {
      this.v := v;
    }
  }

  /** Bit h is the highest set bit of v; for 0 it is said to be bit 0. */
  ghost predicate TopBit(v: nat, h: nat) {
    if v == 0 then h == 0 else Pow(2, h) <= v < Pow(2, h + 1)
  }

  // ---------------------------------------------------------------------------
  // The highest set bit

  /** v with the bits below bit k masked off. */
  function HighPart(v: nat, k: nat): (r: nat) {
    v / Pow(2, k) * Pow(2, k)
  }

  lemma HighPartZero(v: nat, k: nat)
    ensures HighPart(v, k) == 0 <==> v < Pow(2, k)
  {
    var p := Pow(2, k);
    assert v == v / p * p + v % p;
    if v < p {
      DivUnique(v, p, 0, v);
    }
  }

  lemma MulBelow(x: nat, y: nat, p: nat)
    requires x < y && p > 0
    ensures x * p < y * p
  {
    MulLe(x + 1, y, p);
  }

  lemma ZeroTimes(x: int, y: int)
    ensures x == 0 ==> x * y == 0
  {
  }

  /** The value an unsigned variable with n values keeps of x. */
  function Wrap(x: int, n: nat): (r: nat)
    requires n > 0
    ensures 0 <= x < n ==> r == x
    ensures r < n
  {
    x % n
  }

  lemma MulAssoc(x: int, y: int, z: int)
    ensures (x * y) * z == x * (y * z)
  {
  }

  lemma ShiftUp(v0: nat, v: nat, h: nat, s: nat)
    requires s <= h <= 63 && v == v0 * Pow(2, 63 - h) && v < Pow(2, 64 - s)
    ensures v * Pow(2, s) == v0 * Pow(2, 63 - (h - s)) < U64
    ensures 2 * s <= 64 && v >= Pow(2, 64 - 2 * s) ==> v * Pow(2, s) >= Pow(2, 64 - s)
  {
    PowAdd(2, 63 - h, s);
    MulAssoc(v0, Pow(2, 63 - h), Pow(2, s));
    PowAdd(2, 64 - s, s);
    PowDouble();
    MulBelow(v, Pow(2, 64 - s), Pow(2, s));
    if 2 * s <= 64 && v >= Pow(2, 64 - 2 * s) {
      PowAdd(2, 64 - 2 * s, s);
      MulLe(Pow(2, 64 - 2 * s), v, Pow(2, s));
    }
  }

  /** One halving step: if nothing is set in the top s bits, drop s from h and shift v up. */
  method Narrow(v: nat, h: nat, s: nat, ghost v0: nat) returns (v': nat, h': nat)
    requires 0 < s <= h <= 63 && 2 * s <= 64 && v == v0 * Pow(2, 63 - h) < U64
    requires v0 > 0 ==> v >= Pow(2, 64 - 2 * s)
    ensures v0 == 0 ==> h' == h - s
    ensures h - s <= h' <= h
    ensures v' == v0 * Pow(2, 63 - h') < U64
    ensures v0 > 0 ==> v' >= Pow(2, 64 - s)
  {
    v', h' := v, h;
    HighPartZero(v, 64 - s);
    ZeroTimes(v0, Pow(2, 63 - h));
    if HighPart(v, 64 - s) == 0 {
      ShiftUp(v0, v, h, s);
      h' := h - s;
      v' := Wrap(v * Pow(2, s), U64);
    }
  }

  lemma Settle(v0: nat, v: nat, h: nat)
    requires h <= 63 && v == v0 * Pow(2, 63 - h) && Pow(2, 63) <= v < U64
    ensures Pow(2, h) <= v0 < Pow(2, h + 1)
  {
    PowAdd(2, h, 63 - h);
    PowAdd(2, h + 1, 63 - h);
    PowDouble();
    if v0 < Pow(2, h) {
      MulBelow(v0, Pow(2, h), Pow(2, 63 - h));
    }
    if v0 >= Pow(2, h + 1) {
      MulLe(Pow(2, h + 1), v0, Pow(2, 63 - h));
    }
  }

  /** The highest set bit of a 64-bit value, by halving. */
  method Bits(value: nat) returns (h: nat)
    requires value < U64
    ensures TopBit(value, h) && h <= 63
  {
    var v := value;
    h := 63;
    v, h := Narrow(v, h, 32, value);
    v, h := Narrow(v, h, 16, value);
    v, h := Narrow(v, h, 8, value);
    v, h := Narrow(v, h, 4, value);
    v, h := Narrow(v, h, 2, value);
    v, h := Narrow(v, h, 1, value);
    if value > 0 {
      Settle(value, v, h);
    }
  }

  method Bits128(value: nat) returns (h: nat)
    requires value < Pow(U64, 2)
    ensures TopBit(value, h) && h < 128
  {
    PowDouble();
    TwoLimbs();
    var upper := value / U64;
    DivBelow(value, U64, U64);
    if upper != 0 {
      h := Bits(upper);
      TopBitShift(value, 64, upper, h);
      h := h + 64;
    } else {
      h := Bits(value % U64);
    }
  }

  lemma TwoLimbs()
    ensures Pow(U64, 2) == U64 * U64
  {
    assert Pow(U64, 1) == U64;
  }

  lemma DivBelow(v: nat, d: nat, n: nat)
    requires d > 0 && v < d * n
    ensures v / d < n
  {
    assert v == v / d * d + v % d;
    if v / d >= n {
      MulLe(n, v / d, d);
    }
  }

  lemma BetweenMultiples(v: nat, p: nat)
    requires p > 0
    ensures v / p * p <= v < (v / p + 1) * p
  {
    assert v == v / p * p + v % p;
  }

  /** The highest bit of v is that of v / 2^s, moved up by s. */
  lemma TopBitShift(v: nat, s: nat, upper: nat, h: nat)
    requires upper == v / Pow(2, s) && upper > 0 && TopBit(upper, h)
    ensures TopBit(v, h + s)
  {
    var p := Pow(2, s);
    BetweenMultiples(v, p);
    PowAdd(2, h, s);
    PowAdd(2, h + 1, s);
    MulLe(Pow(2, h), upper, p);
    MulLe(upper + 1, Pow(2, h + 1), p);
  }

  /** A number of 64-bit limbs as a number of bits. */
  lemma {:induction false} LimbsAreBits(i: nat)
    ensures Pow(U64, i) == Pow(2, 64 * i)
  {
    if i > 0 {
      LimbsAreBits(i - 1);
      PowDouble();
      PowAdd(2, 64, 64 * (i - 1));
      assert 64 * i == 64 + 64 * (i - 1);
    }
  }

  lemma LimbTopBit(v: nat, i: nat, limb: nat, h: nat)
    requires limb == v / Pow(U64, i) && limb > 0 && TopBit(limb, h)
    ensures TopBit(v, h + 64 * i)
  {
    LimbsAreBits(i);
    TopBitShift(v, 64 * i, limb, h);
  }

  /** The highest set bit of a value of the given number of 64-bit limbs, looking at the limbs from the top. */
  method BitsWide(value: nat, limbs: nat) returns (h: nat)
    requires value < Pow(U64, limbs)
    ensures TopBit(value, h)
  {
    var i := limbs;
    while i > 0
      invariant 0 <= i <= limbs && value < Pow(U64, i)
      decreases i
    {
      i := i - 1;
      var limb := LimbAt(value, i);
      if limb != 0 {
        h := Bits(limb);
        LimbTopBit(value, i, limb, h);
        return h + 64 * i;
      }
    }
    h := 0;
  }

  /** Limb i of a value that has no higher ones. */
  method LimbAt(value: nat, i: nat) returns (limb: nat)
    requires value < Pow(U64, i + 1)
    ensures limb == value / Pow(U64, i) < U64
    ensures limb == 0 ==> value < Pow(U64, i)
  {
    var base := Pow(U64, i);
    DivBelow(value, base, U64);
    limb := Wrap(value / base, U64);
    if limb == 0 {
      DivUniqueZero(value, base);
    }
  }

  lemma DivUniqueZero(v: nat, d: nat)
    requires d > 0 && v / d == 0
    ensures v < d
  {
    assert v == v / d * d + v % d;
  }

  // ---------------------------------------------------------------------------
  // Unsigned division

  /** q and r are quotient and remainder of n by d. */
  ghost predicate IsQuotRem(n: nat, d: nat, q: nat, r: nat) {
    n == q * d + r && r < d
  }

  /** n shifted right by x bits. */
  function Shr(n: nat, x: nat): (r: nat) {
    if x == 0 then n else Shr(n, x - 1) / 2
  }

  lemma {:induction false} ShrBelow(n: nat, x: nat, k: nat)
    requires n < Pow(2, x + k)
    ensures Shr(n, x) < Pow(2, k)
    decreases x
  {
    if x > 0 {
      ShrBelow(n, x - 1, k + 1);
    }
  }

  lemma {:induction false} ShrAtMost(n: nat, x: nat)
    ensures Shr(n, x) <= n
  {
    if x > 0 {
      ShrAtMost(n, x - 1);
    }
  }

  /** One bit of long division: the next bit of the dividend comes down and the divisor is tried. */
  lemma LongDivisionBit(m: nat, d: nat, q: nat, r: nat, q': nat, r': nat)
    requires IsQuotRem(m / 2, d, q, r)
    requires var s := 2 * r + m % 2; if s >= d then q' == 2 * q + 1 && r' == s - d else q' == 2 * q && r' == s
    ensures IsQuotRem(m, d, q', r')
  {
    assert m == 2 * (m / 2) + m % 2;
    DoubleProduct(q, d);
  }

  lemma DoubleProduct(q: int, d: int)
    ensures (2 * q) * d == 2 * (q * d) && (2 * q + 1) * d == 2 * (q * d) + d
  {
  }

  /** The remainder so far is bounded by the prefix of the dividend, so doubling it never overflows. */
  lemma LongDivisionRoom(n: nat, m: nat, d: nat, q: nat, r: nat)
    requires 1 < n && m <= n && d > 1 && IsQuotRem(m / 2, d, q, r)
    ensures 2 * r + m % 2 <= n && 2 * q + 1 <= n
  {
    MulLe(0, q, d);
    MulLe(2, d, q);
  }

  /** The cases the division routines settle before they start: by one, by itself, by something larger. */
  lemma EasyQuotients(n: nat, d: nat)
    ensures d == 1 ==> IsQuotRem(n, d, n, 0)
    ensures d == n > 0 ==> IsQuotRem(n, d, 1, 0)
    ensures n < d ==> IsQuotRem(n, d, 0, n)
  {
  }

  method UDivMod128(pdividend: Cell, pdivisor: Cell, remainder: Cell, quotient: Cell) returns (rc: nat)
    requires pdividend.v < Pow(U64, 2) && pdivisor.v < Pow(U64, 2) && remainder != quotient
    modifies remainder, quotient
    ensures rc == if old(pdivisor.v) == 0 then 1 else 0
    ensures rc == 1 ==> remainder.v == old(remainder.v) && quotient.v == old(quotient.v)
    ensures rc == 0 ==> IsQuotRem(old(pdividend.v), old(pdivisor.v), quotient.v, remainder.v)
  {
    var dividend, divisor := pdividend.v, pdivisor.v;
    EasyQuotients(dividend, divisor);
    if divisor == 0 {
      return 1;
    }
    if divisor == 1 {
      remainder.v, quotient.v := 0, dividend;
      return 0;
    }
    if divisor == dividend {
      remainder.v, quotient.v := 0, 1;
      return 0;
    }
    if dividend == 0 || dividend < divisor {
      remainder.v, quotient.v := dividend, 0;
      return 0;
    }
    var q, r := LongDivision(dividend, divisor);
    quotient.v := q;
    remainder.v := r;
    rc := 0;
  }

  /** The loop of the 128-bit division: one quotient bit per dividend bit. */
  method LongDivision(dividend: nat, divisor: nat) returns (q: nat, r: nat)
    requires 1 < divisor < dividend < Pow(U64, 2)
    ensures IsQuotRem(dividend, divisor, q, r)
  {
    var top := Bits128(dividend);
    q, r := 0, 0;
    var x := top + 1;
    ShrBelow(dividend, x, 0);
    while x > 0
      invariant x >= 0 && IsQuotRem(Shr(dividend, x), divisor, q, r)
      decreases x
    {
      q, r := DivisionBit(dividend, divisor, x, q, r);
      x := x - 1;
    }
  }

  method DivisionBit(dividend: nat, divisor: nat, x: nat, q0: nat, r0: nat) returns (q: nat, r: nat)
    requires 1 < divisor < dividend < Pow(U64, 2)
    requires x > 0 && IsQuotRem(Shr(dividend, x), divisor, q0, r0)
    ensures IsQuotRem(Shr(dividend, x - 1), divisor, q, r)
  {
    var n, m := Pow(U64, 2), Shr(dividend, x - 1);
    ShrAtMost(dividend, x - 1);
    LongDivisionRoom(dividend, m, divisor, q0, r0);
    q := Wrap(2 * q0, n);
    r := Wrap(2 * r0, n);
    if m % 2 == 1 {
      r := Wrap(r + 1, n);
    }
    if r >= divisor {
      r := r - divisor;
      q := Wrap(q + 1, n);
    }
    LongDivisionBit(m, divisor, q0, r0, q, r);
  }

  lemma TopBitUnder(v: nat, h: nat, w: nat)
    requires v > 0 && TopBit(v, h) && v < Pow(2, w)
    ensures h < w
  {
    if h >= w {
      PowMonotone(2, w, h);
    }
  }

  lemma TopBitOrder(v: nat, h: nat, w: nat, g: nat)
    requires 0 < v <= w && TopBit(v, h) && TopBit(w, g)
    ensures h <= g
  {
    TopBitUnder(v, h, g + 1);
  }

  /** Lining up the highest bits loses no bits of the divisor, and passes the dividend when doubled once more. */
  lemma Aligned(n: nat, d: nat, g: nat, h: nat, limbs: nat)
    requires 0 < d <= n < Pow(U64, limbs) && TopBit(n, g) && TopBit(d, h)
    ensures h <= g && d * Pow(2, g - h) < Pow(U64, limbs) && Pow(2, g - h) < Pow(U64, limbs)
    ensures n < 2 * (d * Pow(2, g - h))
  {
    LimbsAreBits(limbs);
    TopBitOrder(d, h, n, g);
    TopBitUnder(n, g, 64 * limbs);
    var p := Pow(2, g - h);
    PowAdd(2, h + 1, g - h);
    PowAdd(2, h, g - h);
    MulBelow(d, Pow(2, h + 1), p);
    MulLe(Pow(2, h), d, p);
    PowMonotone(2, g + 1, 64 * limbs);
    MulLe(1, d, p);
  }

  /**
   The state of the subtract loop at bit k: the remainder is below twice the shifted divisor, and
   the quotient has no bit at or below k.
   */
  ghost predicate AtBit(n: nat, d: nat, q: nat, r: nat, k: nat) {
    n == q * d + r && r < 2 * (d * Pow(2, k)) && q % Pow(2, k + 1) == 0
  }

  /** What one round does to it: or-ing the bit in adds it. */
  lemma SubtractStep(n: nat, d: nat, q: nat, r: nat, k: nat)
    requires AtBit(n, d, q, r, k)
    ensures var c, a := d * Pow(2, k), Pow(2, k);
      if r >= c then Or(q, a) == q + a && n == (q + a) * d + (r - c) && r - c < c && (q + a) % a == 0 else q % a == 0
  {
    var a := Pow(2, k);
    var z := q / (2 * a);
    assert q == z * (2 * a);
    TwoFold(z, a);
    DivUnique(q, a, 2 * z, 0);
    if r >= d * a {
      OrIsSum(a, q, k + 1);
      DivUnique(q + a, a, 2 * z + 1, 0);
      AddMultiple(q, a, d);
    }
  }

  lemma TwoFold(z: int, a: int)
    ensures z * (2 * a) == (2 * z) * a && (2 * z + 1) * a == z * (2 * a) + a
  {
  }

  lemma AddMultiple(q: int, a: int, d: int)
    ensures (q + a) * d == q * d + d * a
  {
  }

  lemma HalfMultiple(d: nat, k: nat)
    requires k > 0
    ensures d * Pow(2, k) / 2 == d * Pow(2, k - 1) && 2 * (d * Pow(2, k - 1)) == d * Pow(2, k)
    ensures Pow(2, k) / 2 == Pow(2, k - 1)
  {
    var p := Pow(2, k - 1);
    assert d * (2 * p) == 2 * (d * p);
  }

  /** The loop state together with its two shifted copies. */
  ghost predicate Lined(n: nat, d: nat, q: nat, r: nat, copyd: nat, adder: nat, k: nat) {
    AtBit(n, d, q, r, k) && copyd == d * Pow(2, k) && adder == Pow(2, k)
  }

  lemma LinedStart(n: nat, d: nat, k: nat)
    requires n < 2 * (d * Pow(2, k))
    ensures Lined(n, d, 0, n, d * Pow(2, k), Pow(2, k), k)
  {
    DivUnique(0, Pow(2, k + 1), 0, 0);
  }

  /** Lines the divisor up with the dividend, and back by one bit if that is too far. */
  method LineUp(dividend: nat, divisor: nat, limbs: nat) returns (copyd: nat, adder: nat, ghost k: nat)
    requires 1 < divisor < dividend < Pow(U64, limbs)
    ensures Lined(dividend, divisor, 0, dividend, copyd, adder, k)
  {
    var n := Pow(U64, limbs);
    var g := BitsWide(dividend, limbs);
    var h := BitsWide(divisor, limbs);
    Aligned(dividend, divisor, g, h, limbs);
    k := g - h;
    copyd := Wrap(divisor * Pow(2, g - h), n);
    adder := Wrap(Pow(2, g - h), n);
    if copyd > dividend {
      NotZeroShift(divisor, g - h, dividend);
      HalfMultiple(divisor, g - h);
      copyd := copyd / 2;
      adder := adder / 2;
      k := g - h - 1;
    }
    LinedStart(dividend, divisor, k);
  }

  lemma NotZeroShift(d: nat, k: nat, n: nat)
    requires d < n < d * Pow(2, k)
    ensures k > 0
  {
  }

  /** One round of the loop: subtract if it goes, then shift both copies down. */
  method Round(ghost n: nat, ghost d: nat, q0: nat, r0: nat, copyd0: nat, adder0: nat, ghost k: nat)
    returns (q: nat, r: nat, copyd: nat, adder: nat)
    requires Lined(n, d, q0, r0, copyd0, adder0, k) && r0 >= d
    ensures n == q * d + r
    ensures r >= d ==> k > 0 && Lined(n, d, q, r, copyd, adder, k - 1)
  {
    SubtractStep(n, d, q0, r0, k);
    q, r := q0, r0;
    if r >= copyd0 {
      r := r - copyd0;
      q := Or(q, adder0);
    }
    copyd := copyd0 / 2;
    adder := adder0 / 2;
    if k > 0 {
      HalfMultiple(d, k);
    }
  }

  /** The shift-and-subtract loop of the wide divisions. */
  method ShiftSubtract(dividend: nat, divisor: nat, limbs: nat) returns (q: nat, r: nat)
    requires 1 < divisor < dividend < Pow(U64, limbs)
    ensures IsQuotRem(dividend, divisor, q, r)
  {
    q, r := 0, dividend;
    var copyd, adder;
    ghost var k: int;
    copyd, adder, k := LineUp(dividend, divisor, limbs);
    while r >= divisor
      invariant dividend == q * divisor + r
      invariant r >= divisor ==> k >= 0 && Lined(dividend, divisor, q, r, copyd, adder, k)
      decreases k
    {
      q, r, copyd, adder := Round(dividend, divisor, q, r, copyd, adder, k);
      k := k - 1;
    }
  }

  /** Division of values of the given number of 64-bit limbs: 4 for 256 bits, 8 for 512. */
  method UDivModWide(pdividend: Cell, pdivisor: Cell, remainder: Cell, quotient: Cell, limbs: nat) returns (rc: nat)
    requires pdividend.v < Pow(U64, limbs) && pdivisor.v < Pow(U64, limbs) && remainder != quotient
    modifies remainder, quotient
    ensures rc == if old(pdivisor.v) == 0 then 1 else 0
    ensures rc == 1 ==> remainder.v == old(remainder.v) && quotient.v == old(quotient.v)
    ensures rc == 0 ==> IsQuotRem(old(pdividend.v), old(pdivisor.v), quotient.v, remainder.v)
  {
    var dividend, divisor := pdividend.v, pdivisor.v;
    EasyQuotients(dividend, divisor);
    if divisor == 0 {
      return 1;
    }
    if divisor == 1 {
      remainder.v, quotient.v := 0, dividend;
      return 0;
    }
    if divisor == dividend {
      remainder.v, quotient.v := 0, 1;
      return 0;
    }
    if dividend == 0 || dividend < divisor {
      remainder.v, quotient.v := dividend, 0;
      return 0;
    }
    var q, r := ShiftSubtract(dividend, divisor, limbs);
    quotient.v := q;
    remainder.v := r;
    rc := 0;
  }

  // ---------------------------------------------------------------------------
  // Signed division

  /** The signed number that a two's complement value below n stands for. */
  function Signed(x: nat, n: nat): int {
    if 2 * x >= n then x - n else x
  }

  /** The value below n that a signed number is kept as. */
  function Unsigned(x: int, n: nat): nat
    requires n > 0
  {
    x % n
  }

  function Abs(x: int): nat { if x < 0 then -x else x }

  /** Division rounding towards zero: the remainder is smaller than the divisor and has the dividend's sign. */
  ghost predicate IsTruncated(a: int, b: int, q: int, r: int) {
    a == q * b + r && Abs(r) < Abs(b) && (a >= 0 ==> r >= 0) && (a <= 0 ==> r <= 0)
  }

  /** There is only one such quotient and remainder. */
  lemma TruncatedUnique(a: int, b: int, q: int, r: int, q': int, r': int)
    requires IsTruncated(a, b, q, r) && IsTruncated(a, b, q', r')
    ensures q == q' && r == r'
  {
    if b > 0 {
      if a >= 0 { EuclidUnique(b, q, r, q', r'); } else { EuclidUnique(b, -q, -r, -q', -r'); }
    } else {
      if a >= 0 { EuclidUnique(-b, -q, r, -q', r'); } else { EuclidUnique(-b, q, -r, q', -r'); }
    }
  }

  /** Signed division through the absolute values. */
  lemma ThroughAbsolutes(a: int, b: int, q: nat, r: nat)
    requires IsQuotRem(Abs(a), Abs(b), q, r)
    ensures IsTruncated(a, b, if (a < 0) != (b < 0) then -(q as int) else q, if a < 0 then -(r as int) else r)
  {
    NegateProduct(q, Abs(b));
  }

  lemma NegateProduct(x: int, y: int)
    ensures (-x) * y == -(x * y) && x * (-y) == -(x * y) && (-x) * (-y) == x * y
  {
  }

  /** Negation as the unsigned type does it. */
  function Negate(x: nat, n: nat): (r: nat)
    requires n > 0
    ensures r < n
  {
    Unsigned(-(x as int), n)
  }

  /** Whether the most significant byte has its top bit set. */
  predicate TopByteHigh(x: nat, n: nat)
    requires n >= 256
  {
    x / (n / 256) >= 128
  }

  lemma SignByte(x: nat, n: nat)
    requires n >= 256 && n % 256 == 0 && x < n
    ensures TopByteHigh(x, n) <==> Signed(x, n) < 0
    ensures Signed(x, n) < 0 ==> Negate(x, n) == Abs(Signed(x, n))
  {
    var m := n / 256;
    assert n == 256 * m;
    assert x == x / m * m + x % m;
    if x / m >= 128 {
      MulLe(128, x / m, m);
    } else {
      MulLe(x / m + 1, 128, m);
    }
    if Signed(x, n) < 0 {
      NegateExact(x, n);
    }
  }

  lemma NegateExact(x: nat, n: nat)
    requires 0 < x < n
    ensures Negate(x, n) == n - x
  {
    DivUnique(-(x as int), n, -1, n - x);
  }

  lemma ByteWidths(limbs: nat)
    requires limbs > 0
    ensures Pow(U64, limbs) >= 256 && Pow(U64, limbs) % 256 == 0
  {
    var p := Pow(U64, limbs - 1);
    MulLe(1, p, U64);
    DivUnique(U64 * p, 256, 0x100_0000_0000_0000 * p, 0);
  }

  /** A number divided by its own negation. */
  lemma ByNegation(a: int, q: int, r: int, n: nat)
    requires a < 0 && IsTruncated(a, -a, q, r) && n > 1
    ensures q == -1 && r == 0 && Unsigned(q, n) == n - 1 && Unsigned(r, n) == 0
  {
    TruncatedUnique(a, -a, q, r, -1, 0);
    DivUnique(-1, n, -1, n - 1);
    DivUnique(0, n, 0, 0);
  }

  /** What a signed division leaves behind, in terms of the signed numbers it was given. */
  twostate predicate SignedResult(pdividend: Cell, pdivisor: Cell, remainder: Cell, quotient: Cell, n: nat, q: int,
                                  r: int)
    requires n > 0
    reads pdividend, pdivisor, remainder, quotient
  {
    && IsTruncated(Signed(old(pdividend.v), n), Signed(old(pdivisor.v), n), q, r)
    && quotient.v == Unsigned(q, n) && remainder.v == Unsigned(r, n)
  }

  lemma ResultsFit(a: nat, b: nat, q: nat, r: nat, n: nat)
    requires IsQuotRem(a, b, q, r) && a < n && n > 0
    ensures Unsigned(q, n) == q && Unsigned(r, n) == r
  {
    MulLe(1, b, q);
    MulLe(0, q, b);
    DivUnique(q, n, 0, q);
    DivUnique(r, n, 0, r);
  }

  /** One cell holds both operands, and a negative number that has an absolute value. */
  predicate Mixed(x: nat, same: bool, n: nat) {
    same && Signed(x, n) < 0 && 2 * x != n
  }

  /** The divisor that is divided by: if one cell holds both operands, its sign may be gone already. */
  function DivisorSeen(x: nat, y: nat, same: bool, n: nat): int {
    if Mixed(x, same, n) then -Signed(x, n) else Signed(y, n)
  }

  /** Replaces both operands by their absolute values, in place, and says which were negative when it came to them. */
  method TakeAbsolutes(pdividend: Cell, pdivisor: Cell, n: nat) returns (dividendNegative: bool, divisorNegative: bool)
    requires n >= 256 && n % 256 == 0 && pdividend.v < n && pdivisor.v < n
    modifies pdividend, pdivisor
    ensures pdividend.v == Abs(Signed(old(pdividend.v), n)) < n && pdivisor.v == Abs(Signed(old(pdivisor.v), n)) < n
    ensures dividendNegative <==> Signed(old(pdividend.v), n) < 0
    ensures divisorNegative <==> DivisorSeen(old(pdividend.v), old(pdivisor.v), pdividend == pdivisor, n) < 0
  {
    SignByte(pdividend.v, n);
    SignByte(pdivisor.v, n);
    dividendNegative := TopByteHigh(pdividend.v, n);
    if dividendNegative {
      pdividend.v := Negate(pdividend.v, n);
    }
    SignByte(pdivisor.v, n);
    divisorNegative := TopByteHigh(pdivisor.v, n);
    if divisorNegative {
      pdivisor.v := Negate(pdivisor.v, n);
    }
  }

  /** Gives the quotient and remainder of the absolute values the signs that the operands call for. */
  method RestoreSigns(remainder: Cell, quotient: Cell, n: nat, dividendNegative: bool, divisorNegative: bool,
                      ghost a: int, ghost b: int)
    returns (ghost q: int, ghost r: int)
    requires n > 0 && Abs(a) < n && remainder != quotient
    requires (dividendNegative <==> a < 0) && (divisorNegative <==> b < 0)
    requires IsQuotRem(Abs(a), Abs(b), quotient.v, remainder.v)
    modifies remainder, quotient
    ensures IsTruncated(a, b, q, r) && quotient.v == Unsigned(q, n) && remainder.v == Unsigned(r, n)
  {
    ThroughAbsolutes(a, b, quotient.v, remainder.v);
    ResultsFit(Abs(a), Abs(b), quotient.v, remainder.v, n);
    q := if (a < 0) != (b < 0) then -(quotient.v as int) else quotient.v;
    r := if a < 0 then -(remainder.v as int) else remainder.v;
    if dividendNegative != divisorNegative {
      quotient.v := Negate(quotient.v, n);
    }
    if dividendNegative {
      remainder.v := Negate(remainder.v, n);
    }
  }

  /**
   The operands are signed; both are left holding their absolute values unless a result is stored
   over them.  One cell may hold both, though the compiler never does that: then a negative number divided
   by itself gives -1, unless it is the least one.  The least value divided by -1 gives itself, as the true
   quotient does modulo n.
   */
  method SDivMod128(pdividend: Cell, pdivisor: Cell, remainder: Cell, quotient: Cell)
    returns (rc: nat, ghost q: int, ghost r: int)
    requires pdividend.v < Pow(U64, 2) && pdivisor.v < Pow(U64, 2)
    requires remainder != quotient
    modifies pdividend, pdivisor, remainder, quotient
    ensures rc == if old(pdivisor.v) == 0 then 1 else 0
    ensures if Mixed(old(pdividend.v), pdividend == pdivisor, Pow(U64, 2))
            then quotient.v == Pow(U64, 2) - 1 && remainder.v == 0
            else rc == 0 ==> SignedResult(pdividend, pdivisor, remainder, quotient, Pow(U64, 2), q, r)
  {
    ByteWidths(2);
    ghost var a := Signed(pdividend.v, Pow(U64, 2));
    ghost var b := DivisorSeen(pdividend.v, pdivisor.v, pdividend == pdivisor, Pow(U64, 2));
    var dividendNegative, divisorNegative := TakeAbsolutes(pdividend, pdivisor, Pow(U64, 2));
    rc := UDivMod128(pdividend, pdivisor, remainder, quotient);
    if rc != 0 {
      return 1, 0, 0;
    }
    q, r := RestoreSigns(remainder, quotient, Pow(U64, 2), dividendNegative, divisorNegative, a, b);
    if a < 0 && b == -a {
      ByNegation(a, q, r, Pow(U64, 2));
    }
  }

  /** The same for the given number of 64-bit limbs. */
  method SDivModWide(pdividend: Cell, pdivisor: Cell, remainder: Cell, quotient: Cell, limbs: nat)
    returns (rc: nat, ghost q: int, ghost r: int)
    requires limbs > 0 && pdividend.v < Pow(U64, limbs) && pdivisor.v < Pow(U64, limbs)
    requires remainder != quotient
    modifies pdividend, pdivisor, remainder, quotient
    ensures rc == if old(pdivisor.v) == 0 then 1 else 0
    ensures
      if Mixed(old(pdividend.v), pdividend == pdivisor, Pow(U64, limbs))
      then quotient.v == Pow(U64, limbs) - 1 && remainder.v == 0
      else rc == 0 ==> SignedResult(pdividend, pdivisor, remainder, quotient, Pow(U64, limbs), q, r)
  {
    ByteWidths(limbs);
    ghost var n := Pow(U64, limbs);
    ghost var a, b := Signed(pdividend.v, n), DivisorSeen(pdividend.v, pdivisor.v, pdividend == pdivisor, n);
    var dividendNegative, divisorNegative := TakeAbsolutes(pdividend, pdivisor, Pow(U64, limbs));
    rc := UDivModWide(pdividend, pdivisor, remainder, quotient, limbs);
    if rc != 0 {
      return 1, 0, 0;
    }
    q, r := RestoreSigns(remainder, quotient, Pow(U64, limbs), dividendNegative, divisorNegative, a, b);
    if a < 0 && b == -a {
      ByNegation(a, q, r, n);
    }
  }

  /** One cell that holds -5 as both operands: the code divides -5 by 5, though the true quotient is 1. */
  lemma MinusFiveByItself(limbs: nat)
    requires limbs > 0
    ensures var n := Pow(U64, limbs);
      && n > 5 && Signed(n - 5, n) == -5 && Mixed(n - 5, true, n)
      && DivisorSeen(n - 5, n - 5, true, n) == 5 && DivisorSeen(n - 5, n - 5, false, n) == -5
      && IsTruncated(-5, 5, -1, 0) && IsTruncated(-5, -5, 1, 0)
  {
    ByteWidths(limbs);
  }

  /** The least value divided by -1: the true quotient does not fit, and wraps to the least value. */
  lemma LeastByMinusOne(n: nat, q: int, r: int)
    requires n >= 4 && n % 2 == 0
    requires IsTruncated(Signed(n / 2, n), Signed(n - 1, n), q, r)
    ensures q == n / 2 && r == 0 && Signed(Unsigned(q, n), n) == -(n / 2)
  {
    TruncatedUnique(Signed(n / 2, n), Signed(n - 1, n), q, r, n / 2, 0);
  }
}
