/**
 Numbers as sequences of 32-bit limbs, least significant first, and the arithmetic the wide
 integer routines rest on.
 */
module Limbs {
  import opened Bytes

  function Pow(b: nat, n: nat): (r: nat)
    ensures b > 0 ==> r > 0
  {
    if n == 0 then 1 else b * Pow(b, n - 1)
  }

  lemma {:induction false} PowAdd(b: nat, m: nat, n: nat)
    ensures Pow(b, m + n) == Pow(b, m) * Pow(b, n)
  {
    if m > 0 {
      PowAdd(b, m - 1, n);
      assert Pow(b, m + n) == b * Pow(b, m - 1 + n);
    }
  }

  lemma PowWord()
    ensures Pow(2, 32) == WORD
  {
    PowAdd(2, 4, 4);
    PowAdd(2, 8, 8);
    PowAdd(2, 16, 16);
  }

  lemma PowDouble()
    ensures Pow(2, 64) == 0x1_0000_0000_0000_0000
  {
    PowWord();
    PowAdd(2, 32, 32);
  }

  lemma PowMonotone(b: nat, m: nat, n: nat)
    requires b > 0 && m <= n
    ensures Pow(b, m) <= Pow(b, n)
  {
    PowAdd(b, m, n - m);
    MulAtLeast(Pow(b, m), Pow(b, n - m));
  }

  lemma MulLe(x: int, y: int, z: nat)
    requires x <= y
    ensures x * z <= y * z
  {
  }

  lemma MulAtLeast(x: nat, y: nat)
    requires y > 0
    ensures x * y >= x
  {
  }

  /** The number a sequence of limbs stands for. */
  function Value(s: seq<u32>): (r: nat) {
    if s == [] then 0 else s[0] + WORD * Value(s[1..])
  }

  lemma {:induction false} ValueBound(s: seq<u32>)
    ensures Value(s) < Pow(WORD, |s|)
  {
    if s != [] {
      ValueBound(s[1..]);
    }
  }

  lemma {:induction false} ValueAppend(s: seq<u32>, x: u32)
    ensures Value(s + [x]) == Value(s) + x * Pow(WORD, |s|)
  {
    if s != [] {
      ValueAppend(s[1..], x);
      assert (s + [x])[1..] == s[1..] + [x];
      PullOut(x, Pow(WORD, |s| - 1));
    } else {
      assert (s + [x])[1..] == [];
    }
  }

  lemma PullOut(x: int, p: int)
    ensures WORD * (x * p) == x * (WORD * p)
  {
  }

  /** Leading zero limbs do not matter. */
  lemma {:induction false} ValueTrim(s: seq<u32>, n: nat)
    requires n <= |s| && forall k | n <= k < |s| :: s[k] == 0
    ensures Value(s[..n]) == Value(s)
    decreases |s|
  {
    if s != [] {
      ValueTrim(s[1..], if n > 0 then n - 1 else 0);
      if n > 0 {
        assert s[..n][1..] == s[1..][..n - 1];
      } else {
        assert s[1..][..0] == [];
      }
    }
  }

  /** Bitwise or of two natural numbers. */
  function Or(x: nat, y: nat): (r: nat) {
    if x == 0 && y == 0 then 0
    else (if x % 2 == 1 || y % 2 == 1 then 1 else 0) + 2 * Or(x / 2, y / 2)
  }

  lemma {:induction false} OrZero(x: nat)
    ensures Or(x, 0) == x && Or(0, x) == x
  {
    if x > 0 {
      OrZero(x / 2);
    }
  }

  /** On numbers with no bits in common, one below bit k and one above, or is addition. */
  lemma {:induction false} OrIsSum(x: nat, y: nat, k: nat)
    requires x < Pow(2, k) && y % Pow(2, k) == 0
    ensures Or(x, y) == x + y && Or(y, x) == x + y
    decreases k
  {
    if k == 0 {
      OrZero(y);
    } else {
      var p := Pow(2, k - 1);
      var z := y / (2 * p);
      assert y == 2 * p * z;
      assert y == 2 * (p * z);
      MulMod(p, z);
      OrIsSum(x / 2, p * z, k - 1);
    }
  }

  lemma MulMod(p: nat, z: nat)
    requires p > 0
    ensures (p * z) % p == 0
  {
    DivUnique(p * z, p, z, 0);
  }

  lemma EuclidUnique(d: nat, q: int, r: nat, q': int, r': nat)
    requires q * d + r == q' * d + r' && r < d && r' < d
    ensures q == q' && r == r'
  {
    if q < q' {
      MulLe(q + 1, q', d);
    } else if q' < q {
      MulLe(q' + 1, q, d);
    }
  }

  /** Quotient and remainder are unique. */
  lemma DivUnique(n: int, d: nat, q: int, r: nat)
    requires d > 0 && n == q * d + r && r < d
    ensures n / d == q && n % d == r
  {
    assert n == (n / d) * d + n % d;
    EuclidUnique(d, q, r, n / d, n % d);
  }
}
