/**
 Column multiplication of wide integers: the truncating form and the form that detects overflow.
 */
module Multiply {
  import opened Bytes
  import opened Limbs

  // ---------------------------------------------------------------------------
  // What the columns add up to

  function Clamp(x: int, n: nat): (r: nat)
    ensures r <= n
  {
    if x < 0 then 0 else if x > n then n else x
  }

  /** The rows of the schoolbook scheme, each cut off after column l: the sum of the first l columns. */
  ghost function Rows(a: seq<u32>, b: seq<u32>, l: nat): nat {
    if b == [] then 0 else Rows(a, b[..|b| - 1], l) + Row(a, b, l, |b| - 1)
  }

  ghost function Row(a: seq<u32>, b: seq<u32>, l: nat, n: nat): nat
    requires n < |b|
  {
    b[n] as int * (Pow(WORD, n) * Value(a[..Clamp(l - n, |a|)]))
  }

  /** The product of limbs that row j contributes to column l. */
  ghost function Term(a: seq<u32>, b: seq<u32>, l: nat, j: nat): nat
    requires j < |b|
  {
    if 0 <= l - j < |a| then a[l - j] as int * b[j] as int else 0
  }

  /** The part of column l in rows below k. */
  ghost function Column(a: seq<u32>, b: seq<u32>, l: nat, k: nat): nat
    requires k <= |b|
  {
    if k == 0 then 0 else Column(a, b, l, k - 1) + Term(a, b, l, k - 1)
  }

  lemma {:induction false} ColumnPrefix(a: seq<u32>, b: seq<u32>, l: nat, k: nat, n: nat)
    requires k <= n <= |b|
    ensures Column(a, b, l, k) == Column(a, b[..n], l, k)
    decreases k
  {
    if k > 0 {
      ColumnPrefix(a, b, l, k - 1, n);
    }
  }

  lemma {:induction false} ColumnZero(a: seq<u32>, b: seq<u32>, l: nat, k: nat)
    requires k <= |b| && (k == 0 || |a| + k <= l + 1)
    ensures Column(a, b, l, k) == 0
    decreases k
  {
    if k > 0 {
      ColumnZero(a, b, l, k - 1);
    }
  }

  lemma {:induction false} ColumnPast(a: seq<u32>, b: seq<u32>, l: nat, k: nat)
    requires l < k <= |b|
    ensures Column(a, b, l, k) == Column(a, b, l, l + 1)
    decreases k
  {
    if k > l + 1 {
      ColumnPast(a, b, l, k - 1);
    }
  }

  lemma {:induction false} RowsStart(a: seq<u32>, b: seq<u32>)
    ensures Rows(a, b, 0) == 0
  {
    if b != [] {
      RowsStart(a, b[..|b| - 1]);
      assert a[..Clamp(0 - (|b| - 1), |a|)] == [];
    }
  }

  lemma {:induction false} RowsAll(a: seq<u32>, b: seq<u32>, l: nat)
    requires l >= |a| + |b|
    ensures Rows(a, b, l) == Value(a) * Value(b)
  {
    if b != [] {
      var n := |b| - 1;
      RowsAll(a, b[..n], l);
      assert a[..Clamp(l - n, |a|)] == a;
      assert b == b[..n] + [b[n]];
      ValueAppend(b[..n], b[n]);
      LastRow(Value(a), Value(b[..n]), b[n], Pow(WORD, n));
    }
  }

  lemma LastRow(x: int, y: int, z: int, p: int)
    ensures x * (y + z * p) == x * y + z * (p * x)
  {
  }

  /** One more limb of a in a row is one more term, shifted to its column. */
  lemma RowGrows(a: seq<u32>, b: seq<u32>, l: nat, n: nat)
    requires n < |b|
    ensures Row(a, b, l + 1, n) == Row(a, b, l, n) + Pow(WORD, l) * Term(a, b, l, n)
  {
    if 0 <= l - n < |a| {
      var m := l - n;
      var s := a[..m];
      assert a[..m + 1] == s + [a[m]];
      ValueAppend(s, a[m]);
      PowAdd(WORD, n, m);
      Regroup(b[n], Pow(WORD, n), Value(s), a[m], Pow(WORD, m), Pow(WORD, l));
    }
  }

  lemma Regroup(x: int, p: int, v: int, y: int, q: int, pq: int)
    requires pq == p * q
    ensures x * (p * (v + y * q)) == x * (p * v) + pq * (y * x)
  {
    assert p * (v + y * q) == p * v + y * pq;
    assert x * (p * v + y * pq) == x * (p * v) + x * (y * pq);
    assert x * (y * pq) == pq * (y * x);
  }

  lemma AddRow(x: int, x': int, r: int, r': int, p: int, c: int, t: int)
    requires x' == x + p * c && r' == r + p * t
    ensures x' + r' == x + r + p * (c + t)
  {
  }

  /** Each column adds its sum at its place. */
  lemma {:induction false} RowsStep(a: seq<u32>, b: seq<u32>, l: nat)
    ensures Rows(a, b, l + 1) == Rows(a, b, l) + Pow(WORD, l) * Column(a, b, l, |b|)
  {
    if b != [] {
      var n := |b| - 1;
      RowsStep(a, b[..n], l);
      ColumnPrefix(a, b, l, n, n);
      RowGrows(a, b, l, n);
      AddRow(Rows(a, b[..n], l), Rows(a, b[..n], l + 1), Row(a, b, l, n), Row(a, b, l + 1, n),
             Pow(WORD, l), Column(a, b, l, n), Term(a, b, l, n));
    }
  }

  /** Later columns only add multiples of the place of the first of them. */
  lemma {:induction false} RowsLater(a: seq<u32>, b: seq<u32>, l: nat, m: nat) returns (k: nat)
    requires l <= m
    ensures Rows(a, b, m) == Rows(a, b, l) + k * Pow(WORD, l)
    decreases m - l
  {
    if m == l {
      k := 0;
    } else {
      var k' := RowsLater(a, b, l, m - 1);
      RowsStep(a, b, m - 1);
      PowAdd(WORD, l, m - 1 - l);
      var c := Column(a, b, m - 1, |b|);
      k := k' + Pow(WORD, m - 1 - l) * c;
      Collect(k', Pow(WORD, m - 1 - l), c, Pow(WORD, l), Pow(WORD, m - 1));
    }
  }

  lemma Collect(k: int, q: int, c: int, p: int, pq: int)
    requires pq == p * q
    ensures k * p + pq * c == (k + q * c) * p
  {
    assert pq * c == q * c * p;
  }

  /** x moved up by l limbs. */
  ghost function Shifted(x: nat, l: nat): nat {
    if l == 0 then x else WORD * Shifted(x, l - 1)
  }

  lemma {:induction false} ShiftedExact(x: nat, l: nat)
    ensures Shifted(x, l) == x * Pow(WORD, l)
  {
    if l > 0 {
      ShiftedExact(x, l - 1);
    }
  }

  /** The limbs written so far and the pending sum make up the columns before l. */
  ghost predicate UpTo(a: seq<u32>, b: seq<u32>, l: nat, done: seq<u32>, pending: nat) {
    Value(done) + Shifted(pending, l) == Rows(a, b, l)
  }

  // ---------------------------------------------------------------------------
  // The loops

  function Max0(x: int): nat { if x < 0 then 0 else x }

  /** The length of the operand without its leading zero limbs. */
  method TrimmedLength(a: array<u32>) returns (n: nat)
    ensures n <= a.Length && (n > 0 ==> a[n - 1] != 0)
    ensures Value(a[..n]) == Value(a[..])
  {
    n := a.Length;
    while n > 0 && a[n - 1] == 0
      invariant n <= a.Length && forall k | n <= k < a.Length :: a[k] == 0
    {
      n := n - 1;
    }
    ValueTrim(a[..], n);
    assert a[..][..n] == a[..n];
  }

  /** Adds the products of one column to val1; each time the 64-bit sum wraps, carry grows by 2^32. */
  method AddColumn(left: array<u32>, right: array<u32>, leftLen: nat, rightLen: nat, l: nat,
                   leftStart: nat, rightStart: nat, rightEnd: nat, pending: u64)
    returns (val1: u64, carry: u64)
    requires leftLen <= left.Length && rightLen <= right.Length < 0x4000_0000
    requires leftStart == Max0(l - rightLen + 1) && rightStart == Max0(l - leftLen + 1)
    requires rightEnd == Min(l + 1, rightLen)
    ensures carry % WORD == 0 && carry / WORD <= rightLen
    ensures val1 + (carry / WORD) * U64 == pending + Column(left[..leftLen], right[..rightLen], l, rightLen)
  {
    ghost var a, b := left[..leftLen], right[..rightLen];
    if rightEnd == l + 1 {
      ColumnPast(a, b, l, rightLen);
    }
    val1, carry := pending, 0;
    var i := 0;
    var r: int := rightEnd - 1;
    ghost var count := 0;
    while r >= rightStart
      invariant rightStart - 1 <= r < rightEnd || (r == rightEnd - 1 && rightEnd <= rightStart)
      invariant i == rightEnd - 1 - r
      invariant carry == count * WORD && count <= i
      invariant val1 + count * U64 == pending + Column(a, b, l, rightEnd) - Column(a, b, l, r + 1)
      decreases r
    {
      assert leftStart + i == l - r;
      var m := left[leftStart + i] as int * right[r] as int;
      TermBound(left[leftStart + i], right[r]);
      assert m == Term(a, b, l, r);
      i := i + 1;
      if val1 + m >= U64 {
        val1 := val1 + m - U64;
        carry := carry + WORD;
        count := count + 1;
      } else {
        val1 := val1 + m;
      }
      r := r - 1;
    }
    ColumnZero(a, b, l, r + 1);
    MulMod(WORD, count);
  }

  lemma TermBound(x: u32, y: u32)
    ensures 0 <= x as int * y as int < U64
  {
    MulLe(0, x, y);
    MulLe(x, WORD - 1, y);
  }

  /** The deferred carry: or-ing it onto the shifted sum adds it, and nothing is lost. */
  lemma ShiftExact(val1: u64, carry: u64)
    requires carry % WORD == 0 && carry / WORD < 0x4000_0000
    ensures Or(val1 / WORD, carry) == val1 / WORD + carry < U64
    ensures val1 + (carry / WORD) * U64 == val1 % WORD + (val1 / WORD + carry) * WORD
  {
    PowWord();
    OrIsSum(val1 / WORD, carry, 32);
  }

  lemma DigitStep(v: int, pending: int, p: int, rows: int, total: int, column: int, digit: int, pending': int)
    requires v + pending * p == rows && total == pending + column && total == digit + pending' * WORD
    ensures v + digit * p + pending' * (WORD * p) == rows + p * column
  {
    assert p * total == p * digit + pending' * (WORD * p);
    assert p * total == pending * p + p * column;
  }

  /** After column l: the limbs written so far and the pending sum make up the columns up to l. */
  lemma ColumnDone(a: seq<u32>, b: seq<u32>, l: nat, done: seq<u32>, pending: u64, val1: u64, carry: u64)
    requires |done| == l && Value(done) + pending * Pow(WORD, l) == Rows(a, b, l)
    requires carry % WORD == 0 && carry / WORD < 0x4000_0000
    requires val1 + (carry / WORD) * U64 == pending + Column(a, b, l, |b|)
    ensures Value(done + [val1 % WORD]) + (val1 / WORD + carry) * Pow(WORD, l + 1) == Rows(a, b, l + 1)
  {
    ShiftExact(val1, carry);
    RowsStep(a, b, l);
    ValueAppend(done, val1 % WORD);
    DigitStep(Value(done), pending, Pow(WORD, l), Rows(a, b, l), val1 + (carry / WORD) * U64,
              Column(a, b, l, |b|), val1 % WORD, val1 / WORD + carry);
  }

  lemma ModOf(n: int, p: nat, x: int, y: int, v: nat)
    requires n == v + x * p + y * p && v < p
    ensures n % p == v
  {
    assert x * p + y * p == (x + y) * p;
    DivUnique(n, p, x + y, v);
  }

  /** The product modulo 2^(32 * len). */
  lemma Truncated(a: seq<u32>, b: seq<u32>, out: seq<u32>, pending: u64)
    requires UpTo(a, b, |out|, out, pending)
    ensures Value(out) == (Value(a) * Value(b)) % Pow(WORD, |out|)
  {
    ShiftedExact(pending, |out|);
    var p := Pow(WORD, |out|);
    var m := |a| + |b| + |out|;
    var k := RowsLater(a, b, |out|, m);
    RowsAll(a, b, m);
    ValueBound(out);
    ModOf(Value(a) * Value(b), p, pending, k, Value(out));
  }

  /** Which limbs meet in a column: the left index of the first product and the range of right indices. */
  datatype Window = Window(leftStart: nat, rightStart: nat, rightEnd: nat)

  /** The window as it stands before column l. */
  ghost predicate Before(w: Window, l: nat, leftLen: nat, rightLen: nat) {
    w == Window(Max0(l - rightLen), Max0(l - leftLen), Min(l, rightLen))
  }

  /** Moves the window on to column l. */
  method Advance(w: Window, l: nat, leftLen: nat, rightLen: nat) returns (r: Window)
    requires Before(w, l, leftLen, rightLen)
    ensures Before(r, l + 1, leftLen, rightLen)
  {
    r := w;
    if l >= leftLen { r := r.(rightStart := r.rightStart + 1); }
    if l >= rightLen { r := r.(leftStart := r.leftStart + 1); }
    if r.rightEnd < rightLen { r := r.(rightEnd := r.rightEnd + 1); }
  }

  /** One column: its limb of the product, and the pending sum for the next column. */
  method DoColumn(left: array<u32>, right: array<u32>, leftLen: nat, rightLen: nat, l: nat,
                  w: Window, pending: u64, ghost done: seq<u32>)
    returns (sum: u64, digit: u32, val1: u64)
    requires leftLen <= left.Length && rightLen <= right.Length < 0x4000_0000
    requires Before(w, l + 1, leftLen, rightLen)
    requires |done| == l && UpTo(left[..leftLen], right[..rightLen], l, done, pending)
    ensures UpTo(left[..leftLen], right[..rightLen], l + 1, done + [digit], val1)
    ensures sum == 0 ==> digit == 0
    ensures sum > 0 ==> Rows(left[..leftLen], right[..rightLen], l + 1) >= Pow(WORD, l)
  {
    var carry;
    sum, carry := AddColumn(left, right, leftLen, rightLen, l, w.leftStart, w.rightStart, w.rightEnd, pending);
    ghost var a, b := left[..leftLen], right[..rightLen];
    ShiftedExact(pending, l);
    ColumnDone(a, b, l, done, pending, sum, carry);
    ShiftedExact(sum / WORD + carry, l + 1);
    ShiftExact(sum, carry);
    digit := sum % WORD;
    val1 := Or(sum / WORD, carry);
    if sum > 0 {
      RowsStep(a, b, l);
      HighLimb(Value(done), pending, Pow(WORD, l), Column(a, b, l, |b|));
    }
  }

  lemma HighLimb(v: nat, pending: nat, p: nat, column: nat)
    requires pending + column > 0
    ensures v + pending * p + p * column >= p
  {
    assert pending * p + p * column == (pending + column) * p;
    MulLe(1, pending + column, p);
  }

  /** The columns within the width. */
  method Columns(left: array<u32>, right: array<u32>, leftLen: nat, rightLen: nat, out: array<u32>)
    returns (ghost val1: u64)
    requires left.Length == right.Length == out.Length < 0x4000_0000
    requires leftLen <= left.Length && rightLen <= right.Length
    requires out != left && out != right
    modifies out
    ensures UpTo(left[..leftLen], right[..rightLen], out.Length, out[..], val1)
  {
    var w := Window(0, 0, 0);
    var pending: u64 := 0;
    ghost var a, b := left[..leftLen], right[..rightLen];
    RowsStart(a, b);
    for l := 0 to out.Length
      invariant Before(w, l, leftLen, rightLen)
      invariant a == left[..leftLen] && b == right[..rightLen]
      invariant UpTo(a, b, l, out[..l], pending)
    {
      w := Advance(w, l, leftLen, rightLen);
      ghost var done := out[..l];
      var sum, digit;
      sum, digit, pending := DoColumn(left, right, leftLen, rightLen, l, w, pending, done);
      out[l] := digit;
      assert out[..l + 1] == done + [digit];
    }
    assert out[..out.Length] == out[..];
    val1 := pending;
  }

  method Mul32(left: array<u32>, right: array<u32>, out: array<u32>)
    requires left.Length == right.Length == out.Length < 0x4000_0000
    requires out != left && out != right
    modifies out
    ensures Value(out[..]) == (Value(left[..]) * Value(right[..])) % Pow(WORD, out.Length)
  {
    var leftLen := TrimmedLength(left);
    var rightLen := TrimmedLength(right);
    ghost var val1 := Columns(left, right, leftLen, rightLen, out);
    Truncated(left[..leftLen], right[..rightLen], out[..], val1);
  }

  lemma ProductBelow(x: nat, y: nat, p: nat)
    requires x < p && y < p
    ensures x * y < p * p
  {
    MulLe(x, p - 1, y);
    MulLe(y, p - 1, p);
  }

  /** The whole product takes at most twice the operand width. */
  lemma RowsBound(a: seq<u32>, b: seq<u32>, n: nat)
    requires |a| <= n && |b| <= n
    ensures Rows(a, b, 2 * n) < Pow(WORD, 2 * n)
  {
    RowsAll(a, b, 2 * n);
    ValueBound(a);
    ValueBound(b);
    PowMonotone(WORD, |a|, n);
    PowMonotone(WORD, |b|, n);
    PowAdd(WORD, n, n);
    ProductBelow(Value(a), Value(b), Pow(WORD, n));
  }

  /** All limbs above the operand width are zero: then nothing is pending, and the product fits. */
  lemma NothingAbove(a: seq<u32>, b: seq<u32>, out: seq<u32>, val1: u64)
    requires |a| <= |out| && |b| <= |out|
    requires UpTo(a, b, 2 * |out|, out, val1)
    ensures Rows(a, b, 2 * |out|) == Value(out) < Pow(WORD, |out|)
  {
    RowsBound(a, b, |out|);
    ValueBound(out);
    ShiftedExact(val1, 2 * |out|);
    Squeeze(Value(out), val1, Pow(WORD, 2 * |out|), Rows(a, b, 2 * |out|));
  }

  lemma Squeeze(v: nat, x: nat, p: nat, r: nat)
    requires v + x * p == r < p
    ensures v == r
  {
    if x > 0 {
      MulLe(1, x, p);
    }
  }

  lemma RowsMonotone(a: seq<u32>, b: seq<u32>, l: nat, m: nat)
    requires l <= m
    ensures Rows(a, b, l) <= Rows(a, b, m)
  {
    var k := RowsLater(a, b, l, m);
    MulLe(0, k, Pow(WORD, l));
  }

  /** A limb above the width is not zero: the product does not fit. */
  lemma SomethingAbove(a: seq<u32>, b: seq<u32>, n: nat, l: nat)
    requires n <= l < 2 * n
    requires Rows(a, b, l + 1) >= Pow(WORD, l)
    ensures Rows(a, b, 2 * n) >= Pow(WORD, n)
  {
    RowsMonotone(a, b, l + 1, 2 * n);
    PowMonotone(WORD, n, l);
  }

  method Mul32WithOverflow(left: array<u32>, right: array<u32>, out: array<u32>) returns (overflow: bool)
    requires left.Length == right.Length == out.Length < 0x4000_0000
    requires out != left && out != right
    modifies out
    ensures Value(out[..]) == (Value(left[..]) * Value(right[..])) % Pow(WORD, out.Length)
    ensures overflow <==> Value(left[..]) * Value(right[..]) >= Pow(WORD, out.Length)
  {
    var leftLen := TrimmedLength(left);
    var rightLen := TrimmedLength(right);
    ghost var a, b := left[..leftLen], right[..rightLen];
    ghost var atWidth;
    overflow, atWidth := ColumnsWithOverflow(left, right, leftLen, rightLen, out);
    RowsAll(a, b, 2 * out.Length);
    Truncated(a, b, out[..], atWidth);
  }

  /** The limbs of the product that fit the output. */
  ghost function Low(out: seq<u32>, l: nat): seq<u32> {
    if l <= |out| then out[..l] else out + Zeros(l - |out|)
  }

  lemma LowNext(out: seq<u32>, l: nat, x: u32)
    ensures l < |out| ==> Low(out[l := x], l + 1) == Low(out, l) + [x]
    ensures l + 1 == |out| ==> Low(out[l := x], l + 1) == out[l := x]
    ensures l >= |out| ==> Low(out, l + 1) == Low(out, l) + [0]
  {
  }

  /** The columns before l are done; atWidth is what was pending when the output was full. */
  ghost predicate Progress(a: seq<u32>, b: seq<u32>, out: seq<u32>, l: nat, val1: nat, atWidth: nat) {
    UpTo(a, b, l, Low(out, l), val1) && (l >= |out| ==> UpTo(a, b, |out|, out, atWidth))
  }

  lemma ProgressWrite(a: seq<u32>, b: seq<u32>, out: seq<u32>, l: nat, x: u32, val1: nat)
    requires l < |out| && UpTo(a, b, l + 1, Low(out, l) + [x], val1)
    ensures Progress(a, b, out[l := x], l + 1, val1, val1)
  {
    LowNext(out, l, x);
  }

  lemma ProgressCheck(a: seq<u32>, b: seq<u32>, out: seq<u32>, l: nat, pending: nat, val1: nat, atWidth: nat)
    requires l >= |out| && Progress(a, b, out, l, pending, atWidth) && UpTo(a, b, l + 1, Low(out, l) + [0], val1)
    ensures Progress(a, b, out, l + 1, val1, atWidth)
  {
    LowNext(out, l, 0);
  }

  /** The columns within the width are done, and overflow says whether the product goes beyond it. */
  ghost predicate Judged(a: seq<u32>, b: seq<u32>, out: seq<u32>, atWidth: nat, overflow: bool) {
    UpTo(a, b, |out|, out, atWidth) && (overflow <==> Rows(a, b, 2 * |out|) >= Pow(WORD, |out|))
  }

  /** One column of the checked multiplication: written if it is within the width, checked if beyond. */
  method CheckedColumn(left: array<u32>, right: array<u32>, leftLen: nat, rightLen: nat, out: array<u32>, l: nat,
                       w: Window, pending: u64, ghost atWidth: u64, ghost a: seq<u32>, ghost b: seq<u32>)
    returns (val1: u64, overflow: bool, ghost atWidth': u64)
    requires left.Length == right.Length == out.Length < 0x4000_0000
    requires leftLen <= left.Length && rightLen <= right.Length && out != left && out != right
    requires l < 2 * out.Length && Before(w, l + 1, leftLen, rightLen)
    requires a == left[..leftLen] && b == right[..rightLen] && Progress(a, b, out[..], l, pending, atWidth)
    modifies out
    ensures a == left[..leftLen] && b == right[..rightLen]
    ensures !overflow ==> Progress(a, b, out[..], l + 1, val1, atWidth')
    ensures overflow ==> Judged(a, b, out[..], atWidth', true)
  {
    ghost var low := out[..];
    var sum, digit;
    sum, digit, val1 := DoColumn(left, right, leftLen, rightLen, l, w, pending, Low(low, l));
    atWidth' := atWidth;
    overflow := false;
    if l < out.Length {
      out[l] := digit;
      atWidth' := val1;
      ProgressWrite(a, b, low, l, digit, val1);
      assert out[..] == low[l := digit];
    } else if sum > 0 {
      SomethingAbove(a, b, out.Length, l);
      overflow := true;
    } else {
      ProgressCheck(a, b, low, l, pending, val1, atWidth);
    }
  }

  /** The columns up to twice the width. */
  method ColumnsWithOverflow(left: array<u32>, right: array<u32>, leftLen: nat, rightLen: nat, out: array<u32>)
    returns (overflow: bool, ghost atWidth: u64)
    requires left.Length == right.Length == out.Length < 0x4000_0000
    requires leftLen <= left.Length && rightLen <= right.Length
    requires out != left && out != right
    modifies out
    ensures Judged(left[..leftLen], right[..rightLen], out[..], atWidth, overflow)
  {
    var w := Window(0, 0, 0);
    var val1: u64 := 0;
    ghost var a, b := left[..leftLen], right[..rightLen];
    RowsStart(a, b);
    overflow, atWidth := false, 0;
    var l := 0;
    while l < 2 * out.Length
      invariant 0 <= l <= 2 * out.Length && Before(w, l, leftLen, rightLen)
      invariant a == left[..leftLen] && b == right[..rightLen]
      invariant Progress(a, b, out[..], l, val1, atWidth)
    {
      w := Advance(w, l, leftLen, rightLen);
      val1, overflow, atWidth := CheckedColumn(left, right, leftLen, rightLen, out, l, w, val1, atWidth, a, b);
      if overflow {
        return;
      }
      l := l + 1;
    }
    Finish(a, b, out[..], atWidth, val1);
  }

  lemma PaddedLow(out: seq<u32>, l: nat)
    requires l >= |out|
    ensures Value(Low(out, l)) == Value(out)
  {
    if l > |out| {
      PaddedValue(out, l - |out|);
    } else {
      assert out[..|out|] == out;
    }
  }

  lemma Finish(a: seq<u32>, b: seq<u32>, out: seq<u32>, atWidth: u64, val1: u64)
    requires |a| <= |out| && |b| <= |out|
    requires Progress(a, b, out, 2 * |out|, val1, atWidth)
    ensures Judged(a, b, out, atWidth, false)
  {
    PaddedLow(out, 2 * |out|);
    NothingAbove(a, b, out, val1);
  }

  lemma {:induction false} PaddedValue(s: seq<u32>, n: nat)
    ensures Value(s + Zeros(n)) == Value(s)
  {
    ValueTrim(s + Zeros(n), |s|);
    assert (s + Zeros(n))[..|s|] == s;
  }
}
