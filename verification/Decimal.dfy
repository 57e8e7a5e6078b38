/**
 Printing unsigned integers in decimal: digits are collected least significant first, in chunks of
 19 for the wide types, and then copied out in reading order.
 */
module Decimal {
  import opened Bytes
  import opened Limbs
  import opened Divide
  import Tokens

  type digit = x: int | 0 <= x < 10

  const CHUNK := 10_000_000_000_000_000_000

  /** The number a buffer of digits stands for, least significant digit first. */
  ghost function Low(ds: seq<digit>): nat {
    if ds == [] then 0 else Low(ds[..|ds| - 1]) + ds[|ds| - 1] * Pow(10, |ds| - 1)
  }

  /** The number a decimal numeral reads as. */
  ghost function Read(s: seq<char>): int {
    if s == [] then 0 else 10 * Read(s[..|s| - 1]) + (s[|s| - 1] as int - '0' as int)
  }

  /** The decimal numeral of v, with no leading zero. */
  ghost predicate Prints(s: seq<char>, v: nat) {
    && |s| > 0 && (|s| > 1 ==> s[0] != '0')
    && (forall k | 0 <= k < |s| :: Tokens.IsDigit(s[k]))
    && Read(s) == v
  }

  lemma {:induction false} ReadBounds(s: seq<char>)
    requires |s| > 0 && forall k | 0 <= k < |s| :: Tokens.IsDigit(s[k])
    ensures (s[0] as int - '0' as int) * Pow(10, |s| - 1) <= Read(s) < Pow(10, |s|)
  {
    var p := s[..|s| - 1];
    if |s| > 1 {
      ReadBounds(p);
      assert 10 * ((s[0] as int - '0' as int) * Pow(10, |s| - 2)) == (s[0] as int - '0' as int) * Pow(10, |s| - 1);
    } else {
      assert Read(p) == 0;
    }
  }

  /** A number has one numeral only. */
  lemma PrintsUnique(s: seq<char>, t: seq<char>, v: nat)
    requires Prints(s, v) && Prints(t, v)
    ensures s == t
  {
    if |s| == |t| {
      ReadInjective(s, t);
    } else if |s| < |t| {
      LongerReadsMore(s, v, t, v);
    } else {
      LongerReadsMore(t, v, s, v);
    }
  }

  lemma LongerReadsMore(s: seq<char>, v: nat, t: seq<char>, w: nat)
    requires |s| < |t| && Prints(s, v) && Prints(t, w)
    ensures v < w
  {
    ReadBounds(s);
    ReadBounds(t);
    PowMonotone(10, |s|, |t| - 1);
    assert Tokens.IsDigit(t[0]);
    MulLe(1, t[0] as int - '0' as int, Pow(10, |t| - 1));
  }

  lemma {:induction false} ReadInjective(s: seq<char>, t: seq<char>)
    requires |s| == |t| && Read(s) == Read(t)
    requires forall k | 0 <= k < |s| :: Tokens.IsDigit(s[k]) && Tokens.IsDigit(t[k])
    ensures s == t
  {
    if s != [] {
      var p, q := s[..|s| - 1], t[..|t| - 1];
      var c, e := s[|s| - 1], t[|s| - 1];
      ReadInjective(p, q);
      assert s == p + [c] && t == q + [e];
    }
  }

  /** b is a with the digits of val behind it: those of its numeral, so 0 has one. */
  ghost predicate Appended(a: seq<digit>, b: seq<digit>, val: nat) {
    && |a| < |b| && b[..|a|] == a
    && Low(b) == Low(a) + val * Pow(10, |a|)
    && val < Pow(10, |b| - |a|)
    && (if val == 0 then |b| == |a| + 1 else b[|b| - 1] != 0 && Pow(10, |b| - |a| - 1) <= val)
  }

  lemma LowStep(ds: seq<digit>, d: digit)
    ensures Low(ds + [d]) == Low(ds) + d * Pow(10, |ds|)
  {
    assert (ds + [d])[..|ds|] == ds;
  }

  /** The digits of val written so far, and what is left of it. */
  ghost predicate Partial(a: seq<digit>, b: seq<digit>, val: nat, left: nat) {
    && |a| <= |b| && b[..|a|] == a
    && Low(b) + left * Pow(10, |b|) == Low(a) + val * Pow(10, |a|)
    && (if |a| == |b| then left == val else left * Pow(10, |b| - |a|) <= val < (left + 1) * Pow(10, |b| - |a|))
    && (left == 0 < val ==> |a| < |b| && b[|b| - 1] != 0 && Pow(10, |b| - |a| - 1) <= val)
    && (val == 0 ==> |b| <= |a| + 1)
  }

  lemma PartialStep(a: seq<digit>, b: seq<digit>, val: nat, left: nat)
    requires Partial(a, b, val, left) && (left > 0 || a == b)
    ensures Partial(a, b + [left % 10], val, left / 10)
  {
    var q, d := left / 10, left % 10;
    LowStep(b, d);
    SplitDigit(left, Pow(10, |b|));
    var n := |b| - |a|;
    SplitDigit(left, Pow(10, n));
    SplitDigit(left + 1, Pow(10, n));
    NextBounds(left, Pow(10, n), val);
    assert (b + [d])[..|a|] == b[..|a|];
  }

  lemma SplitDigit(x: nat, p: nat)
    ensures x * p == (x / 10) * (10 * p) + (x % 10) * p
  {
    assert x == x / 10 * 10 + x % 10;
    assert x * p == (x / 10 * 10) * p + (x % 10) * p;
    assert (x / 10 * 10) * p == (x / 10) * (10 * p);
  }

  lemma NextBounds(left: nat, p: nat, val: nat)
    requires left * p <= val < (left + 1) * p
    ensures (left / 10) * (10 * p) <= val < (left / 10 + 1) * (10 * p)
    ensures left > 0 ==> p <= val
  {
    SplitDigit(left, p);
    MulLe(left + 1, 10 * (left / 10) + 10, p);
    assert (10 * (left / 10) + 10) * p == (left / 10 + 1) * (10 * p);
    if left > 0 {
      MulLe(1, left, p);
    }
  }

  /** The loop that appends the digits of val to the buffer; at least one. */
  method PutDigits(buf: array<digit>, start: nat, number: nat, ghost room: nat) returns (len: nat)
    requires start + room <= buf.Length && 0 < room && number < Pow(10, room)
    modifies buf
    ensures start < len <= start + room && Appended(old(buf[..start]), buf[..len], number)
  {
    len := start;
    var val := number;
    ghost var a := buf[..start];
    while true
      invariant start <= len < start + room && (val > 0 || len == start)
      invariant Partial(a, buf[..len], number, val)
      decreases start + room - len
    {
      ghost var b := buf[..len];
      PartialStep(a, b, number, val);
      buf[len] := val % 10;
      len := len + 1;
      val := val / 10;
      assert buf[..len] == b + [buf[len - 1]];
      PartialFits(a, buf[..len], number, val, room);
      if val == 0 {
        break;
      }
    }
  }

  lemma PartialFits(a: seq<digit>, b: seq<digit>, val: nat, left: nat, room: nat)
    requires Partial(a, b, val, left) && val < Pow(10, room) && |a| < |b|
    ensures left > 0 ==> |b| - |a| < room
    ensures left == 0 ==> Appended(a, b, val)
  {
    if left > 0 {
      if room <= |b| - |a| {
        PowMonotone(10, room, |b| - |a|);
        MulLe(1, left, Pow(10, |b| - |a|));
      }
    }
  }

  /** Zeros behind the digits do not change the number. */
  method PadTo(buf: array<digit>, start: nat, to: nat) returns (len: nat)
    requires start <= buf.Length && to <= buf.Length
    modifies buf
    ensures len == if start < to then to else start
    ensures buf[..len][..start] == old(buf[..start]) && Low(buf[..len]) == Low(old(buf[..start]))
  {
    len := start;
    while len < to
      invariant start <= len <= buf.Length && (len <= to || len == start)
      invariant buf[..len][..start] == old(buf[..start]) && Low(buf[..len]) == Low(old(buf[..start]))
    {
      ghost var b := buf[..len];
      buf[len] := 0;
      len := len + 1;
      assert buf[..len] == b + [0];
      LowStep(b, 0);
    }
  }

  /** Digits as they should be printed: at least one, and no zero in front. */
  ghost predicate Canonical(ds: seq<digit>) {
    |ds| > 0 && (|ds| > 1 ==> ds[|ds| - 1] != 0)
  }

  function Figure(d: digit): char {
    (d + '0' as int) as char
  }

  /** The digits not copied yet, and the text of those that have been. */
  ghost predicate Copying(ds: seq<digit>, len: nat, s: seq<char>) {
    && len <= |ds| && |s| == |ds| - len
    && (forall k | 0 <= k < |s| :: s[k] == Figure(ds[|ds| - 1 - k]))
    && Read(s) * Pow(10, len) + Low(ds[..len]) == Low(ds)
  }

  lemma CopyingStep(ds: seq<digit>, len: nat, s: seq<char>)
    requires Copying(ds, len, s) && len > 0
    ensures Copying(ds, len - 1, s + [Figure(ds[len - 1])])
  {
    var d, t := ds[len - 1], s + [Figure(ds[len - 1])];
    assert t[..|t| - 1] == s;
    assert ds[..len][..len - 1] == ds[..len - 1];
    RegroupRead(Read(s), d, Pow(10, len - 1));
  }

  lemma RegroupRead(x: int, d: int, p: int)
    ensures x * (10 * p) + d * p == (10 * x + d) * p
  {
  }

  lemma CopiedOut(ds: seq<digit>, s: seq<char>)
    requires Copying(ds, 0, s)
    ensures Read(s) == Low(ds) && |s| == |ds|
    ensures Canonical(ds) ==> Prints(s, Low(ds))
  {
    assert ds[..0] == [];
  }

  /** Copies the digits to the output in reading order. */
  method CopyOut(output: array<char>, at: nat, buf: array<digit>, number: nat) returns (end: nat)
    requires number <= buf.Length && at + number <= output.Length
    modifies output
    ensures end == at + number && Read(output[at..end]) == Low(buf[..number])
    ensures Canonical(buf[..number]) ==> Prints(output[at..end], Low(buf[..number]))
    ensures output[..at] == old(output[..at]) && output[end..] == old(output[end..])
  {
    var len := number;
    end := at;
    ghost var ds := buf[..number];
    assert ds[..len] == ds && output[at..end] == [];
    while len > 0
      invariant 0 <= len <= number && end == at + number - len
      invariant Copying(ds, len, output[at..end])
      invariant output[..at] == old(output[..at]) && output[end..] == old(output[end..])
    {
      len := len - 1;
      ghost var s := output[at..end];
      CopyingStep(ds, len + 1, s);
      output[end] := Figure(buf[len]);
      end := end + 1;
      assert output[at..end] == s + [Figure(ds[len])];
      assert output[end..] == old(output[end..]);
    }
    CopiedOut(ds, output[at..end]);
  }

  /** The numeral of a number below 10^room has at most room digits. */
  lemma Fits(s: seq<digit>, v: nat, room: nat)
    requires Appended([], s, v) && v < Pow(10, room) && room > 0
    ensures |s| <= room && Canonical(s) && Low(s) == v
  {
    if |s| > room {
      PowMonotone(10, room, |s| - 1);
    }
  }

  lemma PowTwenty()
    ensures Pow(10, 19) == CHUNK && Pow(10, 18) == CHUNK / 10 && Pow(10, 20) == 10 * CHUNK
    ensures 0x1_0000_0000_0000_0000 <= Pow(10, 20)
  {
    PowAdd(10, 3, 3);
    PowAdd(10, 6, 6);
    PowAdd(10, 12, 6);
  }

  method Uint2Dec(output: array<char>, at: nat, val: nat, ghost room: nat) returns (end: nat)
    requires val < U64 && val < Pow(10, room) && 0 < room && at + room <= output.Length
    modifies output
    ensures at < end <= at + room && Prints(output[at..end], val)
    ensures output[..at] == old(output[..at]) && output[end..] == old(output[end..])
  {
    var buf := new digit[20];
    PowTwenty();
    var len := PutDigits(buf, 0, val, 20);
    assert buf[..0] == [];
    Fits(buf[..len], val, room);
    end := CopyOut(output, at, buf, len);
  }

  /** Digits with a numeral of at most room digits. */
  lemma CanonicalFits(ds: seq<digit>, room: nat)
    requires Canonical(ds) && Low(ds) < Pow(10, room) && room > 0
    ensures |ds| <= room
  {
    if room < |ds| {
      MulLe(1, ds[|ds| - 1], Pow(10, |ds| - 1));
      PowMonotone(10, room, |ds| - 1);
    }
  }

  lemma PowWide()
    ensures Pow(10, 38) == CHUNK * CHUNK && Pow(10, 57) == CHUNK * CHUNK * CHUNK
    ensures Pow(10, 76) == CHUNK * CHUNK * CHUNK * CHUNK
    ensures Pow(U64, 2) == U64 * U64 && Pow(U64, 4) == U64 * U64 * U64 * U64
  {
    PowTwenty();
    PowAdd(10, 19, 19);
    PowAdd(10, 38, 19);
    PowAdd(10, 38, 38);
    PowAdd(U64, 2, 2);
  }

  /** Appends the digits of a nonzero chunk at position digits, after zeros up to there; of a zero chunk, nothing. */
  method PutChunk(buf: array<digit>, start: nat, digits: nat, val: nat, ghost room: nat, ghost sum: nat)
    returns (len: nat)
    requires start <= digits && digits + room <= buf.Length && 0 < room && val < Pow(10, room)
    requires sum == Low(buf[..start]) + val * Pow(10, digits)
    modifies buf
    ensures start <= len <= digits + room && (val == 0 ==> len == start) && (val > 0 ==> digits < len)
    ensures Low(buf[..len]) == sum
    ensures val == 0 ==> buf[..len] == old(buf[..start])
    ensures val > 0 ==> Canonical(buf[..len])
  {
    len := start;
    if val != 0 {
      len := PadTo(buf, len, digits);
      len := PutDigits(buf, len, val, room);
    }
  }

  /** Three chunks of a 128-bit number, and the number that the lower two make. */
  lemma ThreeChunks(number: nat, q: nat, low: nat, middle: nat, high: nat) returns (sum: nat)
    requires number < Pow(U64, 2) && IsQuotRem(number, CHUNK, q, low) && IsQuotRem(q, CHUNK, high, middle)
    ensures sum == low + middle * Pow(10, 19)
    ensures high % U64 == high < Pow(10, 2) && number == sum + high * Pow(10, 38)
  {
    PowTwenty();
    PowWide();
    sum := low + middle * CHUNK;
  }

  lemma ChunkFits(r: nat)
    requires r < CHUNK
    ensures r % U64 == r < Pow(10, 19)
  {
    PowTwenty();
  }

  /** One chunk of a 128-bit number, and what is left of it. */
  method SplitChunk(n: nat) returns (q: nat, r: nat)
    requires n < Pow(U64, 2)
    ensures IsQuotRem(n, CHUNK, q, r) && r % U64 == r < Pow(10, 19) && q <= n
  {
    var pq := new Cell(n);
    var pr := new Cell(0);
    var divisor := new Cell(CHUNK);
    var rc := UDivMod128(pq, divisor, pr, pq);
    q, r := pq.v, pr.v;
    ChunkFits(r);
    QuotientSmaller(n, CHUNK, q, r);
  }

  /** Collects the digits of a 128-bit number, in chunks of 19. */
  method Collect128(buf: array<digit>, number: nat) returns (len: nat)
    requires number < Pow(U64, 2) && buf.Length == 40
    modifies buf
    ensures 0 < len <= 40 && Canonical(buf[..len]) && Low(buf[..len]) == number
  {
    var q, r := SplitChunk(number);
    ghost var low, rest := r, q;
    assert buf[..0] == [];
    len := PutDigits(buf, 0, r % U64, 19);
    Fits(buf[..len], low, 19);
    q, r := SplitChunk(q);
    ghost var sum := ThreeChunks(number, rest, low, r, q);
    var val := r % U64;
    len := PutChunk(buf, len, 19, val, 19, sum);
    val := q % U64;
    len := PutChunk(buf, len, 38, val, 2, number);
  }

  lemma QuotientSmaller(n: nat, d: nat, q: nat, r: nat)
    requires IsQuotRem(n, d, q, r)
    ensures q <= n
  {
    MulAtLeast(q, d);
  }

  method Uint128Dec(output: array<char>, at: nat, number: nat, ghost room: nat) returns (end: nat)
    requires number < Pow(U64, 2) && number < Pow(10, room) && 0 < room && at + room <= output.Length
    modifies output
    ensures at < end <= at + room && Prints(output[at..end], number)
    ensures output[..at] == old(output[..at]) && output[end..] == old(output[end..])
  {
    var buf := new digit[40];
    var len := Collect128(buf, number);
    CanonicalFits(buf[..len], room);
    end := CopyOut(output, at, buf, len);
  }

  // ---------------------------------------------------------------------------
  // 256 bits: the digits above the fourth chunk are not preceded by padding

  /** When the numeral of a 256-bit number comes out right. */
  predicate PrintedRight(v: nat) {
    v < Pow(10, 76) || v / Pow(10, 57) % CHUNK >= CHUNK / 10
  }

  /** A number whose numeral does not come out right. */
  lemma PrintedWrong()
    ensures Pow(10, 76) < Pow(U64, 4) && !PrintedRight(Pow(10, 76))
  {
    PowWide();
  }

  /** The state of the loop over chunks: digits positions are done, the last of them from chunk last, and q is left. */
  ghost predicate Chunks(v: nat, ds: seq<digit>, digits: nat, q: nat, last: nat) {
    && v == Low(ds) + q * Pow(10, digits)
    && (digits == 0 ==> ds == [] && q == v)
    && (digits > 0 ==>
         && digits >= 19 && digits - 19 < |ds| <= digits && (q == 0 ==> Canonical(ds))
         && (|ds| == digits <==> last >= CHUNK / 10)
         && v / Pow(10, digits - 19) % CHUNK == last)
  }

  lemma {:induction false} LowBound(ds: seq<digit>)
    ensures Low(ds) < Pow(10, |ds|)
  {
    if ds != [] {
      LowBound(ds[..|ds| - 1]);
      MulLe(ds[|ds| - 1], 9, Pow(10, |ds| - 1));
    }
  }

  /** How many digits a chunk has. */
  lemma ChunkLength(a: seq<digit>, b: seq<digit>, r: nat)
    requires Appended(a, b, r) && r < CHUNK
    ensures |b| <= |a| + 19 && (|b| == |a| + 19 <==> r >= CHUNK / 10)
  {
    PowTwenty();
    var n := |b| - |a|;
    if n > 19 {
      PowMonotone(10, 19, n - 1);
    } else if n < 19 {
      PowMonotone(10, n, 18);
    }
  }

  lemma MoveChunk(low: int, q: int, q': int, r: int, p: int)
    requires q == q' * CHUNK + r
    ensures low + q * p == (low + r * p) + q' * (p * CHUNK)
  {
    assert q * p == (q' * CHUNK) * p + r * p;
  }

  /** The quotient left is what a division at once gives. */
  lemma LeftOver(v: nat, ds: seq<digit>, digits: nat, q: nat)
    requires v == Low(ds) + q * Pow(10, digits) && |ds| <= digits
    ensures v / Pow(10, digits) == q
  {
    LowBound(ds);
    PowMonotone(10, |ds|, digits);
    DivUnique(v, Pow(10, digits), q, Low(ds));
  }

  lemma NextChunk(v: nat, ds: seq<digit>, ds': seq<digit>, b: seq<digit>, digits: nat, q: nat, last: nat, q': nat,
                  r: nat)
    requires Chunks(v, ds, digits, q, last) && (digits == 0 || q > 0)
    requires |ds'| == digits && Low(ds') == Low(ds) && Appended(ds', b, r) && IsQuotRem(q, CHUNK, q', r)
    ensures Chunks(v, b, digits + 19, q', r)
  {
    PowTwenty();
    PowAdd(10, digits, 19);
    MoveChunk(Low(ds), q, q', r, Pow(10, digits));
    ChunkLength(ds', b, r);
    LeftOver(v, ds', digits, q);
    DivUnique(q, CHUNK, q', r);
  }

  lemma Scale(q: nat, x: nat, p: nat)
    requires q > 0 && x <= p
    ensures q * p >= p && (x < p ==> q * x < q * p)
  {
    MulLe(1, q, p);
    if x < p {
      MulLe(x + 1, p, q);
    }
  }

  lemma ShorterIsLess(ds: seq<digit>, b: seq<digit>, q: nat, digits: nat)
    requires Appended(ds, b, q) && q > 0 && |ds| <= digits
    ensures Canonical(b) && Low(ds) + q * Pow(10, digits) >= Pow(10, digits)
    ensures if |ds| == digits then Low(b) == Low(ds) + q * Pow(10, digits) else Low(b) < Low(ds) + q * Pow(10, digits)
  {
    PowMonotone(10, |ds|, digits);
    if |ds| < digits {
      PowMonotone(10, |ds| + 1, digits);
    }
    Scale(q, Pow(10, |ds|), Pow(10, digits));
  }

  /** What the loop over chunks left; the digits of what is above it are then put right behind. */
  lemma TopDigits(v: nat, ds: seq<digit>, b: seq<digit>, q: nat, last: nat)
    requires Chunks(v, ds, 76, q, last) && Appended(ds, b, q) && q > 0
    ensures Canonical(b)
    ensures if PrintedRight(v) then Low(b) == v else Low(b) < v
  {
    ShorterIsLess(ds, b, q, 76);
  }

  /** One pass of the loop over chunks. */
  method PutNext(buf: array<digit>, start: nat, digits: nat, q: nat, ghost v: nat, ghost last: nat)
    returns (len: nat, q': nat, ghost r: nat)
    requires start <= digits <= 57 && buf.Length == 80 && q < Pow(U64, 4)
    requires Chunks(v, buf[..start], digits, q, last) && (digits == 0 || q > 0)
    modifies buf
    ensures digits < len <= digits + 19 && q' <= q && Chunks(v, buf[..len], digits + 19, q', r)
  {
    var pq := new Cell(q);
    var pr := new Cell(0);
    var divisor := new Cell(CHUNK);
    ghost var ds := buf[..start];
    var rc := UDivModWide(pq, divisor, pr, pq, 4);
    QuotientSmaller(q, CHUNK, pq.v, pr.v);
    ChunkFits(pr.v);
    r := pr.v;
    len := PadTo(buf, start, digits);
    ghost var ds' := buf[..len];
    len := PutDigits(buf, len, pr.v % U64, 19);
    q' := pq.v;
    NextChunk(v, ds, ds', buf[..len], digits, q, last, q', r);
  }

  lemma TopSmall(v: nat, low: nat, q: nat)
    requires v < Pow(U64, 4) && v == low + q * Pow(10, 76)
    ensures q < 100 && q % U64 == q
  {
    PowWide();
  }

  lemma NoTop(v: nat, ds: seq<digit>, digits: nat, last: nat)
    requires Chunks(v, ds, digits, 0, last) && 0 < digits <= 76
    ensures Canonical(ds) && Low(ds) == v && PrintedRight(v)
  {
    LowBound(ds);
    PowMonotone(10, |ds|, 76);
  }

  /** Collects the digits of a 256-bit number: four chunks, then what is above them. */
  method Collect256(buf: array<digit>, v: nat) returns (len: nat)
    requires v < Pow(U64, 4) && buf.Length == 80
    modifies buf
    ensures 0 < len <= 78 && Canonical(buf[..len])
    ensures if PrintedRight(v) then Low(buf[..len]) == v else Low(buf[..len]) < v
  {
    var q: nat, digits := v, 0;
    ghost var last := 0;
    len := 0;
    while digits < 76
      invariant digits in {0, 19, 38, 57, 76} && len <= digits && q <= v && (digits == 0 || q > 0)
      invariant Chunks(v, buf[..len], digits, q, last)
    {
      len, q, last := PutNext(buf, len, digits, q, v, last);
      if q == 0 {
        NoTop(v, buf[..len], digits + 19, last);
        break;
      }
      digits := digits + 19;
    }
    if q > 0 {
      TopSmall(v, Low(buf[..len]), q);
    }
    if q % U64 != 0 {
      ghost var ds := buf[..len];
      len := PutDigits(buf, len, q % U64, 2);
      TopDigits(v, ds, buf[..len], q, last);
    }
  }

  method Uint256Dec(output: array<char>, at: nat, v: nat, ghost room: nat) returns (end: nat)
    requires v < Pow(U64, 4) && v < Pow(10, room) && 0 < room && at + room <= output.Length
    modifies output
    ensures at < end <= at + room
    ensures if PrintedRight(v) then Prints(output[at..end], v) else Read(output[at..end]) < v
    ensures output[..at] == old(output[..at]) && output[end..] == old(output[end..])
  {
    var buf := new digit[80];
    var len := Collect256(buf, v);
    CanonicalFits(buf[..len], room);
    end := CopyOut(output, at, buf, len);
  }
}
