/**
 In-place conversion of big-endian bytes to base-58 digits, as used to print Solana addresses.
 */
module Base58 {
  import opened Bytes
  import opened Limbs

  const ALPHABET := "123456789" + "ABCDEFGH" + "JKLMN" + "PQRSTUVWXYZ" + "abcdefghijk" + "mnopqrstuvwxyz"

  /** The number big-endian bytes stand for. */
  ghost function Number(data: seq<byte>): nat {
    if data == [] then 0 else 256 * Number(data[..|data| - 1]) + data[|data| - 1]
  }

  /** The number that the digits from position k on stand for in base 58. */
  ghost function Tail(out: seq<byte>, k: nat): nat
    requires k <= |out|
    decreases |out| - k
  {
    if k == |out| then 0 else out[k] * Pow(58, |out| - 1 - k) + Tail(out, k + 1)
  }

  ghost predicate Digits(out: seq<byte>) {
    forall k | 0 <= k < |out| :: out[k] < 58
  }

  lemma {:induction false} TailBound(out: seq<byte>, k: nat)
    requires k <= |out| && Digits(out)
    ensures Tail(out, k) < Pow(58, |out| - k)
    decreases |out| - k
  {
    if k < |out| {
      TailBound(out, k + 1);
      MulLe(out[k], 57, Pow(58, |out| - 1 - k));
    }
  }

  lemma {:induction false} TailFrame(out: seq<byte>, out': seq<byte>, k: nat)
    requires k <= |out| == |out'| && forall m | k <= m < |out| :: out[m] == out'[m]
    ensures Tail(out, k) == Tail(out', k)
    decreases |out| - k
  {
    if k < |out| {
      TailFrame(out, out', k + 1);
    }
  }

  /** Zero digits in front add nothing. */
  lemma {:induction false} LeadingZeros(out: seq<byte>, k: nat)
    requires k <= |out| && forall m | 0 <= m < k :: out[m] == 0
    ensures Tail(out, 0) == Tail(out, k)
    decreases k
  {
    if k > 0 {
      LeadingZeros(out, k - 1);
    }
  }

  /** In the middle of taking in a byte: positions from k on are done, the rest is still as in d. */
  ghost predicate Carrying(d: seq<byte>, out: seq<byte>, k: nat, b: nat, carry: nat) {
    && |out| == |d| && k <= |d| && carry < 256 && Digits(out)
    && (forall m | 0 <= m < k :: out[m] == d[m])
    && Tail(out, k) + carry * Pow(58, |d| - k) == 256 * Tail(d, k) + b
  }

  lemma CarryStep(d: seq<byte>, out: seq<byte>, j: nat, b: nat, carry: nat)
    requires Carrying(d, out, j + 1, b, carry)
    ensures var c := carry + 256 * out[j] as int; Carrying(d, out[j := c % 58], j, b, c / 58)
  {
    var c := carry + 256 * out[j] as int;
    var out' := out[j := c % 58];
    TailFrame(out, out', j + 1);
    MoveDigit(Tail(out, j + 1), carry, d[j], c, Pow(58, |d| - 1 - j), Tail(d, j + 1), b);
  }

  lemma MoveDigit(t: int, carry: int, x: int, c: int, p: int, u: int, b: int)
    requires t + carry * p == 256 * u + b && c == carry + 256 * x
    ensures (c % 58) * p + t + (c / 58) * (58 * p) == 256 * (x * p + u) + b
  {
    assert c == c / 58 * 58 + c % 58;
    assert c * p == (c / 58) * (58 * p) + (c % 58) * p;
    assert c * p == carry * p + 256 * (x * p);
  }

  /** A byte has been taken in, with nothing left to carry and only zeros in front. */
  lemma TakenIn(d: seq<byte>, out: seq<byte>, k: nat, b: nat)
    requires Carrying(d, out, k, b, 0) && forall m | 0 <= m < k :: d[m] == 0
    ensures Tail(out, 0) == 256 * Tail(d, 0) + b
  {
    LeadingZeros(d, k);
    LeadingZeros(out, k);
  }

  /** At the first position nothing can be left to carry, because the number fits. */
  lemma NoCarryOut(d: seq<byte>, out: seq<byte>, b: nat, carry: nat)
    requires Carrying(d, out, 0, b, carry) && 256 * Tail(d, 0) + b < Pow(58, |d|)
    ensures carry == 0
  {
    if carry > 0 {
      MulLe(1, carry, Pow(58, |d|));
    }
  }

  /**
   Between bytes: all digits up to the mark are zero.  Only when the mark is at the first position may
   the digit there be set, and then no further byte fits.
   */
  ghost predicate Marked(out: seq<byte>, high: nat) {
    high < |out| && ((forall m | 0 <= m <= high :: out[m] == 0) || (high == 0 && out[0] > 0))
  }

  /** As another byte fits, all digits up to the mark are zero. */
  lemma ZeroToMark(out: seq<byte>, high: nat, b: nat)
    requires Marked(out, high) && 256 * Tail(out, 0) + b < Pow(58, |out|)
    ensures forall m | 0 <= m <= high :: out[m] == 0
  {
    if out[0] > 0 {
      MulLe(1, out[0], Pow(58, |out| - 1));
    }
  }

  lemma Stopped(d: seq<byte>, out: seq<byte>, j: nat, high: nat, b: nat)
    requires j <= high < |d| && Carrying(d, out, j + 1, b, 0) && forall m | 0 <= m <= high :: d[m] == 0
    ensures Marked(out, j) && Tail(out, 0) == 256 * Tail(d, 0) + b
  {
    TakenIn(d, out, j + 1, b);
  }

  lemma StoppedAtFirst(d: seq<byte>, out: seq<byte>, b: nat, carry: nat)
    requires Carrying(d, out, 0, b, carry) && 256 * Tail(d, 0) + b < Pow(58, |d|) && |d| > 0
    ensures Marked(out, 0) && Tail(out, 0) == 256 * Tail(d, 0) + b
  {
    NoCarryOut(d, out, b, carry);
    TakenIn(d, out, 0, b);
  }

  /** The inner loop: multiplies the digits by 256 and adds b, touching no more positions than it must. */
  method TakeByte(output: array<byte>, b: byte, high: u32) returns (j: u32)
    requires Marked(output[..], high) && Digits(output[..]) && output.Length < WORD
    requires 256 * Tail(output[..], 0) + b < Pow(58, output.Length)
    modifies output
    ensures Marked(output[..], j) && Digits(output[..])
    ensures Tail(output[..], 0) == 256 * old(Tail(output[..], 0)) + b
  {
    ghost var d := output[..];
    ZeroToMark(d, high, b);
    var carry: u32 := b;
    j := output.Length - 1;
    while j > high || carry > 0
      invariant j < output.Length && Carrying(d, output[..], j + 1, b, carry)
      decreases j
    {
      ghost var o := output[..];
      CarryStep(d, o, j, b, carry);
      carry := carry + 256 * output[j] as int;
      output[j] := carry % 58;
      assert output[..] == o[j := output[j]];
      carry := carry / 58;
      if j == 0 {
        StoppedAtFirst(d, output[..], b, carry);
        return;
      }
      j := j - 1;
    }
    Stopped(d, output[..], j, high, b);
  }

  lemma {:induction false} PrefixSmaller(data: seq<byte>, i: nat)
    requires i < |data|
    ensures 256 * Number(data[..i]) + data[i] <= Number(data)
    ensures Number(data[..i + 1]) == 256 * Number(data[..i]) + data[i]
    decreases |data| - i
  {
    assert data[..i + 1][..i] == data[..i];
    if i + 1 < |data| {
      PrefixSmaller(data, i + 1);
    } else {
      assert data[..i + 1] == data;
    }
  }

  lemma {:induction false} ZeroBytes(data: seq<byte>)
    requires forall k | 0 <= k < |data| :: data[k] == 0
    ensures Number(data) == 0
  {
    if data != [] {
      ZeroBytes(data[..|data| - 1]);
    }
  }

  /** The conversion, before digits become letters. */
  method Convert(data: seq<byte>, output: array<byte>)
    requires output.Length < WORD && (forall k | 0 <= k < output.Length :: output[k] == 0)
    requires Number(data) < Pow(58, output.Length)
    modifies output
    ensures Digits(output[..]) && Tail(output[..], 0) == Number(data)
  {
    var i := 0;
    while i < |data| && data[i] == 0
      invariant 0 <= i <= |data| && forall k | 0 <= k < i :: data[k] == 0
    {
      i := i + 1;
    }
    LeadingZeros(output[..], output.Length);
    ZeroBytes(data[..i]);
    if i < |data| {
      PrefixSmaller(data, i);
      assert output.Length > 0;
    }
    var high := Sub32(output.Length, 1);
    while i < |data|
      invariant 0 <= i <= |data| && Digits(output[..]) && Tail(output[..], 0) == Number(data[..i])
      invariant i < |data| ==> Marked(output[..], high)
    {
      PrefixSmaller(data, i);
      high := TakeByte(output, data[i], high);
      i := i + 1;
    }
    assert data[..i] == data;
  }

  /** The digit a letter stands for. */
  ghost function DigitOf(c: byte): (d: byte)
    ensures d < 58
  {
    if '1' as int <= c <= '9' as int then c - '1' as int
    else if 'A' as int <= c <= 'H' as int then c - 'A' as int + 9
    else if 'J' as int <= c <= 'N' as int then c - 'J' as int + 17
    else if 'P' as int <= c <= 'Z' as int then c - 'P' as int + 22
    else if 'a' as int <= c <= 'k' as int then c - 'a' as int + 33
    else if 'm' as int <= c <= 'z' as int then c - 'm' as int + 44
    else 0
  }

  /** The text is a run of characters with successive codes. */
  ghost predicate Run(s: string, c: char) {
    forall k | 0 <= k < |s| :: s[k] as int == c as int + k
  }

  lemma Runs()
    ensures Run("123456789", '1') && Run("ABCDEFGH", 'A') && Run("JKLMN", 'J')
    ensures Run("PQRSTUVWXYZ", 'P') && Run("abcdefghijk", 'a') && Run("mnopqrstuvwxyz", 'm')
  {
  }

  /** Each letter reads back as its digit, so no two digits share one. */
  lemma LettersRead(d: nat)
    requires d < 58
    ensures ALPHABET[d] as int < 256 && DigitOf(ALPHABET[d] as int) == d
  {
    Runs();
  }

  ghost function Decoded(text: seq<byte>): (ds: seq<byte>)
    ensures |ds| == |text|
  {
    seq(|text|, k requires 0 <= k < |text| => DigitOf(text[k]))
  }

  ghost predicate IsLetter(c: byte) {
    c as int == ALPHABET[DigitOf(c)] as int
  }

  /** The text spells the digits. */
  ghost predicate Spelled(text: seq<byte>, ds: seq<byte>) {
    |text| == |ds| && Digits(ds) && forall k | 0 <= k < |ds| :: Spells(text[k], ds[k])
  }

  ghost predicate Spells(c: byte, d: byte) {
    d < 58 && c == ALPHABET[d] as int
  }

  lemma SpelledReads(text: seq<byte>, ds: seq<byte>)
    requires Spelled(text, ds)
    ensures Decoded(text) == ds && forall k | 0 <= k < |text| :: IsLetter(text[k])
  {
    forall k | 0 <= k < |text|
      ensures DigitOf(text[k]) == ds[k] && IsLetter(text[k])
    {
      assert Spells(text[k], ds[k]);
      LettersRead(ds[k]);
    }
  }

  /** Replaces every digit by its letter. */
  method Spell(output: array<byte>)
    requires Digits(output[..])
    modifies output
    ensures Spelled(output[..], old(output[..]))
  {
    ghost var ds := output[..];
    var j := 0;
    while j < output.Length
      invariant 0 <= j <= output.Length
      invariant forall k | 0 <= k < j :: Spells(output[k], ds[k])
      invariant forall k | j <= k < output.Length :: output[k] == ds[k]
    {
      LettersRead(ds[j]);
      output[j] := ALPHABET[output[j]] as int;
      j := j + 1;
    }
  }

  /** The text reads back as the number. */
  method EncodeAddress(data: seq<byte>, output: array<byte>)
    requires output.Length < WORD && (forall k | 0 <= k < output.Length :: output[k] == 0)
    requires Number(data) < Pow(58, output.Length)
    modifies output
    ensures forall k | 0 <= k < output.Length :: IsLetter(output[k])
    ensures Tail(Decoded(output[..]), 0) == Number(data)
  {
    Convert(data, output);
    ghost var ds := output[..];
    Spell(output);
    SpelledReads(output[..], ds);
  }

  lemma {:induction false} NumberBound(data: seq<byte>)
    ensures Number(data) < Pow(256, |data|)
  {
    if data != [] {
      NumberBound(data[..|data| - 1]);
    }
  }

  /** The length the compiler reserves for the text of an address. */
  function TextLength(length: nat): nat {
    length * 138 / 100
  }

  /** It is long enough for the 32 bytes of a Solana address. */
  lemma AddressFits(data: seq<byte>)
    requires |data| == 32
    ensures Number(data) < Pow(58, TextLength(|data|))
  {
    NumberBound(data);
    Squares(8, 11);
    assert TextLength(|data|) == 44;
  }

  /** Twice squared. */
  lemma Squares(m: nat, n: nat)
    requires m == 8 && n == 11
    ensures Pow(256, 4 * m) <= Pow(58, 4 * n)
  {
    EightBytes();
    Squared(256, m, 58, n);
    Squared(256, 2 * m, 58, 2 * n);
  }

  lemma EightBytes()
    ensures Pow(256, 8) <= Pow(58, 11)
  {
    PowAdd(256, 4, 4);
    PowAdd(58, 4, 4);
    PowAdd(58, 8, 3);
  }

  lemma Squared(a: nat, m: nat, b: nat, n: nat)
    requires Pow(a, m) <= Pow(b, n)
    ensures Pow(a, m + m) <= Pow(b, n + n)
  {
    PowAdd(a, m, m);
    PowAdd(b, n, n);
    MulLe(Pow(a, m), Pow(b, n), Pow(a, m));
    MulLe(Pow(a, m), Pow(b, n), Pow(b, n));
  }
}
