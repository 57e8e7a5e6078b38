/**
 Bytes, 32-bit words and their little-endian layout in a byte buffer.
 */
module Bytes {

  const WORD := 0x1_0000_0000
  const U64 := 0x1_0000_0000_0000_0000

  type byte = x: int | 0 <= x < 256
  type u32 = x: int | 0 <= x < 0x1_0000_0000
  type u64 = x: int | 0 <= x < 0x1_0000_0000_0000_0000

  function Min(a: nat, b: nat): nat {
    if b < a then b else a
  }

  function Zeros(n: nat): (s: seq<byte>)
    ensures |s| == n
  {
    seq(n, _ => 0)
  }

  /** Unsigned 32-bit addition and subtraction, with the wrap-around of C. */
  function Add32(x: int, y: int): (r: u32) {
    (x + y) % 0x1_0000_0000
  }

  function Sub32(x: int, y: int): (r: u32) {
    (x - y) % 0x1_0000_0000
  }

  /** ROUND_UP(n, 8) on a 32-bit operand. */
  function RoundUp32(n: u32): (r: u32) {
    Add32(n, 7) / 8 * 8
  }

  /** The mathematical rounding that RoundUp32 computes when nothing wraps. */
  function RoundUp(n: nat): (r: nat)
    ensures n <= r < n + 8 && r % 8 == 0
  {
    if n == 0 then 0 else if n <= 8 then 8 else 8 + RoundUp(n - 8)
  }

  lemma RoundUpExact(n: u32)
    ensures n + 7 < WORD ==> RoundUp32(n) == RoundUp(n)
    ensures n + 7 >= WORD ==> RoundUp32(n) == 0
  {
  }

  lemma NoWrap(x: int, y: int)
    requires 0 <= x + y < WORD
    ensures Add32(x, y) == x + y
  {
  }

  lemma NoBorrow(x: int, y: int)
    requires 0 <= x - y < WORD
    ensures Sub32(x, y) == x - y
  {
  }

  lemma WrapsOnce(x: int, y: int)
    requires WORD <= x + y < 2 * WORD
    ensures Add32(x, y) == x + y - WORD
  {
  }

  /** Between two aligned offsets, if size bytes fit then so does its rounding. */
  lemma RoundingFits(offset: nat, after: nat, size: nat, alloc: nat)
    requires offset % 8 == 0 && after % 8 == 0 && alloc % 8 == 0
    requires alloc < size + 8 && offset + size <= after
    ensures offset + alloc <= after
  {
  }

  lemma AlignedSum(a: nat, b: nat)
    requires a % 8 == 0 && b % 8 == 0
    ensures (a + b) % 8 == 0 && (a + 16 + b) % 8 == 0
  {
  }

  /** The number stored little-endian in the n bytes at offset o. */
  function LittleEndian(d: seq<byte>, o: nat, n: nat): (r: nat)
    requires o + n <= |d|
    decreases |d| - o
  {
    if n == 0 then 0 else d[o] as int + 0x100 * LittleEndian(d, o + 1, n - 1)
  }

  lemma LittleEndian4(d: seq<byte>, o: nat)
    requires o + 4 <= |d|
    ensures LittleEndian(d, o, 4) ==
      d[o] as int + 0x100 * d[o + 1] as int + 0x1_0000 * d[o + 2] as int + 0x100_0000 * d[o + 3] as int
  {
    assert LittleEndian(d, o + 3, 1) == d[o + 3] as int;
    assert LittleEndian(d, o + 2, 2) == d[o + 2] as int + 0x100 * d[o + 3] as int;
  }

  lemma {:induction false} LittleEndianFrame(d: seq<byte>, d': seq<byte>, o: nat, n: nat)
    requires o + n <= |d| && Agree(d, d', o, o + n)
    ensures LittleEndian(d, o, n) == LittleEndian(d', o, n)
    decreases n
  {
    if n > 0 {
      LittleEndianFrame(d, d', o + 1, n - 1);
    }
  }

  /** The 32-bit word stored little-endian at offset o. */
  function Get32(d: seq<byte>, o: nat): (w: u32)
    requires o + 4 <= |d|
  {
    LittleEndian4(d, o);
    LittleEndian(d, o, 4)
  }

  lemma Get32Frame(d: seq<byte>, d': seq<byte>, o: nat)
    requires o + 4 <= |d| && Agree(d, d', o, o + 4)
    ensures Get32(d, o) == Get32(d', o)
  {
    LittleEndianFrame(d, d', o, 4);
  }

  /** Byte k of a little-endian 32-bit word. */
  function ByteOf(w: u32, k: nat): (b: byte)
    requires k < 4
  {
    if k == 0 then w % 0x100
    else if k == 1 then w / 0x100 % 0x100
    else if k == 2 then w / 0x1_0000 % 0x100
    else w / 0x100_0000
  }

  lemma WordOfBytes(w: u32)
    ensures w == ByteOf(w, 0) + 0x100 * ByteOf(w, 1) as int + 0x1_0000 * ByteOf(w, 2) as int
                 + 0x100_0000 * ByteOf(w, 3) as int
  {
  }

  /** Two buffers of one length that agree on [lo, hi). */
  ghost predicate Agree(d: seq<byte>, d': seq<byte>, lo: nat, hi: nat) {
    |d| == |d'| && forall k | lo <= k < hi && k < |d| :: d[k] == d'[k]
  }

  /** Stores a word little-endian, as a 32-bit field assignment does. */
  method Put32(d: array<byte>, o: nat, w: u32)
    requires o + 4 <= d.Length
    modifies d
    ensures Get32(d[..], o) == w
    ensures forall k | 0 <= k < d.Length && !(o <= k < o + 4) :: d[k] == old(d[k])
  {
    d[o] := ByteOf(w, 0);
    d[o + 1] := ByteOf(w, 1);
    d[o + 2] := ByteOf(w, 2);
    d[o + 3] := ByteOf(w, 3);
    WordOfBytes(w);
    LittleEndian4(d[..], o);
  }

  /** d with the len bytes at src copied over those at dst. */
  function Copied(d: seq<byte>, dst: nat, src: nat, len: nat): (r: seq<byte>)
    requires dst + len <= |d| && src + len <= |d|
    ensures |r| == |d|
  {
    d[..dst] + d[src .. src + len] + d[dst + len..]
  }

  lemma CopyStep(d: seq<byte>, dst: nat, src: nat, k: nat)
    requires dst + k < |d| && src + k < |d|
    requires dst + k < src || src + k < dst
    ensures Copied(d, dst, src, k)[src + k] == d[src + k]
    ensures Copied(d, dst, src, k)[dst + k := d[src + k]] == Copied(d, dst, src, k + 1)
  {
  }

  /** The byte-by-byte __memcpy between two ranges that do not overlap. */
  method MemCpy(d: array<byte>, dst: nat, src: nat, len: nat)
    requires dst + len <= d.Length && src + len <= d.Length
    requires dst + len <= src || src + len <= dst
    modifies d
    ensures d[..] == Copied(old(d[..]), dst, src, len)
  {
    var k := 0;
    while k < len
      invariant 0 <= k <= len
      invariant d[..] == Copied(old(d[..]), dst, src, k)
    {
      ghost var d1 := d[..];
      CopyStep(old(d[..]), dst, src, k);
      assert d[src + k] == d1[src + k];
      d[dst + k] := d[src + k];
      assert d[..] == d1[dst + k := d1[src + k]];
      k := k + 1;
    }
  }

  method MemSet(d: array<byte>, dst: nat, len: nat, b: byte)
    requires dst + len <= d.Length
    modifies d
    ensures d[..] == old(d[..dst]) + seq(len, _ => b) + old(d[dst + len..])
  {
    var k := 0;
    while k < len
      invariant 0 <= k <= len
      invariant forall x | 0 <= x < d.Length :: d[x] == if dst <= x < dst + k then b else old(d[x])
    {
      d[dst + k] := b;
      k := k + 1;
    }
  }

  /** d' is d with the n bytes at src copied over those at dst. */
  ghost predicate IsCopied(d: seq<byte>, d': seq<byte>, dst: nat, src: nat, n: nat) {
    && |d'| == |d| && src + n <= |d|
    && forall x | 0 <= x < |d| :: d'[x] == d[if dst <= x < dst + n then src + x - dst else x]
  }

  lemma CopyWord(d: seq<byte>, c: seq<byte>, d': seq<byte>, dst: nat, src: nat, k: nat, to: nat, from: nat, k': nat)
    requires IsCopied(d, c, dst, src, k) && IsCopied(c, d', to, from, 8)
    requires to == dst + k && from == src + k && k' == k + 8 && (to + 8 <= src || from + 8 <= dst)
    ensures IsCopied(d, d', dst, src, k')
  {
  }

  /** Of n bytes to copy the first at are done; if the two ranges are apart, what was copied is as it was. */
  ghost predicate InCopy(d: seq<byte>, d': seq<byte>, dst: nat, src: nat, n: nat, at: nat) {
    && |d'| == |d| && (at == 0 ==> d' == d)
    && (at > 0 && (dst + n <= src || src + n <= dst) ==> IsCopied(d, d', dst, src, at))
    && Agree(d, d', 0, dst) && Agree(d, d', dst + n, |d|)
  }

  lemma InCopyMore(d: seq<byte>, c: seq<byte>, d': seq<byte>, dst: nat, src: nat, n: nat, at: nat, to: nat, from: nat)
    requires InCopy(d, c, dst, src, n, at) && IsCopied(c, d', to, from, 8)
    requires to == dst + at && from == src + at && at + 8 <= n
    ensures InCopy(d, d', dst, src, n, at + 8)
  {
    if dst + n <= src || src + n <= dst {
      CopyWord(d, c, d', dst, src, at, to, from, at + 8);
    }
  }

  method CopyOneWord(d: array<byte>, to: nat, from: nat)
    requires to + 8 <= d.Length && from + 8 <= d.Length
    modifies d
    ensures IsCopied(old(d[..]), d[..], to, from, 8)
  {
    forall b | 0 <= b < 8 {
      d[to + b] := d[from + b];
    }
  }

  /** How often a loop that decrements a 32-bit count after each pass runs: a count of 0 wraps. */
  function Passes(count: u32): (n: nat)
    ensures 0 < n <= WORD && n % WORD == count
  {
    if count == 0 then WORD else count
  }

  lemma PassDone(count: u32, done: nat)
    requires done < Passes(count)
    ensures Sub32(Sub32(count, done), 1) == Sub32(count, done + 1)
    ensures Sub32(count, done + 1) == 0 <==> done + 1 == Passes(count)
  {
  }

  /**
   The __memcpy8 loop: 64-bit words, with the count tested only after each word.  It stops short at
   the first word that is not in memory.
   */
  method MemCpy8(d: array<byte>, dst: nat, src: nat, length: u32) returns (fault: bool)
    modifies d
    ensures fault <==> d.Length < dst + 8 * Passes(length) || d.Length < src + 8 * Passes(length)
    ensures !fault && (dst + 8 * Passes(length) <= src || src + 8 * Passes(length) <= dst) ==>
      IsCopied(old(d[..]), d[..], dst, src, 8 * Passes(length))
    ensures Agree(old(d[..]), d[..], 0, dst) && Agree(old(d[..]), d[..], dst + 8 * Passes(length), d.Length)
  {
    var left, at := length, 0;
    ghost var d0, done, n := d[..], 0, 8 * Passes(length);
    while true
      invariant done < Passes(length) && left == Sub32(length, done) && at == 8 * done
      invariant at > 0 ==> dst + at <= d.Length && src + at <= d.Length
      invariant InCopy(d0, d[..], dst, src, n, at)
      decreases Passes(length) - done
    {
      if d.Length < dst + at + 8 || d.Length < src + at + 8 {
        return true;
      }
      ghost var c := d[..];
      CopyOneWord(d, dst + at, src + at);
      InCopyMore(d0, c, d[..], dst, src, n, at, dst + at, src + at);
      PassDone(length, done);
      left, at, done := Sub32(left, 1), at + 8, done + 1;
      if left == 0 {
        break;
      }
    }
    fault := false;
  }
}
