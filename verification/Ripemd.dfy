/**
 The buffering and padding of RIPEMD-160, for any compression function.
 */
module Ripemd {
  import opened Bytes

  const BLOCK := 64

  /** The five chaining words. */
  datatype Chain = Chain(a: u32, b: u32, c: u32, d: u32, e: u32)

  const INITIAL := Chain(0x67452301, 0xEFCDAB89, 0x98BADCFE, 0x10325476, 0xC3D2E1F0)

  type Compression = (Chain, seq<byte>) -> Chain

  /** The chaining words after compressing the whole blocks of m one by one. */
  ghost function Fold(f: Compression, h: Chain, m: seq<byte>): Chain {
    if |m| < BLOCK then h else f(Fold(f, h, m[..|m| - BLOCK]), m[|m| - BLOCK..])
  }

  /** A word as four bytes, least significant first. */
  function Word(w: u32): (s: seq<byte>)
    ensures |s| == 4 && Get32(s, 0) == w
  {
    var s := [ByteOf(w, 0), ByteOf(w, 1), ByteOf(w, 2), ByteOf(w, 3)];
    WordOfBytes(w);
    LittleEndian4(s, 0);
    s
  }

  function ChainBytes(h: Chain): (s: seq<byte>)
    ensures |s| == 20
  {
    Word(h.a) + Word(h.b) + Word(h.c) + Word(h.d) + Word(h.e)
  }

  /** The chaining words as the bytes of out, a first and each least significant byte first. */
  ghost predicate Written(out: seq<byte>, h: Chain) {
    && |out| == 20 && Get32(out, 0) == h.a && Get32(out, 4) == h.b && Get32(out, 8) == h.c
    && Get32(out, 12) == h.d && Get32(out, 16) == h.e
  }

  lemma ChainWritten(h: Chain)
    ensures Written(ChainBytes(h), h)
  {
    var s := ChainBytes(h);
    WordAt(s, 0, h.a);
    WordAt(s, 4, h.b);
    WordAt(s, 8, h.c);
    WordAt(s, 12, h.d);
    WordAt(s, 16, h.e);
  }

  lemma WordAt(s: seq<byte>, o: nat, w: u32)
    requires o + 4 <= |s| && s[o .. o + 4] == Word(w)
    ensures Get32(s, o) == w
  {
    LittleEndian4(s, o);
    LittleEndian4(Word(w), 0);
    forall k | 0 <= k < 4
      ensures s[o + k] == Word(w)[k]
    {
      assert s[o .. o + 4][k] == s[o + k];
    }
  }

  /** The initial words are the bytes of section 3.3 of RFC 1320, counting up and down, and one word more. */
  lemma InitialBytes()
    ensures ChainBytes(INITIAL) == [
      0x01, 0x23, 0x45, 0x67, 0x89, 0xAB, 0xCD, 0xEF, 0xFE, 0xDC, 0xBA, 0x98, 0x76, 0x54, 0x32, 0x10,
      0xF0, 0xE1, 0xD2, 0xC3]
  {
    WordBytes(0x67452301, 0x01, 0x23, 0x45, 0x67);
    WordBytes(0xEFCDAB89, 0x89, 0xAB, 0xCD, 0xEF);
    WordBytes(0x98BADCFE, 0xFE, 0xDC, 0xBA, 0x98);
    WordBytes(0x10325476, 0x76, 0x54, 0x32, 0x10);
    WordBytes(0xC3D2E1F0, 0xF0, 0xE1, 0xD2, 0xC3);
  }

  lemma WordBytes(w: u32, a: byte, b: byte, c: byte, d: byte)
    requires w == a + 0x100 * b as int + 0x1_0000 * c as int + 0x100_0000 * d as int
    ensures Word(w) == [a, b, c, d]
  {
    var s := Word(w);
    LittleEndian4(s, 0);
    SameDigits(s[0], s[1], s[2], s[3], a, b, c, d);
  }

  /** With j zero bytes, n message bytes, the byte 0x80 and the length make up whole blocks. */
  ghost predicate Fills(n: nat, j: nat) {
    (n + 1 + j + 8) % BLOCK == 0
  }

  /** Section 3.1 of RFC 1320 counts zero bits until 64 bits short of a block; so many bytes of them come after 0x80. */
  ghost function Gap(n: nat): (k: nat)
    ensures k < BLOCK && Fills(n, k) && forall j: nat | j < k :: !Fills(n, j)
  {
    (55 - n) % 64
  }

  /** The bit length of the message, kept modulo 2^64. */
  function BitLength(n: nat): (l: nat)
    ensures l < U64
  {
    8 * n % U64
  }

  ghost function LengthField(n: nat): (s: seq<byte>)
    ensures |s| == 8 && LittleEndian(s, 0, 8) == BitLength(n)
  {
    var l := BitLength(n);
    var s := Word(l % WORD) + Word(l / WORD);
    FieldValue(l % WORD, l / WORD);
    s
  }

  lemma FieldValue(lo: u32, hi: u32)
    ensures LittleEndian(Word(lo) + Word(hi), 0, 8) == lo + WORD * hi
  {
    var s := Word(lo) + Word(hi);
    LittleEndian4(Word(lo), 0);
    LittleEndian4(Word(hi), 0);
    LittleEndian4(s, 4);
    assert LittleEndian(s, 3, 5) == s[3] as int + 0x100 * LittleEndian(s, 4, 4);
    assert LittleEndian(s, 2, 6) == s[2] as int + 0x100 * LittleEndian(s, 3, 5);
    assert LittleEndian(s, 1, 7) == s[1] as int + 0x100 * LittleEndian(s, 2, 6);
    assert LittleEndian(s, 0, 8) == s[0] as int + 0x100 * LittleEndian(s, 1, 7);
  }

  /** The padded message of sections 3.1 and 3.2 of RFC 1320. */
  ghost function Padded(m: seq<byte>): (s: seq<byte>)
    ensures |s| % BLOCK == 0 && |m| + 9 <= |s| < |m| + 9 + BLOCK
  {
    m + [0x80] + Zeros(Gap(|m|)) + LengthField(|m|)
  }

  /** The message, the byte 0x80, as few zeros as fill whole blocks, and the length in bits, of 64 bits. */
  ghost predicate IsPadded(m: seq<byte>, s: seq<byte>) {
    && |s| % 64 == 0 && |m| + 9 <= |s| < |m| + 9 + 64
    && s[..|m|] == m && s[|m|] == 0x80
    && (forall k | |m| < k < |s| - 8 :: s[k] == 0)
    && LittleEndian(s, |s| - 8, 8) == 8 * |m| % 0x1_0000_0000_0000_0000
  }

  lemma PaddedForm(m: seq<byte>)
    ensures IsPadded(m, Padded(m))
  {
    var s, l := Padded(m), LengthField(|m|);
    assert s[|s| - 8..] == l;
    LittleEndianMoved(s, |s| - 8, l, 0, 8);
  }

  lemma {:induction false} LittleEndianMoved(s: seq<byte>, o: nat, s': seq<byte>, o': nat, n: nat)
    requires o + n <= |s| && o' + n <= |s'| && s[o .. o + n] == s'[o' .. o' + n]
    ensures LittleEndian(s, o, n) == LittleEndian(s', o', n)
    decreases n
  {
    if n > 0 {
      assert s[o .. o + n][0] == s[o] && s'[o' .. o' + n][0] == s'[o'];
      assert s[o .. o + n][1..] == s[o + 1 .. o + n] && s'[o' .. o' + n][1..] == s'[o' + 1 .. o' + n];
      LittleEndianMoved(s, o + 1, s', o' + 1, n - 1);
    }
  }

  /** There is one padded form only. */
  lemma PaddedUnique(m: seq<byte>, s: seq<byte>)
    requires IsPadded(m, s)
    ensures s == Padded(m)
  {
    var p, n := Padded(m), |s| - 8;
    PaddedForm(m);
    SameSize(|m| + 9, |s|, |p|);
    LittleEndianSame(s, p, n, 8);
    forall k | 0 <= k < n
      ensures s[k] == p[k]
    {
      if k < |m| {
        assert s[k] == s[..|m|][k] == p[..|m|][k];
      }
    }
    assert s == s[..n] + s[n..] && p == p[..n] + p[n..] && s[..n] == p[..n];
  }

  lemma SameSize(n: nat, a: nat, b: nat)
    requires a % 64 == 0 && b % 64 == 0 && n <= a < n + 64 && n <= b < n + 64
    ensures a == b
  {
  }

  lemma {:induction false} LittleEndianSame(s: seq<byte>, s': seq<byte>, o: nat, n: nat)
    requires o + n == |s| == |s'| && LittleEndian(s, o, n) == LittleEndian(s', o, n)
    ensures s[o..] == s'[o..]
    decreases n
  {
    if n > 0 {
      OneDigit(s[o], LittleEndian(s, o + 1, n - 1), s'[o], LittleEndian(s', o + 1, n - 1));
      LittleEndianSame(s, s', o + 1, n - 1);
      assert s[o..] == [s[o]] + s[o + 1..] && s'[o..] == [s'[o]] + s'[o + 1..];
    }
  }

  /** The words that out holds are the fold over the padded message, from the initial words. */
  ghost predicate Digested(f: Compression, m: seq<byte>, out: seq<byte>) {
    forall s | IsPadded(m, s) :: Written(out, Fold(f, INITIAL, s))
  }

  lemma DigestMeaning(f: Compression, m: seq<byte>)
    ensures Digested(f, m, Digest(f, m)) && IsPadded(m, Padded(m))
  {
    PaddedForm(m);
    ChainWritten(Fold(f, INITIAL, Padded(m)));
    forall s | IsPadded(m, s)
      ensures Written(Digest(f, m), Fold(f, INITIAL, s))
    {
      PaddedUnique(m, s);
    }
  }

  ghost function Digest(f: Compression, m: seq<byte>): (s: seq<byte>)
    ensures |s| == 20
  {
    ChainBytes(Fold(f, INITIAL, Padded(m)))
  }

  /** The padding loses nothing: different messages have different padded forms, whatever their lengths. */
  lemma PaddedInjective(m: seq<byte>, m': seq<byte>)
    requires Padded(m) == Padded(m')
    ensures m == m'
  {
    var s := Padded(m);
    assert s[|s| - 8..] == LengthField(|m|) && s[|s| - 8..] == LengthField(|m'|);
    SameLength(|m|, |m'|);
    assert m == s[..|m|] && m' == s[..|m'|];
  }

  lemma SameLength(n: nat, n': nat)
    requires 8 * n % U64 == 8 * n' % U64 && n - 64 < n' < n + 64
    ensures n == n'
  {
  }

  /** Compressing a block after whole blocks is compressing their concatenation. */
  lemma FoldBlock(f: Compression, h: Chain, m: seq<byte>, b: seq<byte>)
    requires |b| == BLOCK
    ensures Fold(f, h, m + b) == f(Fold(f, h, m), b)
  {
    var s := m + b;
    assert s[..|s| - BLOCK] == m && s[|s| - BLOCK..] == b;
  }

  /** The buffer of 64 bytes holds the bytes of rest and is zero past them. */
  ghost predicate Holds(buf: seq<byte>, rest: seq<byte>) {
    |buf| == BLOCK && |rest| <= BLOCK && buf == rest + Zeros(BLOCK - |rest|)
  }

  /** The bytes of m that do not make up a whole block yet. */
  ghost function Rest(m: seq<byte>): seq<byte> {
    m[|m| - |m| % BLOCK..]
  }

  ghost function Whole(m: seq<byte>): seq<byte> {
    m[..|m| - |m| % BLOCK]
  }

  /** Bytes that do not fill the block only make the rest longer. */
  lemma AppendShort(m: seq<byte>, p: seq<byte>)
    requires |Rest(m)| + |p| < BLOCK
    ensures Rest(m + p) == Rest(m) + p && Whole(m + p) == Whole(m)
  {
    ShortMod(|m|, |p|);
  }

  lemma ShortMod(n: nat, k: nat)
    requires n % BLOCK + k < BLOCK
    ensures (n + k) % BLOCK == n % BLOCK + k
  {
  }

  /** Bytes that fill the block exactly complete it. */
  lemma AppendFull(m: seq<byte>, p: seq<byte>)
    requires |Rest(m)| + |p| == BLOCK
    ensures Rest(m + p) == [] && Whole(m + p) == Whole(m) + (Rest(m) + p)
  {
    assert (|m| + |p|) % BLOCK == 0;
    assert m == Whole(m) + Rest(m);
  }

  lemma AddBits(n: nat, k: nat)
    ensures (BitLength(n) + 8 * k) % U64 == BitLength(n + k)
  {
  }

  /** The one or two last blocks. */
  lemma LastBlocks(m: seq<byte>)
    ensures var r := Rest(m) + [0x80];
      if |r| <= 56 then Padded(m) == Whole(m) + (r + Zeros(56 - |r|) + LengthField(|m|))
      else Padded(m) == Whole(m) + (r + Zeros(BLOCK - |r|)) + (Zeros(56) + LengthField(|m|))
  {
    var r := Rest(m) + [0x80];
    assert m == Whole(m) + Rest(m);
    GapLength(|m|);
    if |r| > 56 {
      assert Zeros(Gap(|m|)) == Zeros(BLOCK - |r|) + Zeros(56);
    }
  }

  lemma GapLength(n: nat)
    ensures var r := n % BLOCK + 1; Gap(n) == if r <= 56 then 56 - r else BLOCK - r + 56
  {
  }

  /** What the state says about the bytes absorbed so far. */
  ghost predicate Tracks(f: Compression, h: Chain, buf: seq<byte>, bufpos: nat, length: nat, m: seq<byte>) {
    && bufpos == |m| % BLOCK
    && length == BitLength(|m|)
    && h == Fold(f, INITIAL, Whole(m))
    && Holds(buf, Rest(m))
  }

  lemma TrackFull(f: Compression, h: Chain, buf: seq<byte>, bufpos: nat, length: nat, m: seq<byte>, p: seq<byte>)
    requires Tracks(f, h, buf, bufpos, length, m) && |p| == BLOCK - bufpos
    ensures var b := buf[..bufpos] + p + buf[bufpos + |p|..];
      |b| == BLOCK && Tracks(f, f(h, b), Zeros(BLOCK), 0, (length + 8 * |p|) % U64, m + p)
  {
    AddBits(|m|, |p|);
    assert buf[..bufpos] + p + buf[bufpos + |p|..] == Rest(m) + p;
    AppendFull(m, p);
    FoldBlock(f, INITIAL, Whole(m), Rest(m) + p);
  }

  lemma TrackShort(f: Compression, h: Chain, buf: seq<byte>, bufpos: nat, length: nat, m: seq<byte>, p: seq<byte>)
    requires Tracks(f, h, buf, bufpos, length, m) && |p| < BLOCK - bufpos
    ensures Tracks(f, h, buf[..bufpos] + p + buf[bufpos + |p|..], bufpos + |p|, (length + 8 * |p|) % U64, m + p)
  {
    AddBits(|m|, |p|);
    AppendShort(m, p);
    assert buf[..bufpos] == Rest(m);
  }

  /** The word stored in a buffer is its four bytes. */
  lemma StoredWord(d: seq<byte>, o: nat, w: u32)
    requires o + 4 <= |d| && Get32(d, o) == w
    ensures d[o .. o + 4] == Word(w)
  {
    LittleEndian4(d, o);
    LittleEndian4(Word(w), 0);
    var s := Word(w);
    SameDigits(d[o], d[o + 1], d[o + 2], d[o + 3], s[0], s[1], s[2], s[3]);
  }

  lemma SameDigits(a: byte, b: byte, c: byte, d: byte, a': byte, b': byte, c': byte, d': byte)
    requires a + 0x100 * b as int + 0x1_0000 * c as int + 0x100_0000 * d as int
          == a' + 0x100 * b' as int + 0x1_0000 * c' as int + 0x100_0000 * d' as int
    ensures a == a' && b == b' && c == c' && d == d'
  {
    OneDigit(a, b + 0x100 * c as int + 0x1_0000 * d as int, a', b' + 0x100 * c' as int + 0x1_0000 * d' as int);
    OneDigit(b, c + 0x100 * d as int, b', c' + 0x100 * d' as int);
    OneDigit(c, d, c', d');
  }

  lemma OneDigit(a: byte, x: int, a': byte, x': int)
    requires a + 0x100 * x == a' + 0x100 * x'
    ensures a == a' && x == x'
  {
  }

  /** The buffer once the length has been stored in its last two words. */
  lemma StoredLength(d: seq<byte>, d': seq<byte>, n: nat)
    requires |d| == |d'| == BLOCK && d'[..56] == d[..56]
    requires Get32(d', 56) == BitLength(n) % WORD && Get32(d', 60) == BitLength(n) / WORD
    ensures d' == d[..56] + LengthField(n)
  {
    StoredWord(d', 56, BitLength(n) % WORD);
    StoredWord(d', 60, BitLength(n) / WORD);
    assert d' == d'[..56] + d'[56..60] + d'[60..64];
  }

  /** What the chaining words and the buffer must be just before the length goes in. */
  ghost predicate Ready(f: Compression, h: Chain, buf: seq<byte>, m: seq<byte>) {
    |buf| == BLOCK && f(h, buf[..56] + LengthField(|m|)) == Fold(f, INITIAL, Padded(m))
  }

  lemma ReadyOneBlock(f: Compression, h: Chain, buf: seq<byte>, bufpos: nat, length: nat, m: seq<byte>)
    requires Tracks(f, h, buf, bufpos, length, m) && bufpos + 1 <= 56
    ensures Ready(f, h, buf[bufpos := 0x80], m)
  {
    LastBlocks(m);
    var r := Rest(m) + [0x80];
    assert buf[bufpos := 0x80][..56] == r + Zeros(56 - |r|);
    FoldBlock(f, INITIAL, Whole(m), r + Zeros(56 - |r|) + LengthField(|m|));
  }

  lemma ReadyTwoBlocks(f: Compression, h: Chain, buf: seq<byte>, bufpos: nat, length: nat, m: seq<byte>)
    requires Tracks(f, h, buf, bufpos, length, m) && bufpos + 1 > 56
    ensures Ready(f, f(h, buf[bufpos := 0x80]), Zeros(BLOCK), m)
  {
    LastBlocks(m);
    var last := buf[bufpos := 0x80];
    MarkedBlock(buf, bufpos, Rest(m));
    assert Zeros(BLOCK)[..56] == Zeros(56);
    FoldBlock(f, INITIAL, Whole(m), last);
    FoldBlock(f, INITIAL, Whole(m) + last, Zeros(56) + LengthField(|m|));
  }

  lemma MarkedBlock(buf: seq<byte>, bufpos: nat, rest: seq<byte>)
    requires Holds(buf, rest) && bufpos == |rest| < BLOCK
    ensures buf[bufpos := 0x80] == rest + [0x80] + Zeros(BLOCK - |rest| - 1)
  {
  }

  /** The message m1 is m with the first n bytes of p behind it. */
  ghost predicate Extends(m: seq<byte>, p: seq<byte>, n: nat, m1: seq<byte>) {
    n <= |p| && m1 == m + p[..n]
  }

  lemma Absorbed(m: seq<byte>, p: seq<byte>, at: nat, to: nat, m1: seq<byte>, m2: seq<byte>)
    requires at <= to <= |p| && Extends(m, p, at, m1) && m2 == m1 + p[at..to]
    ensures Extends(m, p, to, m2)
  {
    assert p[..to] == p[..at] + p[at..to];
  }

  lemma ExtendsNone(m: seq<byte>, p: seq<byte>)
    ensures Extends(m, p, 0, m)
  {
  }

  class State {
    const compression: Compression
    var h: Chain
    const buf: array<byte>
    var bufpos: nat
    var length: nat
    /** All bytes given to Update so far. */
    ghost var message: seq<byte>

    ghost predicate Valid()
      reads this, buf
    {
      buf.Length == BLOCK && Tracks(compression, h, buf[..], bufpos, length, message)
    }

    constructor (f: Compression)
      ensures Valid() && message == [] && compression == f && fresh(buf)
    {
      compression := f;
      h := INITIAL;
      buf := new byte[64](_ => 0);
      bufpos := 0;
      length := 0;
      message := [];
    }

    /** Compresses the full buffer and clears it. */
    method Compress()
      requires buf.Length == BLOCK
      modifies this`h, this`bufpos, buf
      ensures h == compression(old(h), old(buf[..])) && buf[..] == Zeros(BLOCK) && bufpos == 0
    {
      h := compression(h, buf[..]);
      MemSet(buf, 0, 64, 0);
      bufpos := 0;
    }

    /** Copies n bytes of p, from position at on, into the buffer. */
    method CopyIn(p: seq<byte>, at: nat, n: nat)
      requires at + n <= |p| && bufpos + n <= buf.Length
      modifies buf
      ensures buf[..] == old(buf[..bufpos]) + p[at .. at + n] + old(buf[bufpos + n..])
    {
      var k := 0;
      while k < n
        invariant 0 <= k <= n
        invariant forall x | 0 <= x < buf.Length ::
          buf[x] == if bufpos <= x < bufpos + k then p[at + x - bufpos] else old(buf[x])
      {
        buf[bufpos + k] := p[at + k];
        k := k + 1;
      }
    }

    /** Completes the block in the buffer and compresses it. */
    method FillBlock(p: seq<byte>, at: nat, needed: nat)
      requires Valid() && needed == 64 - bufpos && at + needed <= |p|
      modifies this`h, this`bufpos, this`length, this`message, buf
      ensures Valid() && message == old(message) + p[at .. at + needed]
    {
      TrackFull(compression, h, buf[..], bufpos, length, message, p[at .. at + needed]);
      message := message + p[at .. at + needed];
      CopyIn(p, at, needed);
      length := (length + needed * 8) % U64;
      Compress();
    }

    /** Keeps bytes that do not complete the block. */
    method FillPart(p: seq<byte>, at: nat, left: nat)
      requires Valid() && left < 64 - bufpos && at + left <= |p|
      modifies this`bufpos, this`length, this`message, buf
      ensures Valid() && message == old(message) + p[at .. at + left]
    {
      TrackShort(compression, h, buf[..], bufpos, length, message, p[at .. at + left]);
      message := message + p[at .. at + left];
      CopyIn(p, at, left);
      bufpos := bufpos + left;
      length := (length + left * 8) % U64;
    }

    /** Absorbs the first length bytes of p; a length that is not positive absorbs nothing. */
    method Update(p: seq<byte>, length: int)
      requires Valid() && length <= |p|
      modifies this`h, this`bufpos, this`length, this`message, buf
      ensures Valid() && Extends(old(message), p, if length > 0 then length else 0, message)
    {
      ghost var m := message;
      var left, at := length, 0;
      ExtendsNone(m, p);
      while left > 0
        invariant Valid() && 0 <= at && at + left == length && (if length > 0 then 0 <= left else at == 0)
        invariant Extends(m, p, at, message)
        decreases left
      {
        ghost var m1 := message;
        var needed := 64 - bufpos;
        if left >= needed {
          FillBlock(p, at, needed);
          Absorbed(m, p, at, at + needed, m1, message);
          at := at + needed;
          left := left - needed;
          continue;
        }
        FillPart(p, at, left);
        Absorbed(m, p, at, length, m1, message);
        return;
      }
    }

    /** Pads, compresses the last one or two blocks and gives the chaining words as bytes. */
    method Finish() returns (out: seq<byte>)
      requires Valid()
      modifies this`h, this`bufpos, buf
      ensures out == Digest(compression, message) && Digested(compression, message, out)
    {
      ghost var d := buf[..];
      if bufpos + 1 <= 56 {
        ReadyOneBlock(compression, h, d, bufpos, length, message);
      } else {
        ReadyTwoBlocks(compression, h, d, bufpos, length, message);
      }
      buf[bufpos] := 0x80;
      assert buf[..] == d[bufpos := 0x80];
      bufpos := bufpos + 1;
      if bufpos > 56 {
        bufpos := 64;
        Compress();
      }
      StoreLength();
      bufpos := 64;
      Compress();
      out := ChainBytes(h);
      DigestMeaning(compression, message);
    }

    method StoreLength()
      requires buf.Length == BLOCK && length == BitLength(|message|)
      modifies buf
      ensures buf[..] == old(buf[..56]) + LengthField(|message|)
    {
      Put32(buf, 56, length % WORD);
      ghost var d := buf[..];
      Put32(buf, 60, length / WORD);
      Get32Frame(d, buf[..], 56);
      StoredLength(old(buf[..]), buf[..], |message|);
    }
  }

  /** The whole of ripemd160: one update, then the digest. */
  method Ripemd160(f: Compression, input: seq<byte>, length: int) returns (out: seq<byte>)
    requires length <= |input|
    ensures var m := if length > 0 then input[..length] else [];
      && out == Digest(f, m) && Digested(f, m, out) && IsPadded(m, Padded(m))
  {
    var state := new State(f);
    state.Update(input, length);
    assert state.message == if length > 0 then input[..length] else [];
    PaddedForm(state.message);
    out := state.Finish();
  }

  ghost function Concat(pieces: seq<seq<byte>>): seq<byte> {
    if pieces == [] then [] else Concat(pieces[..|pieces| - 1]) + pieces[|pieces| - 1]
  }

  /** However a message is split across updates, the digest is that of the whole message. */
  method InPieces(f: Compression, pieces: seq<seq<byte>>) returns (out: seq<byte>)
    ensures out == Digest(f, Concat(pieces)) && Digested(f, Concat(pieces), out)
  {
    var state := new State(f);
    var k := 0;
    while k < |pieces|
      invariant 0 <= k <= |pieces| && state.Valid() && fresh(state) && fresh(state.buf) && state.compression == f
      invariant state.message == Concat(pieces[..k])
    {
      state.Update(pieces[k], |pieces[k]|);
      assert pieces[..k + 1][..k] == pieces[..k];
      assert pieces[k][..|pieces[k]|] == pieces[k];
      k := k + 1;
    }
    assert pieces[..k] == pieces;
    out := state.Finish();
  }
}
