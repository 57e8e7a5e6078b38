/**
 The chunk header shared by both allocators, and the doubly linked list of
 chunks seen as a sequence of cells.  Every heap operation replaces a short
 window of that sequence; the lemmas here say when such a replacement keeps
 the list in order and how it changes the live blocks.
 */
module ChunkList {
  import opened Bytes

  const HEADER: nat := 16

  datatype Header = Header(next: u32, prev: u32, length: u32, inUse: u32)

  /** The header stored at offset o. */
  function HeaderAt(d: seq<byte>, o: nat): (h: Header)
    requires o + HEADER <= |d|
  {
    Header(Get32(d, o), Get32(d, o + 4), Get32(d, o + 8), Get32(d, o + 12))
  }

  /** One chunk of the list: where its header is, its recorded length, whether it is in use. */
  datatype Cell = Cell(off: nat, length: nat, used: bool) {
    ghost function End(): nat { off + HEADER + length }
  }

  /** The index of the chunk with block p, or the length of the list. */
  ghost function Index(cs: seq<Cell>, p: nat): (i: nat)
    ensures i <= |cs| && (i < |cs| ==> cs[i].off + HEADER == p)
    ensures (exists k | 0 <= k < |cs| :: cs[k].off + HEADER == p) ==> i < |cs|
  {
    if cs == [] then 0
    else if cs[|cs| - 1].off + HEADER == p then |cs| - 1
    else
      var i := Index(cs[..|cs| - 1], p);
      if i == |cs| - 1 then |cs| else i
  }

  ghost function NextOff(cs: seq<Cell>, i: nat): nat
    requires i < |cs|
  {
    if i + 1 < |cs| then cs[i + 1].off else 0
  }

  ghost function PrevOff(cs: seq<Cell>, i: nat): nat
    requires i < |cs|
  {
    if i > 0 then cs[i - 1].off else 0
  }

  /** The header in the buffer says what the cell and its neighbours say. */
  ghost predicate LinkedAt(d: seq<byte>, cs: seq<Cell>, i: nat)
    requires i < |cs|
  {
    && cs[i].off + HEADER <= |d|
    && var h := HeaderAt(d, cs[i].off);
       && h.next == NextOff(cs, i)
       && h.prev == PrevOff(cs, i)
       && h.length == cs[i].length
       && h.inUse == if cs[i].used then 1 else 0
  }

  ghost predicate Linked(d: seq<byte>, cs: seq<Cell>) {
    forall i | 0 <= i < |cs| :: LinkedAt(d, cs, i)
  }

  /** Where the bytes of cells before index j end: at the next chunk, or at the end of the heap. */
  ghost function WindowEnd(cs: seq<Cell>, j: nat, limit: nat): nat
    requires j <= |cs|
  {
    if j < |cs| then cs[j].off else limit
  }

  /** The cell ends by the next one, or by limit if it is the last. */
  ghost predicate InPlace(cs: seq<Cell>, i: nat, limit: nat)
    requires i < |cs|
  {
    HEADER <= cs[i].off && cs[i].End() <= WindowEnd(cs, i + 1, limit)
  }

  ghost predicate AlignedAt(cs: seq<Cell>, i: nat)
    requires i < |cs|
  {
    cs[i].off % 8 == 0
  }

  /** Cells are 8-aligned, in increasing order and without overlap, and end by limit. */
  ghost predicate Ordered(cs: seq<Cell>, limit: nat) {
    && (forall i | 0 <= i < |cs| :: InPlace(cs, i, limit))
    && (forall i | 0 <= i < |cs| :: AlignedAt(cs, i))
  }

  lemma {:induction false} OrderedPair(cs: seq<Cell>, limit: nat, i: nat, j: nat)
    requires Ordered(cs, limit) && i < j <= |cs|
    ensures HEADER <= cs[i].off && cs[i].End() <= WindowEnd(cs, j, limit)
  {
    assert InPlace(cs, j - 1, limit);
    assert InPlace(cs, i, limit);
    if i < j - 1 {
      OrderedPair(cs, limit, i, j - 1);
    }
  }

  /** No two neighbouring chunks are both free. */
  ghost predicate Merged(cs: seq<Cell>) {
    forall i | 0 <= i < |cs| - 1 :: OneUsed(cs, i)
  }

  ghost predicate OneUsed(cs: seq<Cell>, i: nat)
    requires i + 1 < |cs|
  {
    cs[i].used || cs[i + 1].used
  }

  ghost function Splice(cs: seq<Cell>, i: nat, j: nat, ws: seq<Cell>): seq<Cell>
    requires i <= j <= |cs|
  {
    cs[..i] + ws + cs[j..]
  }

  /** A replacement for cells i..j: it starts at the same place and fits the same bytes. */
  ghost predicate Fits(cs: seq<Cell>, i: nat, j: nat, ws: seq<Cell>, limit: nat) {
    && i < j <= |cs|
    && |ws| > 0
    && ws[0].off == cs[i].off
    && Ordered(ws, WindowEnd(cs, j, limit))
  }

  lemma SpliceOrdered(cs: seq<Cell>, i: nat, j: nat, ws: seq<Cell>, limit: nat)
    requires Ordered(cs, limit)
    requires Fits(cs, i, j, ws, limit)
    ensures Ordered(Splice(cs, i, j, ws), limit)
  {
    var n := Splice(cs, i, j, ws);
    forall k | 0 <= k < |n|
      ensures InPlace(n, k, limit) && AlignedAt(n, k)
    {
      if k < i {
        assert InPlace(cs, k, limit) && AlignedAt(cs, k);
        assert n[k] == cs[k] && WindowEnd(n, k + 1, limit) == WindowEnd(cs, k + 1, limit);
      } else if k < i + |ws| {
        assert InPlace(ws, k - i, WindowEnd(cs, j, limit)) && AlignedAt(ws, k - i);
        assert n[k] == ws[k - i] && WindowEnd(n, k + 1, limit) == WindowEnd(ws, k - i + 1, WindowEnd(cs, j, limit));
      } else {
        var m := k - |ws| - i + j;
        assert InPlace(cs, m, limit) && AlignedAt(cs, m);
        assert n[k] == cs[m] && WindowEnd(n, k + 1, limit) == WindowEnd(cs, m + 1, limit);
      }
    }
  }

  lemma SpliceMerged(cs: seq<Cell>, i: nat, j: nat, ws: seq<Cell>)
    requires i < j <= |cs| && |ws| > 0
    requires Merged(cs) && Merged(ws)
    requires i > 0 ==> cs[i - 1].used || ws[0].used
    requires j < |cs| ==> ws[|ws| - 1].used || cs[j].used
    ensures Merged(Splice(cs, i, j, ws))
  {
    var n := Splice(cs, i, j, ws);
    forall k | 0 <= k < |n| - 1
      ensures OneUsed(n, k)
    {
      if k < i - 1 {
        assert OneUsed(cs, k);
        assert n[k] == cs[k] && n[k + 1] == cs[k + 1];
      } else if k == i - 1 {
        assert n[k] == cs[k] && n[k + 1] == ws[0];
      } else if k < i + |ws| - 1 {
        assert OneUsed(ws, k - i);
        assert n[k] == ws[k - i] && n[k + 1] == ws[k - i + 1];
      } else if k == i + |ws| - 1 {
        assert n[k] == ws[|ws| - 1] && n[k + 1] == cs[j];
      } else {
        var m := k - |ws| - i + j;
        assert OneUsed(cs, m);
        assert n[k] == cs[m] && n[k + 1] == cs[m + 1];
      }
    }
  }

  /** Headers away from the window are read from bytes that did not change. */
  lemma HeaderFrame(d: seq<byte>, d': seq<byte>, o: nat)
    requires o + HEADER <= |d| == |d'|
    requires Agree(d, d', o, o + HEADER)
    ensures HeaderAt(d, o) == HeaderAt(d', o)
  {
    Get32Frame(d, d', o);
    Get32Frame(d, d', o + 4);
    Get32Frame(d, d', o + 8);
    Get32Frame(d, d', o + 12);
  }

  /** The header at the cell's offset carries these links and the cell's length and state. */
  ghost predicate Carries(d: seq<byte>, c: Cell, next: nat, prev: nat) {
    && c.off + HEADER <= |d|
    && var h := HeaderAt(d, c.off);
       h.next == next && h.prev == prev && h.length == c.length && h.inUse == if c.used then 1 else 0
  }

  /** Only the prev field of the header at o changed, and it is now prev. */
  ghost predicate Redirected(d: seq<byte>, d': seq<byte>, o: nat, prev: nat) {
    && o + HEADER <= |d| == |d'|
    && var h, h' := HeaderAt(d, o), HeaderAt(d', o);
       h'.next == h.next && h'.prev == prev && h'.length == h.length && h'.inUse == h.inUse
  }

  ghost function WindowNext(cs: seq<Cell>, j: nat, ws: seq<Cell>, k: nat): nat
    requires k < |ws|
  {
    if k + 1 < |ws| then ws[k + 1].off else if j < |cs| then cs[j].off else 0
  }

  ghost function WindowPrev(cs: seq<Cell>, i: nat, ws: seq<Cell>, k: nat): nat
    requires k < |ws| && i < |cs|
  {
    if k > 0 then ws[k - 1].off else PrevOff(cs, i)
  }

  ghost predicate WindowLinkedAt(d: seq<byte>, cs: seq<Cell>, i: nat, j: nat, ws: seq<Cell>, k: nat)
    requires i < |cs| && k < |ws|
  {
    Carries(d, ws[k], WindowNext(cs, j, ws, k), WindowPrev(cs, i, ws, k))
  }

  /**
   d' is d with the headers of cells i..j replaced by those of ws: links inside ws and to both
   neighbours are right, the right neighbour has its prev field redirected, and bytes outside the
   window are as before.
   */
  ghost predicate Rewritten(d: seq<byte>, d': seq<byte>, cs: seq<Cell>, i: nat, j: nat, ws: seq<Cell>) {
    && i < j <= |cs| && |ws| > 0 && |d| == |d'|
    && Agree(d, d', HEADER, cs[i].off)
    && Agree(d, d', WindowEnd(cs, j, |d|) + HEADER, |d|)
    && (forall k | 0 <= k < |ws| :: WindowLinkedAt(d', cs, i, j, ws, k))
    && (j < |cs| ==> Redirected(d, d', cs[j].off, ws[|ws| - 1].off))
  }

  /** A cell whose neighbours and header bytes are the same is linked the same way. */
  lemma LinkedMoves(d: seq<byte>, d': seq<byte>, cs: seq<Cell>, m: nat, n: seq<Cell>, k: nat)
    requires m < |cs| && k < |n| && n[k] == cs[m]
    requires NextOff(n, k) == NextOff(cs, m) && PrevOff(n, k) == PrevOff(cs, m)
    requires LinkedAt(d, cs, m) && Agree(d, d', cs[m].off, cs[m].off + HEADER)
    ensures LinkedAt(d', n, k)
  {
    HeaderFrame(d, d', cs[m].off);
  }

  lemma SpliceLinkedLeft(d: seq<byte>, d': seq<byte>, cs: seq<Cell>, i: nat, j: nat, ws: seq<Cell>, k: nat)
    requires Ordered(cs, |d|) && Linked(d, cs)
    requires k < i < j <= |cs| && |ws| > 0 && ws[0].off == cs[i].off
    requires Agree(d, d', HEADER, cs[i].off)
    ensures LinkedAt(d', Splice(cs, i, j, ws), k)
  {
    var n := Splice(cs, i, j, ws);
    assert n[k] == cs[k] && NextOff(n, k) == NextOff(cs, k) && PrevOff(n, k) == PrevOff(cs, k);
    assert LinkedAt(d, cs, k);
    OrderedPair(cs, |d|, k, i);
    LinkedMoves(d, d', cs, k, n, k);
  }

  lemma SpliceLinkedWindow(d': seq<byte>, cs: seq<Cell>, i: nat, j: nat, ws: seq<Cell>, k: nat)
    requires i < j <= |cs| && i <= k < i + |ws|
    requires WindowLinkedAt(d', cs, i, j, ws, k - i)
    ensures LinkedAt(d', Splice(cs, i, j, ws), k)
  {
    var n := Splice(cs, i, j, ws);
    assert n[k] == ws[k - i];
    assert NextOff(n, k) == WindowNext(cs, j, ws, k - i) && PrevOff(n, k) == WindowPrev(cs, i, ws, k - i);
  }

  lemma SpliceLinkedNeighbour(d: seq<byte>, d': seq<byte>, cs: seq<Cell>, i: nat, j: nat, ws: seq<Cell>)
    requires i < j < |cs| && |ws| > 0
    requires Linked(d, cs)
    requires Redirected(d, d', cs[j].off, ws[|ws| - 1].off)
    ensures LinkedAt(d', Splice(cs, i, j, ws), i + |ws|)
  {
    var n := Splice(cs, i, j, ws);
    assert LinkedAt(d, cs, j);
    assert n[i + |ws|] == cs[j] && NextOff(n, i + |ws|) == NextOff(cs, j);
    assert PrevOff(n, i + |ws|) == ws[|ws| - 1].off;
  }

  lemma SpliceLinkedRight(d: seq<byte>, d': seq<byte>, cs: seq<Cell>, i: nat, j: nat, ws: seq<Cell>, k: nat)
    requires Ordered(cs, |d|) && Linked(d, cs)
    requires i < j < |cs| && i + |ws| < k < i + |ws| + |cs| - j
    requires Agree(d, d', cs[j].off + HEADER, |d|)
    ensures LinkedAt(d', Splice(cs, i, j, ws), k)
  {
    var n := Splice(cs, i, j, ws);
    var m := k - |ws| - i + j;
    assert n[k] == cs[m] && NextOff(n, k) == NextOff(cs, m) && PrevOff(n, k) == PrevOff(cs, m);
    assert LinkedAt(d, cs, m);
    OrderedPair(cs, |d|, j, m);
    LinkedMoves(d, d', cs, m, n, k);
  }

  lemma SpliceLinked(d: seq<byte>, d': seq<byte>, cs: seq<Cell>, i: nat, j: nat, ws: seq<Cell>)
    requires Ordered(cs, |d|) && Linked(d, cs)
    requires Fits(cs, i, j, ws, |d|)
    requires Rewritten(d, d', cs, i, j, ws)
    ensures Linked(d', Splice(cs, i, j, ws))
  {
    forall k | 0 <= k < |Splice(cs, i, j, ws)|
      ensures LinkedAt(d', Splice(cs, i, j, ws), k)
    {
      if k < i {
        SpliceLinkedLeft(d, d', cs, i, j, ws, k);
      } else if k < i + |ws| {
        SpliceLinkedWindow(d', cs, i, j, ws, k);
      } else if k == i + |ws| {
        SpliceLinkedNeighbour(d, d', cs, i, j, ws);
      } else {
        SpliceLinkedRight(d, d', cs, i, j, ws, k);
      }
    }
  }

  /** Every cell lies in [lo, hi). */
  ghost predicate Within(cs: seq<Cell>, lo: nat, hi: nat) {
    forall i | 0 <= i < |cs| :: lo <= cs[i].off && cs[i].End() <= hi
  }

  /** The user's bytes of a cell. */
  ghost function Payload(d: seq<byte>, c: Cell): seq<byte> {
    if c.End() <= |d| then d[c.off + HEADER .. c.End()] else []
  }

  /** What the heap means to its user: a map from the address of each block in use to its bytes. */
  ghost function Blocks(d: seq<byte>, cs: seq<Cell>): map<nat, seq<byte>> {
    if cs == [] then map[] else
      var c := cs[|cs| - 1];
      var m := Blocks(d, cs[..|cs| - 1]);
      if c.used then m[c.off + HEADER := Payload(d, c)] else m
  }

  lemma {:induction false} BlocksConcat(d: seq<byte>, a: seq<Cell>, b: seq<Cell>)
    ensures Blocks(d, a + b) == Blocks(d, a) + Blocks(d, b)
  {
    if b == [] {
      assert a + b == a;
    } else {
      var b' := b[..|b| - 1];
      BlocksConcat(d, a, b');
      assert (a + b)[..|a + b| - 1] == a + b';
    }
  }

  lemma {:induction false} BlocksFrame(d: seq<byte>, d': seq<byte>, cs: seq<Cell>, lo: nat, hi: nat)
    requires hi <= |d| && Within(cs, lo, hi)
    requires Agree(d, d', lo + HEADER, hi)
    ensures Blocks(d, cs) == Blocks(d', cs)
  {
    if cs != [] {
      BlocksFrame(d, d', cs[..|cs| - 1], lo, hi);
      var c := cs[|cs| - 1];
      assert d[c.off + HEADER .. c.End()] == d'[c.off + HEADER .. c.End()];
    }
  }

  lemma {:induction false} BlocksRange(d: seq<byte>, cs: seq<Cell>, lo: nat, hi: nat)
    requires Within(cs, lo, hi)
    ensures forall p | p in Blocks(d, cs) :: lo + HEADER <= p <= hi
  {
    if cs != [] {
      BlocksRange(d, cs[..|cs| - 1], lo, hi);
    }
  }

  /** The blocks are those of the cells in use, and no others. */
  lemma {:induction false} BlockCell(d: seq<byte>, cs: seq<Cell>, p: nat) returns (i: nat)
    requires p in Blocks(d, cs)
    ensures i < |cs| && cs[i].used && cs[i].off + HEADER == p
  {
    i := |cs| - 1;
    if !(cs[i].used && cs[i].off + HEADER == p) {
      i := BlockCell(d, cs[..|cs| - 1], p);
    }
  }

  lemma SingleBlock(d: seq<byte>, c: Cell)
    ensures Blocks(d, [c]) == if c.used then map[c.off + HEADER := Payload(d, c)] else map[]
  {
    assert [c][..0] == [];
  }

  lemma CellBlock(d: seq<byte>, cs: seq<Cell>, i: nat)
    requires Ordered(cs, |d|) && i < |cs|
    ensures var p := cs[i].off + HEADER;
      (p in Blocks(d, cs) <==> cs[i].used) && (cs[i].used ==> Blocks(d, cs)[p] == Payload(d, cs[i]))
  {
    OrderedCuts(cs, i, i + 1, |d|);
    BlocksCut(d, cs, i, i + 1);
    assert cs[i..i + 1] == [cs[i]];
    SingleBlock(d, cs[i]);
    BlocksRange(d, cs[..i], HEADER, cs[i].off);
    BlocksRange(d, cs[i + 1..], WindowEnd(cs, i + 1, |d|), |d|);
  }

  /** A stretch of cells of which at most cell u is in use holds at most that block. */
  lemma LoneBlock(d: seq<byte>, cs: seq<Cell>, u: nat)
    requires u < |cs|
    requires forall k | 0 <= k < |cs| && k != u :: !cs[k].used
    ensures Blocks(d, cs) == if cs[u].used then map[cs[u].off + HEADER := Payload(d, cs[u])] else map[]
  {
    NoBlocks(d, cs[..u]);
    NoBlocks(d, cs[u + 1..]);
    BlocksCut(d, cs, u, u + 1);
    assert cs[u..u + 1] == [cs[u]];
    SingleBlock(d, cs[u]);
  }

  lemma {:induction false} NoBlocks(d: seq<byte>, cs: seq<Cell>)
    requires forall k | 0 <= k < |cs| :: !cs[k].used
    ensures Blocks(d, cs) == map[]
  {
    if cs != [] {
      NoBlocks(d, cs[..|cs| - 1]);
    }
  }

  lemma OrderedCuts(cs: seq<Cell>, i: nat, j: nat, limit: nat)
    requires Ordered(cs, limit) && i < j <= |cs|
    ensures Within(cs[..i], HEADER, cs[i].off)
    ensures Within(cs[i..j], cs[i].off, WindowEnd(cs, j, limit))
    ensures Within(cs[j..], WindowEnd(cs, j, limit), limit)
    ensures cs[i].off + HEADER <= WindowEnd(cs, j, limit) <= limit
  {
    OrderedPair(cs, limit, i, j);
    if j < |cs| {
      OrderedPair(cs, limit, j, |cs|);
    }
    forall k | 0 <= k < i
      ensures HEADER <= cs[k].off && cs[k].End() <= cs[i].off
    {
      OrderedPair(cs, limit, k, i);
    }
    forall k | i <= k < j
      ensures cs[i].off <= cs[k].off && cs[k].End() <= WindowEnd(cs, j, limit)
    {
      OrderedPair(cs, limit, k, j);
      if i < k {
        OrderedPair(cs, limit, i, k);
      }
    }
    forall k | j <= k < |cs|
      ensures WindowEnd(cs, j, limit) <= cs[k].off && cs[k].End() <= limit
    {
      OrderedPair(cs, limit, k, |cs|);
      if j < k {
        OrderedPair(cs, limit, j, k);
      }
    }
  }

  lemma BlocksCut(d: seq<byte>, cs: seq<Cell>, i: nat, j: nat)
    requires i <= j <= |cs|
    ensures Blocks(d, cs) == Blocks(d, cs[..i]) + Blocks(d, cs[i..j]) + Blocks(d, cs[j..])
  {
    BlocksConcat(d, cs[..i], cs[i..j]);
    BlocksConcat(d, cs[..i] + cs[i..j], cs[j..]);
    assert cs == (cs[..i] + cs[i..j]) + cs[j..];
  }

  lemma ReplaceMiddle(a: map<nat, seq<byte>>, b: map<nat, seq<byte>>, c: map<nat, seq<byte>>, w: map<nat, seq<byte>>)
    requires a.Keys !! b.Keys && b.Keys !! c.Keys && w.Keys !! c.Keys
    ensures a + w + c == (a + b + c - b.Keys) + w
  {
  }

  /** A splice removes the blocks of the old window and adds those of the new one: nothing else moves or changes. */
  lemma SpliceBlocks(d: seq<byte>, d': seq<byte>, cs: seq<Cell>, i: nat, j: nat, ws: seq<Cell>)
    requires Ordered(cs, |d|)
    requires Fits(cs, i, j, ws, |d|)
    requires Agree(d, d', HEADER, cs[i].off)
    requires Agree(d, d', WindowEnd(cs, j, |d|) + HEADER, |d|)
    ensures Blocks(d', Splice(cs, i, j, ws)) == (Blocks(d, cs) - Blocks(d, cs[i..j]).Keys) + Blocks(d', ws)
  {
    var end := WindowEnd(cs, j, |d|);
    var a, b, c := cs[..i], cs[i..j], cs[j..];
    OrderedCuts(cs, i, j, |d|);
    OrderedCuts(ws, 0, |ws|, end);
    assert ws[0..|ws|] == ws;
    BlocksCut(d, cs, i, j);
    BlocksConcat(d', a, ws);
    BlocksConcat(d', a + ws, c);
    BlocksFrame(d, d', a, HEADER, cs[i].off);
    BlocksFrame(d, d', c, end, |d|);
    BlocksRange(d, a, HEADER, cs[i].off);
    BlocksRange(d, b, cs[i].off, end);
    BlocksRange(d, c, end, |d|);
    BlocksRange(d', ws, cs[i].off, end);
    ReplaceMiddle(Blocks(d, a), Blocks(d, b), Blocks(d, c), Blocks(d', ws));
  }

  /** Block o, if in use, is gone; block w, if in use, is there with the bytes in the buffer; the rest is as before. */
  ghost predicate BlocksChange(d: seq<byte>, d': seq<byte>, cs: seq<Cell>, cs': seq<Cell>, o: Cell, w: Cell) {
    Blocks(d', cs') ==
      (Blocks(d, cs) - (if o.used then {o.off + HEADER} else {})) +
      (if w.used then map[w.off + HEADER := Payload(d', w)] else map[])
  }

  lemma ReplaceBlocks(d: seq<byte>, d': seq<byte>, cs: seq<Cell>, i: nat, j: nat, u: nat, ws: seq<Cell>)
    requires Ordered(cs, |d|) && Fits(cs, i, j, ws, |d|)
    requires Agree(d, d', HEADER, cs[i].off) && Agree(d, d', WindowEnd(cs, j, |d|) + HEADER, |d|)
    requires i <= u < j && forall k | i <= k < j && k != u :: !cs[k].used
    requires forall k | 0 < k < |ws| :: !ws[k].used
    ensures BlocksChange(d, d', cs, Splice(cs, i, j, ws), cs[u], ws[0])
  {
    SpliceBlocks(d, d', cs, i, j, ws);
    LoneBlock(d, cs[i..j], u - i);
    LoneBlock(d', ws, 0);
    assert Blocks(d, cs[i..j]).Keys == if cs[u].used then {cs[u].off + HEADER} else {};
  }

  lemma AddNothing(m: map<nat, seq<byte>>)
    ensures m + map[] == m
  {
  }

  lemma PutBack(m: map<nat, seq<byte>>, p: nat, v: seq<byte>)
    ensures ((m - {p}) + map[p := v]) - {p} == m - {p}
    ensures ((m - {p}) + map[p := v])[p] == v
  {
  }

  /** res is a new block of size bytes, and every other block is as it was. */
  ghost predicate Fresh(m: map<nat, seq<byte>>, m': map<nat, seq<byte>>, size: nat, res: nat) {
    res !in m && res in m' && |m'[res]| == size && m' - {res} == m
  }

  lemma FreshKeeps(m: map<nat, seq<byte>>, m': map<nat, seq<byte>>, size: nat, res: nat, p: nat)
    requires Fresh(m, m', size, res) && p in m
    ensures p in m' && m'[p] == m[p]
  {
    assert p in m' - {res};
  }

  lemma FreshBlock(d: seq<byte>, d': seq<byte>, cs: seq<Cell>, cs': seq<Cell>, k: nat, w: Cell)
    requires k < |cs| && !cs[k].used && w.used && w.off == cs[k].off && w.End() <= |d'|
    requires Ordered(cs, |d|) && BlocksChange(d, d', cs, cs', cs[k], w)
    ensures Fresh(Blocks(d, cs), Blocks(d', cs'), w.length, w.off + HEADER)
  {
    CellBlock(d, cs, k);
  }

  lemma PayloadPrefix(d: seq<byte>, d': seq<byte>, c: Cell, w: Cell, n: nat)
    requires c.off == w.off && c.End() <= |d| == |d'| && w.End() <= |d| && n <= c.length && n <= w.length
    requires Agree(d, d', c.off + HEADER, c.off + HEADER + n)
    ensures Payload(d, c)[..n] == Payload(d', w)[..n]
  {
    var a, b := Payload(d, c)[..n], Payload(d', w)[..n];
    forall k | 0 <= k < n
      ensures a[k] == b[k]
    {
      assert a[k] == d[c.off + HEADER + k] && b[k] == d'[c.off + HEADER + k];
    }
  }

  /** Block p has bytes a in m and bytes b in m', and every other block is the same. */
  ghost predicate Swapped(m: map<nat, seq<byte>>, m': map<nat, seq<byte>>, p: nat, a: seq<byte>, b: seq<byte>) {
    p in m && p in m' && m[p] == a && m'[p] == b && m' - {p} == m - {p}
  }

  /** A block that stays where it is, with new bytes. */
  lemma BlockReplaced(d: seq<byte>, d': seq<byte>, cs: seq<Cell>, cs': seq<Cell>, i: nat, w: Cell, p: nat)
    requires i < |cs| && cs[i].used && w.used && w.off == cs[i].off && w.End() <= |d'| && p == w.off + HEADER
    requires Ordered(cs, |d|) && BlocksChange(d, d', cs, cs', cs[i], w)
    ensures Swapped(Blocks(d, cs), Blocks(d', cs'), p, Payload(d, cs[i]), Payload(d', w))
  {
    CellBlock(d, cs, i);
    PutBack(Blocks(d, cs), p, Payload(d', w));
  }

  /** Distinct blocks never overlap, and lie inside the heap. */
  lemma BlocksDisjoint(d: seq<byte>, cs: seq<Cell>, p: nat, q: nat)
    requires Ordered(cs, |d|)
    requires p in Blocks(d, cs) && q in Blocks(d, cs) && p < q
    ensures p + |Blocks(d, cs)[p]| + HEADER <= q && q + |Blocks(d, cs)[q]| <= |d|
  {
    var i := BlockCell(d, cs, p);
    var j := BlockCell(d, cs, q);
    CellBlock(d, cs, i);
    CellBlock(d, cs, j);
    OrderedPair(cs, |d|, j, |cs|);
    if i < j {
      OrderedPair(cs, |d|, i, j);
    } else {
      OrderedPair(cs, |d|, j, i);
    }
  }

  /** Every block is 8-aligned. */
  lemma BlocksAligned(d: seq<byte>, cs: seq<Cell>, p: nat)
    requires Ordered(cs, |d|) && p in Blocks(d, cs)
    ensures p % 8 == 0
  {
    var i := BlockCell(d, cs, p);
    assert AlignedAt(cs, i);
    AlignedSum(cs[i].off, HEADER);
  }

  method LoadHeader(d: array<byte>, o: nat) returns (h: Header)
    requires o + HEADER <= d.Length
    ensures h == HeaderAt(d[..], o)
  {
    var s := d[..];
    h := HeaderAt(s, o);
  }

  /** Only bytes in [lo, hi) may differ. */
  ghost predicate SameOutside(d: seq<byte>, d': seq<byte>, lo: nat, hi: nat) {
    Agree(d, d', 0, lo) && Agree(d, d', hi, |d|)
  }

  lemma HeadersFrame(d: seq<byte>, d': seq<byte>, lo: nat, hi: nat)
    requires SameOutside(d, d', lo, hi)
    ensures forall q: nat | q + HEADER <= |d| && (q + HEADER <= lo || hi <= q) :: HeaderAt(d', q) == HeaderAt(d, q)
  {
    forall q: nat | q + HEADER <= |d| && (q + HEADER <= lo || hi <= q)
      ensures HeaderAt(d', q) == HeaderAt(d, q)
    {
      HeaderFrame(d, d', q);
    }
  }

  /** Assigns the four fields of the header at o. */
  method StoreHeader(d: array<byte>, o: nat, h: Header)
    requires o + HEADER <= d.Length
    modifies d
    ensures HeaderAt(d[..], o) == h
    ensures SameOutside(old(d[..]), d[..], o, o + HEADER)
    ensures forall q: nat | q + HEADER <= d.Length && (q + HEADER <= o || o + HEADER <= q) ::
      HeaderAt(d[..], q) == old(HeaderAt(d[..], q))
  {
    Put32(d, o, h.next);
    ghost var d1 := d[..];
    Put32(d, o + 4, h.prev);
    ghost var d2 := d[..];
    Put32(d, o + 8, h.length);
    ghost var d3 := d[..];
    Put32(d, o + 12, h.inUse);
    Get32Frame(d1, d[..], o);
    Get32Frame(d2, d[..], o + 4);
    Get32Frame(d3, d[..], o + 8);
    HeadersFrame(old(d[..]), d[..], o, o + HEADER);
  }

  /** Assigns only the prev field of the header at o. */
  method SetPrev(d: array<byte>, o: nat, prev: u32)
    requires o + HEADER <= d.Length
    modifies d
    ensures Redirected(old(d[..]), d[..], o, prev)
    ensures SameOutside(old(d[..]), d[..], o + 4, o + 8)
    ensures forall q: nat | q + HEADER <= d.Length && (q + HEADER <= o || o + HEADER <= q) ::
      HeaderAt(d[..], q) == old(HeaderAt(d[..], q))
  {
    Put32(d, o + 4, prev);
    Get32Frame(old(d[..]), d[..], o);
    Get32Frame(old(d[..]), d[..], o + 8);
    Get32Frame(old(d[..]), d[..], o + 12);
    HeadersFrame(old(d[..]), d[..], o, o + HEADER);
  }

  /** Stores two headers, and redirects the prev field of the chunk at n unless n is 0. */
  method StorePair(d: array<byte>, o: nat, h: Header, p: nat, g: Header, n: nat)
    requires o + HEADER <= p && p + HEADER <= d.Length && p < WORD
    requires n == 0 || (p + HEADER <= n && n + HEADER <= d.Length)
    modifies d
    ensures HeaderAt(d[..], o) == h && HeaderAt(d[..], p) == g
    ensures n != 0 ==> Redirected(old(d[..]), d[..], n, p)
    ensures SameOutside(old(d[..]), d[..], o, if n == 0 then p + HEADER else n + HEADER)
    ensures Agree(old(d[..]), d[..], o + HEADER, p)
  {
    StoreHeader(d, o, h);
    StoreHeader(d, p, g);
    if n != 0 {
      SetPrev(d, n, p);
    }
  }

  /** Stores two headers, wherever they are. */
  method StoreTwo(d: array<byte>, o: nat, h: Header, p: nat, g: Header)
    requires o + HEADER <= d.Length && p + HEADER <= d.Length
    modifies d
    ensures o + HEADER <= p ==>
      && HeaderAt(d[..], o) == h && HeaderAt(d[..], p) == g
      && SameOutside(old(d[..]), d[..], o, p + HEADER) && Agree(old(d[..]), d[..], o + HEADER, p)
  {
    StoreHeader(d, o, h);
    StoreHeader(d, p, g);
  }

  /** Stores a header and points the chunk at n back to it. */
  method StoreBefore(d: array<byte>, o: nat, h: Header, n: nat)
    requires o + HEADER <= n && n + HEADER <= d.Length && o < WORD
    modifies d
    ensures HeaderAt(d[..], o) == h
    ensures Redirected(old(d[..]), d[..], n, o)
    ensures SameOutside(old(d[..]), d[..], o, n + HEADER)
    ensures Agree(old(d[..]), d[..], o + HEADER, n)
  {
    StoreHeader(d, o, h);
    SetPrev(d, n, o);
  }

  lemma OutsideTrans(d: seq<byte>, d1: seq<byte>, d2: seq<byte>, lo: nat, lo': nat, hi: nat, hi': nat)
    requires SameOutside(d, d1, lo, hi) && SameOutside(d1, d2, lo', hi')
    requires lo' <= lo && hi <= hi'
    ensures SameOutside(d, d2, lo', hi')
  {
  }

  lemma RedirectTrans(d: seq<byte>, d1: seq<byte>, d2: seq<byte>, lo: nat, hi: nat, o: nat, prev: nat)
    requires SameOutside(d, d1, lo, hi) && hi <= o
    requires Redirected(d1, d2, o, prev)
    ensures Redirected(d, d2, o, prev)
  {
    HeaderFrame(d, d1, o);
  }
}
