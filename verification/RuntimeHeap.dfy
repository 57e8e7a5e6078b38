/**
 The heap of the wasm runtime: chunks in linear memory that tile it from the heap's start to its
 end, linked both ways, with neighbouring free chunks merged.
 */
module RuntimeHeap {
  import opened Bytes
  import opened ChunkList
  import opened RuntimeCells

  /** The address of the first chunk. */
  const HEAP_START: nat := 0x1_0000

  /** The chunk reaches exactly to the next one, or to the end of memory. */
  ghost predicate Tiled(cs: seq<Cell>, i: nat, limit: nat)
    requires i < |cs|
  {
    cs[i].End() == WindowEnd(cs, i + 1, limit)
  }

  ghost predicate Heap(d: seq<byte>, cs: seq<Cell>) {
    && HEAP_START + HEADER <= |d| < WORD && |d| % 8 == 0
    && |cs| > 0 && cs[0].off == HEAP_START
    && Ordered(cs, |d|) && Merged(cs) && Linked(d, cs)
    && (forall i | 0 <= i < |cs| :: Tiled(cs, i, |d|))
  }

  /** All that the invariant says about chunk k and the one after it. */
  lemma ChunkFacts(d: seq<byte>, cs: seq<Cell>, k: nat)
    requires Heap(d, cs) && k < |cs|
    ensures LinkedAt(d, cs, k) && InPlace(cs, k, |d|) && Tiled(cs, k, |d|)
    ensures k + 1 < |cs| ==> LinkedAt(d, cs, k + 1) && InPlace(cs, k + 1, |d|) && OneUsed(cs, k)
    ensures WindowEnd(cs, k + 1, |d|) <= |d| && HEAP_START <= cs[k].off
  {
    OrderedPair(cs, |d|, k, |cs|);
    if k > 0 {
      OrderedPair(cs, |d|, 0, k);
    }
    if k + 1 < |cs| {
      OrderedPair(cs, |d|, k + 1, |cs|);
    }
  }

  lemma LengthAligned(d: seq<byte>, cs: seq<Cell>, k: nat)
    requires Heap(d, cs) && k < |cs|
    ensures cs[k].length % 8 == 0
  {
    assert Tiled(cs, k, |d|) && AlignedAt(cs, k);
    assert k + 1 < |cs| ==> AlignedAt(cs, k + 1);
    AlignedDifference(cs[k].off, WindowEnd(cs, k + 1, |d|), cs[k].length);
  }

  lemma AlignedDifference(a: nat, b: nat, n: nat)
    requires a % 8 == 0 && b % 8 == 0 && b == a + 16 + n
    ensures n % 8 == 0
  {
  }

  /** Lengths and headers add up to the whole heap: no byte is lost. */
  ghost function TotalBytes(cs: seq<Cell>): nat {
    if cs == [] then 0 else TotalBytes(cs[..|cs| - 1]) + HEADER + cs[|cs| - 1].length
  }

  lemma {:induction false} TotalUpTo(d: seq<byte>, cs: seq<Cell>, k: nat)
    requires Heap(d, cs) && k <= |cs|
    ensures HEAP_START + TotalBytes(cs[..k]) == WindowEnd(cs, k, |d|)
    decreases k
  {
    if k > 0 {
      TotalUpTo(d, cs, k - 1);
      assert Tiled(cs, k - 1, |d|);
      assert cs[..k][..k - 1] == cs[..k - 1];
    }
  }

  lemma BytesConserved(d: seq<byte>, cs: seq<Cell>)
    requires Heap(d, cs)
    ensures HEAP_START + TotalBytes(cs) == |d|
  {
    TotalUpTo(d, cs, |cs|);
    assert cs[..|cs|] == cs;
  }

  // ---------------------------------------------------------------------------
  // Replacing a window

  lemma SpliceTiled(cs: seq<Cell>, limit: nat, i: nat, j: nat, ws: seq<Cell>)
    requires Fits(cs, i, j, ws, limit)
    requires forall k | 0 <= k < |cs| :: Tiled(cs, k, limit)
    requires forall k | 0 <= k < |ws| :: Tiled(ws, k, WindowEnd(cs, j, limit))
    ensures forall k | 0 <= k < |Splice(cs, i, j, ws)| :: Tiled(Splice(cs, i, j, ws), k, limit)
  {
    var n := Splice(cs, i, j, ws);
    forall k | 0 <= k < |n|
      ensures Tiled(n, k, limit)
    {
      if k < i {
        assert Tiled(cs, k, limit) && n[k] == cs[k] && WindowEnd(n, k + 1, limit) == WindowEnd(cs, k + 1, limit);
      } else if k < i + |ws| {
        assert Tiled(ws, k - i, WindowEnd(cs, j, limit)) && n[k] == ws[k - i];
        assert WindowEnd(n, k + 1, limit) == WindowEnd(ws, k - i + 1, WindowEnd(cs, j, limit));
      } else {
        var m := k - |ws| - i + j;
        assert Tiled(cs, m, limit) && n[k] == cs[m] && WindowEnd(n, k + 1, limit) == WindowEnd(cs, m + 1, limit);
      }
    }
  }

  /** Above the first 16 bytes of memory, bytes change only from cell i to the header of cell j. */
  ghost predicate Confined(d: seq<byte>, d': seq<byte>, cs: seq<Cell>, i: nat, j: nat)
    requires i < j <= |cs|
  {
    Agree(d, d', HEADER, cs[i].off) && Agree(d, d', if j < |cs| then cs[j].off + HEADER else |d|, |d|)
  }

  /** What changed: the list is cs' now, block o is gone and block w is there. */
  ghost predicate Changed(d: seq<byte>, d': seq<byte>, cs: seq<Cell>, cs': seq<Cell>, o: Cell, w: Cell) {
    Heap(d, cs) && Heap(d', cs') && BlocksChange(d, d', cs, cs', o, w)
  }

  lemma ReplaceWindow(d: seq<byte>, d': seq<byte>, cs: seq<Cell>, i: nat, j: nat, u: nat, ws: seq<Cell>)
    requires Heap(d, cs)
    requires Fits(cs, i, j, ws, |d|) && Merged(ws)
    requires forall k | 0 <= k < |ws| :: Tiled(ws, k, WindowEnd(cs, j, |d|))
    requires i > 0 ==> cs[i - 1].used || ws[0].used
    requires j < |cs| ==> ws[|ws| - 1].used || cs[j].used
    requires Rewritten(d, d', cs, i, j, ws)
    requires i <= u < j && forall k | i <= k < j && k != u :: !cs[k].used
    requires forall k | 0 < k < |ws| :: !ws[k].used
    ensures Changed(d, d', cs, Splice(cs, i, j, ws), cs[u], ws[0])
  {
    SpliceOrdered(cs, i, j, ws, |d|);
    SpliceMerged(cs, i, j, ws);
    SpliceTiled(cs, |d|, i, j, ws);
    SpliceLinked(d, d', cs, i, j, ws);
    ReplaceBlocks(d, d', cs, i, j, u, ws);
  }

  /** One new cell takes the place of cells i..j. */
  lemma Replace1(d: seq<byte>, d': seq<byte>, cs: seq<Cell>, i: nat, j: nat, u: nat, w: Cell)
    requires Heap(d, cs)
    requires i <= u < j <= |cs| && forall k | i <= k < j && k != u :: !cs[k].used
    requires w.off == cs[i].off && w.End() == WindowEnd(cs, j, |d|)
    requires i > 0 ==> cs[i - 1].used || w.used
    requires j < |cs| ==> w.used || cs[j].used
    requires Carries(d', w, if j < |cs| then cs[j].off else 0, PrevOff(cs, i))
    requires j < |cs| ==> Redirected(d, d', cs[j].off, w.off)
    requires Confined(d, d', cs, i, j)
    ensures Changed(d, d', cs, Splice(cs, i, j, [w]), cs[u], w)
  {
    var end := WindowEnd(cs, j, |d|);
    assert InPlace(cs, i, |d|) && AlignedAt(cs, i);
    assert WindowLinkedAt(d', cs, i, j, [w], 0);
    assert InPlace([w], 0, end) && AlignedAt([w], 0) && Tiled([w], 0, end);
    ReplaceWindow(d, d', cs, i, j, u, [w]);
  }

  /** A new cell in use and a free remainder take the place of cells i..j. */
  lemma Replace2(d: seq<byte>, d': seq<byte>, cs: seq<Cell>, i: nat, j: nat, u: nat, w: Cell, x: Cell)
    requires Heap(d, cs)
    requires i <= u < j <= |cs| && forall k | i <= k < j && k != u :: !cs[k].used
    requires w.off == cs[i].off && w.used && w.length % 8 == 0
    requires !x.used && w.End() == x.off && x.End() == WindowEnd(cs, j, |d|)
    requires j < |cs| ==> cs[j].used
    requires Carries(d', w, x.off, PrevOff(cs, i))
    requires Carries(d', x, if j < |cs| then cs[j].off else 0, w.off)
    requires j < |cs| ==> Redirected(d, d', cs[j].off, x.off)
    requires Confined(d, d', cs, i, j)
    ensures Changed(d, d', cs, Splice(cs, i, j, [w, x]), cs[u], w)
  {
    var end := WindowEnd(cs, j, |d|);
    assert InPlace(cs, i, |d|) && AlignedAt(cs, i);
    AlignedSum(w.off, w.length);
    assert WindowLinkedAt(d', cs, i, j, [w, x], 0);
    assert WindowLinkedAt(d', cs, i, j, [w, x], 1);
    assert InPlace([w, x], 0, end) && InPlace([w, x], 1, end) && AlignedAt([w, x], 0) && AlignedAt([w, x], 1);
    assert Tiled([w, x], 0, end) && Tiled([w, x], 1, end);
    assert OneUsed([w, x], 0);
    ReplaceWindow(d, d', cs, i, j, u, [w, x]);
  }

  // ---------------------------------------------------------------------------
  // Allocation

  /** p is a new block of at least size bytes, with less than a chunk to spare, and every other block is as it was. */
  ghost predicate Allocated(m: map<nat, seq<byte>>, m': map<nat, seq<byte>>, size: nat, p: nat) {
    && p in m' && Fresh(m, m', |m'[p]|, p)
    && size <= |m'[p]| < RoundUp(size) + 8 + HEADER
  }

  /** The list is cs' now, and p a new block of at least size bytes. */
  ghost predicate Given(d: seq<byte>, d': seq<byte>, cs: seq<Cell>, cs': seq<Cell>, p: nat, size: nat) {
    Heap(d', cs') && Allocated(Blocks(d, cs), Blocks(d', cs'), size, p)
  }

  /** A free chunk is handed out whole. */
  lemma ClaimWhole(d: seq<byte>, d': seq<byte>, cs: seq<Cell>, k: nat, w: Cell, size: nat)
    requires Heap(d, cs) && k < |cs| && !cs[k].used && w == Cell(cs[k].off, cs[k].length, true)
    requires size <= w.length < RoundUp(size) + 8 + HEADER
    requires Carries(d', w, NextOff(cs, k), PrevOff(cs, k)) && |d'| == |d|
    requires SameOutside(d, d', w.off, w.off + HEADER)
    ensures Heap(d', Splice(cs, k, k + 1, [w]))
    ensures Allocated(Blocks(d, cs), Blocks(d', Splice(cs, k, k + 1, [w])), size, w.off + HEADER)
  {
    ChunkFacts(d, cs, k);
    if k + 1 < |cs| {
      HeaderFrame(d, d', cs[k + 1].off);
    }
    Replace1(d, d', cs, k, k + 1, k, w);
    FreshBlock(d, d', cs, Splice(cs, k, k + 1, [w]), k, w);
  }

  /** The front of a free chunk is handed out. */
  lemma ClaimFront(d: seq<byte>, d': seq<byte>, cs: seq<Cell>, k: nat, w: Cell, x: Cell, size: nat)
    requires Heap(d, cs) && k < |cs| && !cs[k].used && w == Cell(cs[k].off, RoundUp(size), true)
    requires x.off == w.End() && !x.used && x.End() == cs[k].End()
    requires Carries(d', w, x.off, PrevOff(cs, k)) && Carries(d', x, NextOff(cs, k), w.off)
    requires k + 1 < |cs| ==> Redirected(d, d', cs[k + 1].off, x.off)
    requires Confined(d, d', cs, k, k + 1)
    ensures Heap(d', Splice(cs, k, k + 1, [w, x]))
    ensures Allocated(Blocks(d, cs), Blocks(d', Splice(cs, k, k + 1, [w, x])), size, w.off + HEADER)
  {
    ChunkFacts(d, cs, k);
    Replace2(d, d', cs, k, k + 1, k, w, x);
    FreshBlock(d, d', cs, Splice(cs, k, k + 1, [w, x]), k, w);
  }

  /** What shrink_chunk leaves in memory: nothing changed, or the chunk cut and a free one behind it. */
  ghost predicate Shrunk(d: seq<byte>, d': seq<byte>, cur: nat, size: nat)
    requires cur + HEADER <= |d| == |d'|
  {
    var h, a := HeaderAt(d, cur), RoundUp(size);
    var rest := cur + HEADER + a;
    if h.length < a + 8 + HEADER then d' == d
    else
      && rest + HEADER <= |d| && rest < WORD
      && HeaderAt(d', cur) == h.(next := rest, length := a)
      && HeaderAt(d', rest) == Header(h.next, cur, h.length - a - HEADER, 0)
      && (h.next != 0 ==> Redirected(d, d', h.next, rest))
      && SameOutside(d, d', cur, if h.next == 0 then rest + HEADER else h.next + HEADER)
      && Agree(d, d', cur + HEADER, rest)
  }

  /** The subtraction on unsigned lengths does not go below zero, because all lengths are multiples of 8. */
  lemma RoundedBelow(size: nat, length: nat)
    requires length % 8 == 0 && size <= length
    ensures RoundUp(size) <= length
  {
    RoundingFits(0, length, size, RoundUp(size));
  }

  /** Cuts a chunk down to size bytes, rounded up, if what is left is worth a chunk. */
  method ShrinkChunk(d: array<byte>, cur: u32, size: u32)
    requires cur + HEADER <= d.Length < WORD
    requires var h := HeaderAt(d[..], cur);
      && h.length % 8 == 0 && size <= h.length && cur + HEADER + h.length <= d.Length
      && (h.next == 0 || (h.next == cur + HEADER + h.length && h.next + HEADER <= d.Length))
    modifies d
    ensures Shrunk(old(d[..]), d[..], cur, size)
  {
    var h := LoadHeader(d, cur);
    RoundUpExact(size);
    RoundedBelow(size, h.length);
    var rounded := RoundUp32(size);
    NoBorrow(h.length, rounded);
    if Sub32(h.length, rounded) >= 8 + HEADER {
      var rest: u32 := cur + HEADER + rounded;
      StorePair(d, cur, h.(next := rest, length := rounded), rest, Header(h.next, cur, h.length - rounded - HEADER, 0),
                h.next);
    }
  }

  /** The chunk was cut and then marked as in use. */
  lemma TakenFront(d: seq<byte>, d1: seq<byte>, d2: seq<byte>, cs: seq<Cell>, k: nat, size: nat)
    requires Heap(d, cs) && k < |cs| && !cs[k].used && cs[k].length >= RoundUp(size) + 8 + HEADER
    requires |d1| == |d2| == |d| && cs[k].off + HEADER <= |d| && Shrunk(d, d1, cs[k].off, size)
    requires HeaderAt(d2, cs[k].off) == HeaderAt(d1, cs[k].off).(inUse := 1)
    requires SameOutside(d1, d2, cs[k].off, cs[k].off + HEADER)
    ensures var a := RoundUp(size);
      var w, x := Cell(cs[k].off, a, true), Cell(cs[k].off + HEADER + a, cs[k].length - a - HEADER, false);
      && Carries(d2, w, x.off, PrevOff(cs, k)) && Carries(d2, x, NextOff(cs, k), w.off)
      && (k + 1 < |cs| ==> Redirected(d, d2, cs[k + 1].off, x.off))
      && Confined(d, d2, cs, k, k + 1)
  {
    ChunkFacts(d, cs, k);
    var x := cs[k].off + HEADER + RoundUp(size);
    HeaderFrame(d1, d2, x);
    if k + 1 < |cs| {
      HeaderFrame(d1, d2, cs[k + 1].off);
    }
  }

  lemma ShrunkLow(d: seq<byte>, d1: seq<byte>, d2: seq<byte>, cur: nat, size: nat)
    requires HEAP_START <= cur && cur + HEADER <= |d| == |d1| == |d2| && Shrunk(d, d1, cur, size)
    requires SameOutside(d1, d2, cur, cur + HEADER)
    ensures Agree(d, d2, 0, HEAP_START)
  {
    assert Agree(d, d1, 0, HEAP_START);
  }

  lemma ClaimUncut(d: seq<byte>, d': seq<byte>, cs: seq<Cell>, k: nat, w: Cell, size: nat, cs': seq<Cell>, p: nat)
    requires Heap(d, cs) && k < |cs| && Suits(cs, k, size) && w == Cell(cs[k].off, cs[k].length, true)
    requires w.length < RoundUp(size) + 8 + HEADER && cs[k].off + HEADER <= |d| == |d'|
    requires HeaderAt(d', cs[k].off) == HeaderAt(d, cs[k].off).(inUse := 1)
    requires SameOutside(d, d', cs[k].off, cs[k].off + HEADER)
    requires cs' == Splice(cs, k, k + 1, [w]) && p == w.off + HEADER
    ensures Given(d, d', cs, cs', p, size)
  {
    assert LinkedAt(d, cs, k);
    ClaimWhole(d, d', cs, k, w, size);
  }

  lemma ClaimLow(d: seq<byte>, d1: seq<byte>, d2: seq<byte>, cs: seq<Cell>, k: nat, size: nat)
    requires Heap(d, cs) && k < |cs| && cs[k].off + HEADER <= |d|
    requires |d1| == |d2| == |d| && Shrunk(d, d1, cs[k].off, size)
    requires SameOutside(d1, d2, cs[k].off, cs[k].off + HEADER)
    ensures Agree(d, d2, 0, HEAP_START)
  {
    ChunkFacts(d, cs, k);
    ShrunkLow(d, d1, d2, cs[k].off, size);
  }

  lemma ClaimCut(d: seq<byte>, d1: seq<byte>, d2: seq<byte>, cs: seq<Cell>, k: nat, w: Cell, x: Cell, size: nat,
                 cs': seq<Cell>, p: nat)
    requires Heap(d, cs) && k < |cs| && !cs[k].used && cs[k].length >= RoundUp(size) + 8 + HEADER
    requires w == Cell(cs[k].off, RoundUp(size), true)
    requires x == Cell(cs[k].off + HEADER + RoundUp(size), cs[k].length - RoundUp(size) - HEADER, false)
    requires |d1| == |d2| == |d| && cs[k].off + HEADER <= |d| && Shrunk(d, d1, cs[k].off, size)
    requires HeaderAt(d2, cs[k].off) == HeaderAt(d1, cs[k].off).(inUse := 1)
    requires SameOutside(d1, d2, cs[k].off, cs[k].off + HEADER)
    requires cs' == Splice(cs, k, k + 1, [w, x]) && p == w.off + HEADER
    ensures Given(d, d2, cs, cs', p, size)
  {
    TakenFront(d, d1, d2, cs, k, size);
    ClaimFront(d, d2, cs, k, w, x, size);
  }

  /** The list after chunk k was cut down to size, if that was worth it, and marked as in use. */
  lemma Claim(d: seq<byte>, d1: seq<byte>, d2: seq<byte>, cs: seq<Cell>, k: nat, size: nat, cs': seq<Cell>, p: nat)
    requires Heap(d, cs) && k < |cs| && Suits(cs, k, size) && cs[k].off + HEADER <= |d| && cs' == Claimed(cs, k, size)
    requires |d1| == |d2| == |d| && Shrunk(d, d1, cs[k].off, size) && p == cs[k].off + HEADER
    requires HeaderAt(d2, cs[k].off) == HeaderAt(d1, cs[k].off).(inUse := 1)
    requires SameOutside(d1, d2, cs[k].off, cs[k].off + HEADER)
    ensures Given(d, d2, cs, cs', p, size)
  {
    assert LinkedAt(d, cs, k);
    if cs[k].length < RoundUp(size) + 8 + HEADER {
      assert d1 == d;
      CutNone(cs[k].off, cs[k].length, size);
      ClaimUncut(d, d2, cs, k, Cell(cs[k].off, cs[k].length, true), size, cs', p);
    } else {
      var a := RoundUp(size);
      var w, x := Cell(cs[k].off, a, true), Cell(cs[k].off + HEADER + a, cs[k].length - a - HEADER, false);
      CutTwo(cs[k].off, cs[k].length, size, w, x);
      ClaimCut(d, d1, d2, cs, k, w, x, size, cs', p);
    }
  }

  // ---------------------------------------------------------------------------
  // Freeing

  /**
   In the middle of freeing chunk i: cells i..b are one free chunk w with the links it should have,
   the chunk after it is in use, and nothing has been done yet about a free chunk before it.
   */
  ghost predicate Loose(d: seq<byte>, d': seq<byte>, cs: seq<Cell>, i: nat, b: nat, w: Cell) {
    && Heap(d, cs) && i < b <= i + 2 && b <= |cs| && cs[i].used && (b == i + 2 ==> !cs[i + 1].used)
    && (b < |cs| ==> cs[b].used)
    && w.off == cs[i].off && !w.used && w.End() == WindowEnd(cs, b, |d|)
    && Carries(d', w, if b < |cs| then cs[b].off else 0, PrevOff(cs, i))
    && (b < |cs| ==> Redirected(d, d', cs[b].off, w.off))
    && SameOutside(d, d', cs[i].off, if b < |cs| then cs[b].off + HEADER else |d|)
  }

  /** The list is cs' now, block p is gone, and every other block is as it was. */
  ghost predicate Released(d: seq<byte>, d': seq<byte>, cs: seq<Cell>, cs': seq<Cell>, p: nat) {
    Heap(d', cs') && Blocks(d', cs') == Blocks(d, cs) - {p}
  }

  lemma ReleaseLoose(d: seq<byte>, d': seq<byte>, cs: seq<Cell>, i: nat, b: nat, w: Cell, cs': seq<Cell>, p: nat)
    requires Loose(d, d', cs, i, b, w) && (i > 0 ==> cs[i - 1].used)
    requires cs' == Splice(cs, i, b, [w]) && p == cs[i].off + HEADER
    ensures Released(d, d', cs, cs', p)
  {
    Replace1(d, d', cs, i, b, i, w);
    AddNothing(Blocks(d, cs) - {cs[i].off + HEADER});
  }

  /** The chunk before is free as well: it takes the loose chunk in. */
  lemma ReleasePrev(d: seq<byte>, d1: seq<byte>, d2: seq<byte>, cs: seq<Cell>, i: nat, b: nat, w: Cell, w': Cell,
                    cs': seq<Cell>, p: nat)
    requires Loose(d, d1, cs, i, b, w) && i > 0 && !cs[i - 1].used && |d2| == |d1|
    requires w' == Cell(cs[i - 1].off, cs[i - 1].length + HEADER + w.length, false)
    requires cs[i - 1].off + HEADER <= |d| && w'.length < WORD
    requires var h := HeaderAt(d, cs[i - 1].off);
      HeaderAt(d2, w'.off) == h.(next := HeaderAt(d2, w'.off).next, length := w'.length)
    requires HeaderAt(d2, w'.off).next == if b < |cs| then cs[b].off else 0
    requires b < |cs| ==> Redirected(d1, d2, cs[b].off, w'.off)
    requires Agree(d1, d2, HEADER, w'.off) && Agree(d1, d2, if b < |cs| then cs[b].off + HEADER else |d|, |d|)
    requires cs' == Splice(cs, i - 1, b, [w']) && p == cs[i].off + HEADER
    ensures Released(d, d2, cs, cs', p)
  {
    PrevLinks(d, d1, d2, cs, i, b, w, w');
    assert i > 1 ==> OneUsed(cs, i - 2);
    Replace1(d, d2, cs, i - 1, b, i, w');
    AddNothing(Blocks(d, cs) - {cs[i].off + HEADER});
  }

  lemma PrevLinks(d: seq<byte>, d1: seq<byte>, d2: seq<byte>, cs: seq<Cell>, i: nat, b: nat, w: Cell, w': Cell)
    requires Loose(d, d1, cs, i, b, w) && i > 0 && !cs[i - 1].used && |d2| == |d1|
    requires w' == Cell(cs[i - 1].off, cs[i - 1].length + HEADER + w.length, false)
    requires cs[i - 1].off + HEADER <= |d| && w'.length < WORD
    requires var h := HeaderAt(d, cs[i - 1].off);
      HeaderAt(d2, w'.off) == h.(next := HeaderAt(d2, w'.off).next, length := w'.length)
    requires HeaderAt(d2, w'.off).next == if b < |cs| then cs[b].off else 0
    requires b < |cs| ==> Redirected(d1, d2, cs[b].off, w'.off)
    requires Agree(d1, d2, HEADER, w'.off) && Agree(d1, d2, if b < |cs| then cs[b].off + HEADER else |d|, |d|)
    ensures w'.End() == w.End() && Confined(d, d2, cs, i - 1, b)
    ensures Carries(d2, w', if b < |cs| then cs[b].off else 0, PrevOff(cs, i - 1))
    ensures b < |cs| ==> Redirected(d, d2, cs[b].off, w'.off)
  {
    ChunkFacts(d, cs, i - 1);
    ChunkFacts(d, cs, i);
  }

  lemma PagesAligned(pages: nat)
    ensures (pages * 0x1_0000) % 8 == 0
  {
    assert pages * 0x1_0000 == 8 * (pages * 0x2000);
  }

  /** A memory with one free chunk from the heap's start to its end. */
  lemma OneChunk(d: seq<byte>, pages: nat)
    requires 2 <= pages < 0x1_0000 && |d| == pages * 0x1_0000
    requires HeaderAt(d, HEAP_START) == Header(0, 0, |d| - HEAP_START - HEADER, 0)
    ensures var cs := [Cell(HEAP_START, |d| - HEAP_START - HEADER, false)];
      Heap(d, cs) && Blocks(d, cs) == map[]
  {
    var cs := [Cell(HEAP_START, |d| - HEAP_START - HEADER, false)];
    PagesAligned(pages);
    OneCell(d, cs);
    NoBlocks(d, cs);
  }

  lemma OneCell(d: seq<byte>, cs: seq<Cell>)
    requires HEAP_START + HEADER <= |d| < WORD && |d| % 8 == 0
    requires HeaderAt(d, HEAP_START) == Header(0, 0, |d| - HEAP_START - HEADER, 0)
    requires cs == [Cell(HEAP_START, |d| - HEAP_START - HEADER, false)]
    ensures Heap(d, cs)
  {
    assert LinkedAt(d, cs, 0) && InPlace(cs, 0, |d|) && AlignedAt(cs, 0) && Tiled(cs, 0, |d|);
  }

  /** Bytes below the heap are as before, except where a store through a null chunk pointer lands. */
  ghost predicate LowKept(d: seq<byte>, d': seq<byte>) {
    Agree(d, d', 0, 4) && Agree(d, d', 8, HEAP_START)
  }

  /** The same, with the word that is there now. */
  ghost predicate LowWord(d: seq<byte>, d': seq<byte>, word: nat) {
    LowKept(d, d') && 8 <= |d'| && Get32(d', 4) == word
  }

  lemma LowSame(d: seq<byte>, d': seq<byte>)
    requires HEAP_START <= |d| == |d'| && Agree(d, d', 0, HEAP_START)
    ensures LowWord(d, d', Get32(d, 4))
  {
    Get32Frame(d, d', 4);
  }

  /** Freeing chunk i changes nothing below the heap, except by storing through null. */
  ghost predicate LowFreed(d: seq<byte>, d': seq<byte>, cs: seq<Cell>, i: nat) {
    && LowKept(d, d') && HEAP_START <= |d'|
    && (StoresThroughNull(cs, i) ==> 0 < i <= |cs| && Get32(d', 4) == cs[i - 1].off)
    && (!StoresThroughNull(cs, i) ==> Agree(d, d', 0, HEAP_START))
  }

  lemma LowAbsorbed(d: seq<byte>, d1: seq<byte>, d2: seq<byte>, cs: seq<Cell>, i: nat, next: nat, prev: nat)
    requires Agree(d, d1, 0, HEAP_START) && LowKept(d1, d2) && HEAP_START <= |d2|
    requires 0 < i <= |cs| && prev == cs[i - 1].off && (StoresThroughNull(cs, i) <==> next == 0)
    requires if next == 0 then Get32(d2, 4) == prev else Agree(d1, d2, 0, HEAP_START)
    ensures LowFreed(d, d2, cs, i)
  {
  }

  lemma LoosenNext(d: seq<byte>, d1: seq<byte>, d2: seq<byte>, cs: seq<Cell>, i: nat, w: Cell)
    requires Heap(d, cs) && i + 1 < |cs| && cs[i].used && !cs[i + 1].used && |d1| == |d2|
    requires SameOutside(d, d1, cs[i].off, cs[i].off + HEADER)
    requires w == Cell(cs[i].off, cs[i].length + cs[i + 1].length + HEADER, false)
    requires Carries(d2, w, NextOff(cs, i + 1), PrevOff(cs, i))
    requires i + 2 < |cs| ==> Redirected(d1, d2, cs[i + 2].off, w.off)
    requires SameOutside(d1, d2, w.off, if i + 2 < |cs| then cs[i + 2].off + HEADER else |d|)
    ensures Loose(d, d2, cs, i, i + 2, w)
  {
    ChunkFacts(d, cs, i);
    ChunkFacts(d, cs, i + 1);
    var hi := if i + 2 < |cs| then cs[i + 2].off + HEADER else |d|;
    OutsideTrans(d, d1, d2, cs[i].off, cs[i].off, cs[i].off + HEADER, hi);
    if i + 2 < |cs| {
      RedirectTrans(d, d1, d2, cs[i].off, cs[i].off + HEADER, cs[i + 2].off, w.off);
    }
  }

  /** The two stores that merge a loose chunk into the one before it, in memory. */
  lemma PrevStores(d: seq<byte>, d1: seq<byte>, d2: seq<byte>, d3: seq<byte>, cs: seq<Cell>, i: nat, b: nat, w: Cell,
                   w': Cell, next: nat)
    requires Loose(d, d1, cs, i, b, w) && i > 0 && |d| == |d2| == |d3|
    requires w' == Cell(cs[i - 1].off, cs[i - 1].length + HEADER + w.length, false)
    requires next == if b < |cs| then cs[b].off else 0
    requires SameOutside(d1, d2, w'.off, w'.off + HEADER)
    requires Redirected(d2, d3, next, w'.off) && SameOutside(d2, d3, next + 4, next + 8)
    requires w'.off + HEADER <= |d|
    ensures HeaderAt(d3, w'.off) == HeaderAt(d2, w'.off)
    ensures b < |cs| ==> Redirected(d1, d3, cs[b].off, w'.off)
    ensures Agree(d1, d3, HEADER, w'.off) && Agree(d1, d3, if b < |cs| then cs[b].off + HEADER else |d|, |d|)
    ensures LowKept(d1, d3)
    ensures if next == 0 then Get32(d3, 4) == w'.off else Agree(d1, d3, 0, HEAP_START)
  {
    ChunkFacts(d, cs, i - 1);
    ChunkFacts(d, cs, i);
    if b < |cs| {
      ChunkFacts(d, cs, b);
      OrderedPair(cs, |d|, i, b);
      HeaderFrame(d1, d2, cs[b].off);
    }
    HeaderFrame(d2, d3, w'.off);
  }

  lemma LooseFacts(d: seq<byte>, d': seq<byte>, cs: seq<Cell>, i: nat, b: nat, w: Cell)
    requires Loose(d, d', cs, i, b, w)
    ensures HEAP_START <= cs[i].off && cs[i].off + HEADER <= |d| == |d'|
    ensures i > 0 ==> cs[i - 1].off >= HEAP_START && cs[i - 1].off + HEADER <= cs[i].off
    ensures i > 0 ==> HeaderAt(d', cs[i - 1].off) == HeaderAt(d, cs[i - 1].off)
    ensures i > 0 ==> (HeaderAt(d, cs[i - 1].off).inUse != 0 <==> cs[i - 1].used)
    ensures Agree(d, d', 0, HEAP_START)
    ensures i > 0 && !cs[i - 1].used ==> (StoresThroughNull(cs, i) <==> b == |cs|)
  {
    ChunkFacts(d, cs, i);
    if i > 0 {
      ChunkFacts(d, cs, i - 1);
      HeaderFrame(d, d', cs[i - 1].off);
    }
  }

  lemma LooseNext(d: seq<byte>, d': seq<byte>, cs: seq<Cell>, i: nat, b: nat, w: Cell, next: nat)
    requires Loose(d, d', cs, i, b, w) && next == if b < |cs| then cs[b].off else 0
    ensures next + HEADER <= |d| && (next == 0 <==> b == |cs|)
  {
    if b < |cs| {
      ChunkFacts(d, cs, b);
    }
  }

  /** The list once chunk i, loosened to w, has joined the free chunk before it, if there is one. */
  ghost predicate Joined(cs: seq<Cell>, i: nat, b: nat, w: Cell, cs': seq<Cell>) {
    && i < b <= |cs|
    && (i > 0 && !cs[i - 1].used ==>
          cs' == Splice(cs, i - 1, b, [Cell(cs[i - 1].off, cs[i - 1].length + w.length + HEADER, false)]))
    && ((i > 0 ==> cs[i - 1].used) ==> cs' == Splice(cs, i, b, [w]))
  }

  lemma FreedJoined(cs: seq<Cell>, i: nat)
    requires i < |cs| && LooseEnd(cs, i) <= |cs|
    ensures Joined(cs, i, LooseEnd(cs, i), LooseCell(cs, i), Freed(cs, i))
  {
  }

  /** The chunk before is used: the loose chunk stays alone. */
  lemma SettleAlone(d: seq<byte>, d': seq<byte>, cs: seq<Cell>, i: nat, b: nat, w: Cell, cs': seq<Cell>, p: nat)
    requires Loose(d, d', cs, i, b, w) && Joined(cs, i, b, w, cs') && p == cs[i].off + HEADER
    requires i > 0 ==> cs[i - 1].used
    ensures Released(d, d', cs, cs', p) && LowFreed(d, d', cs, i)
  {
    LooseFacts(d, d', cs, i, b, w);
    ReleaseLoose(d, d', cs, i, b, w, cs', p);
  }

  lemma LooseLengths(d: seq<byte>, d': seq<byte>, cs: seq<Cell>, i: nat, b: nat, w: Cell)
    requires Loose(d, d', cs, i, b, w) && i > 0
    ensures cs[i - 1].off + HEADER <= |d| && HeaderAt(d, cs[i - 1].off).length == cs[i - 1].length
    ensures HeaderAt(d', w.off).length == w.length && cs[i - 1].length + w.length + HEADER < WORD
  {
    ChunkFacts(d, cs, i - 1);
    ChunkFacts(d, cs, i);
  }

  lemma NotNull(d: seq<byte>, cs: seq<Cell>)
    requires Heap(d, cs)
    ensures 0 !in Blocks(d, cs) && forall i | 0 <= i < |cs| :: cs[i].off != 0
  {
    if 0 in Blocks(d, cs) {
      var i := BlockCell(d, cs, 0);
    }
    forall i | 0 <= i < |cs|
      ensures cs[i].off != 0
    {
      ChunkFacts(d, cs, i);
    }
  }

  /** A live block is found in the list. */
  lemma BlockIndex(d: seq<byte>, cs: seq<Cell>, p: nat, i: nat)
    requires Heap(d, cs) && p in Blocks(d, cs) && i == Index(cs, p)
    ensures i < |cs| && cs[i].used && cs[i].off + HEADER == p && Blocks(d, cs)[p] == Payload(d, cs[i])
  {
    var k := BlockCell(d, cs, p);
    if k < i {
      OrderedPair(cs, |d|, k, i);
    } else if i < k {
      OrderedPair(cs, |d|, i, k);
    }
    CellBlock(d, cs, i);
  }

  // ---------------------------------------------------------------------------
  // Reallocation

  /** Block p became block q of at least size bytes, keeping its bytes up to the shorter of its length and size. */
  ghost predicate Regrown(m: map<nat, seq<byte>>, m': map<nat, seq<byte>>, p: nat, q: nat, size: nat) {
    && p in m && q in m' && size <= |m'[q]| < RoundUp(size) + 8 + HEADER
    && m' - {q} == m - {p}
    && m[p][..Min(|m[p]|, size)] == m'[q][..Min(|m[p]|, size)]
  }

  /** The list is cs' now, and block p is resized where it is. */
  ghost predicate Kept(d: seq<byte>, d': seq<byte>, cs: seq<Cell>, cs': seq<Cell>, p: nat, size: nat) {
    Heap(d', cs') && Regrown(Blocks(d, cs), Blocks(d', cs'), p, p, size)
  }

  /** What taking in the next chunk leaves in memory. */
  ghost predicate TookNext(d: seq<byte>, d': seq<byte>, cs: seq<Cell>, i: nat)
    requires i + 1 < |cs|
  {
    var total, next := cs[i].length + cs[i + 1].length + HEADER, NextOff(cs, i + 1);
    && cs[i].off + HEADER <= |d| == |d'| && total < WORD && next < WORD
    && HeaderAt(d', cs[i].off) == HeaderAt(d, cs[i].off).(next := next, length := total)
    && (next != 0 ==> Redirected(d, d', next, cs[i].off))
    && SameOutside(d, d', cs[i].off, if next == 0 then cs[i].off + HEADER else next + HEADER)
    && Agree(d, d', cs[i].off + HEADER, cs[i + 1].off)
  }

  /** Block p is that of chunk c in one heap and of chunk w in the other, with the same bytes up to size. */
  lemma RegrownBlock(d: seq<byte>, d': seq<byte>, c: Cell, w: Cell, m: map<nat, seq<byte>>, m': map<nat, seq<byte>>,
                     size: nat, p: nat)
    requires w.off == c.off && w.End() <= |d'| == |d| && c.End() <= |d| && p == w.off + HEADER
    requires size <= w.length < RoundUp(size) + 8 + HEADER && Agree(d, d', p, p + Min(c.length, size))
    requires Swapped(m, m', p, Payload(d, c), Payload(d', w))
    ensures Regrown(m, m', p, p, size)
  {
    PayloadPrefix(d, d', c, w, Min(c.length, size));
  }

  lemma RegrownCell(d: seq<byte>, d': seq<byte>, cs: seq<Cell>, cs': seq<Cell>, i: nat, w: Cell, size: nat, p: nat)
    requires i < |cs| && cs[i].used && w.used && w.off == cs[i].off && w.End() <= |d'| == |d| && cs[i].End() <= |d|
    requires Ordered(cs, |d|) && BlocksChange(d, d', cs, cs', cs[i], w) && size <= w.length < RoundUp(size) + 8 + HEADER
    requires p == w.off + HEADER && Agree(d, d', p, p + Min(cs[i].length, size))
    ensures Regrown(Blocks(d, cs), Blocks(d', cs'), p, p, size)
  {
    BlockReplaced(d, d', cs, cs', i, w, p);
    RegrownBlock(d, d', cs[i], w, Blocks(d, cs), Blocks(d', cs'), size, p);
  }

  lemma TookWhole(d: seq<byte>, d1: seq<byte>, cs: seq<Cell>, i: nat, w: Cell, size: nat, cs': seq<Cell>, p: nat)
    requires Heap(d, cs) && CanMerge(cs, i, size) && cs[i].used && TookNext(d, d1, cs, i)
    requires w == Cell(cs[i].off, cs[i].length + cs[i + 1].length + HEADER, true)
    requires w.length < RoundUp(size) + 8 + HEADER
    requires cs' == Splice(cs, i, i + 2, [w]) && p == w.off + HEADER
    ensures Kept(d, d1, cs, cs', p, size)
  {
    ChunkFacts(d, cs, i);
    ChunkFacts(d, cs, i + 1);
    Replace1(d, d1, cs, i, i + 2, i, w);
    RegrownCell(d, d1, cs, cs', i, w, size, p);
  }

  lemma TookLinks(d: seq<byte>, d1: seq<byte>, d2: seq<byte>, cs: seq<Cell>, i: nat, w: Cell, x: Cell, size: nat)
    requires Heap(d, cs) && CanMerge(cs, i, size) && cs[i].used && TookNext(d, d1, cs, i)
    requires |d1| == |d2| && Shrunk(d1, d2, cs[i].off, size)
    requires w == Cell(cs[i].off, RoundUp(size), true)
    requires x.off == w.End() && !x.used && x.End() == cs[i + 1].End() && x.length >= 8
    ensures Carries(d2, w, x.off, PrevOff(cs, i)) && Carries(d2, x, NextOff(cs, i + 1), w.off)
    ensures i + 2 < |cs| ==> Redirected(d, d2, cs[i + 2].off, x.off)
    ensures Confined(d, d2, cs, i, i + 2)
    ensures Agree(d, d2, w.off + HEADER, if x.off <= cs[i + 1].off then x.off else cs[i + 1].off)
  {
    ChunkFacts(d, cs, i);
    ChunkFacts(d, cs, i + 1);
  }

  lemma TookCut(d: seq<byte>, d1: seq<byte>, d2: seq<byte>, cs: seq<Cell>, i: nat, w: Cell, x: Cell, size: nat,
                cs': seq<Cell>, p: nat)
    requires Heap(d, cs) && CanMerge(cs, i, size) && cs[i].used && TookNext(d, d1, cs, i)
    requires |d1| == |d2| && Shrunk(d1, d2, cs[i].off, size)
    requires w == Cell(cs[i].off, RoundUp(size), true)
    requires x.off == w.End() && !x.used && x.End() == cs[i + 1].End() && x.length >= 8
    requires cs' == Splice(cs, i, i + 2, [w, x]) && p == w.off + HEADER
    ensures Kept(d, d2, cs, cs', p, size)
  {
    ChunkFacts(d, cs, i);
    ChunkFacts(d, cs, i + 1);
    TookLinks(d, d1, d2, cs, i, w, x, size);
    assert i + 2 < |cs| ==> OneUsed(cs, i + 1);
    Replace2(d, d2, cs, i, i + 2, i, w, x);
    RegrownCell(d, d2, cs, cs', i, w, size, p);
  }

  /** What the chunk behind and the cut mean in memory. */
  lemma TookShape(d: seq<byte>, d1: seq<byte>, d2: seq<byte>, cs: seq<Cell>, i: nat, size: nat, total: nat)
    requires Heap(d, cs) && i + 1 < |cs| && TookNext(d, d1, cs, i) && total == cs[i].length + cs[i + 1].length + HEADER
    requires |d1| == |d2| && Shrunk(d1, d2, cs[i].off, size)
    ensures cs[i].off + HEADER + total == cs[i + 1].End() && (total < RoundUp(size) + 8 + HEADER ==> d2 == d1)
  {
    assert Tiled(cs, i, |d|);
  }

  lemma Took(d: seq<byte>, d1: seq<byte>, d2: seq<byte>, cs: seq<Cell>, i: nat, size: nat, cs': seq<Cell>, p: nat)
    requires Heap(d, cs) && CanMerge(cs, i, size) && cs[i].used && TookNext(d, d1, cs, i)
    requires cs' == Extended(cs, i, size)
    requires |d1| == |d2| && Shrunk(d1, d2, cs[i].off, size) && p == cs[i].off + HEADER
    ensures Kept(d, d2, cs, cs', p, size)
  {
    var total := cs[i].length + cs[i + 1].length + HEADER;
    TookShape(d, d1, d2, cs, i, size, total);
    if total < RoundUp(size) + 8 + HEADER {
      CutNone(cs[i].off, total, size);
      TookWhole(d, d2, cs, i, Cell(cs[i].off, total, true), size, cs', p);
    } else {
      var a := RoundUp(size);
      var w, x := Cell(cs[i].off, a, true), Cell(cs[i].off + HEADER + a, total - a - HEADER, false);
      CutTwo(cs[i].off, total, size, w, x);
      TookCut(d, d1, d2, cs, i, w, x, size, cs', p);
    }
  }

  lemma TookReady(d: seq<byte>, d1: seq<byte>, cs: seq<Cell>, i: nat)
    requires Heap(d, cs) && i + 1 < |cs| && TookNext(d, d1, cs, i)
    ensures var h := HeaderAt(d1, cs[i].off);
      && h.length % 8 == 0 && cs[i].End() <= |d| && cs[i].off + HEADER + h.length <= |d|
      && (h.next == 0 || (h.next == cs[i].off + HEADER + h.length && h.next + HEADER <= |d|))
  {
    ChunkFacts(d, cs, i);
    ChunkFacts(d, cs, i + 1);
    LengthAligned(d, cs, i);
    LengthAligned(d, cs, i + 1);
    AlignedSum(cs[i].length, cs[i + 1].length);
  }

  lemma TookLow(d: seq<byte>, d1: seq<byte>, d2: seq<byte>, cs: seq<Cell>, i: nat, size: nat)
    requires Heap(d, cs) && i + 1 < |cs| && TookNext(d, d1, cs, i)
    requires |d1| == |d2| && Shrunk(d1, d2, cs[i].off, size)
    ensures Agree(d, d2, 0, HEAP_START)
  {
    ChunkFacts(d, cs, i);
    assert Agree(d, d1, 0, HEAP_START) && Agree(d1, d2, 0, HEAP_START);
  }

  /** Bytes change only inside block q, which is in chunk i. */
  lemma Overwrite(d: seq<byte>, d': seq<byte>, cs: seq<Cell>, i: nat, q: nat, end: nat)
    requires Heap(d, cs) && i < |cs| && cs[i].used && q == cs[i].off + HEADER && end == cs[i].End()
    requires SameOutside(d, d', q, end)
    ensures Heap(d', cs)
    ensures Blocks(d', cs) == Blocks(d, cs)[q := Payload(d', cs[i])]
  {
    OverwriteHeaders(d, d', cs, i, q, end);
    Replace1(d, d', cs, i, i + 1, i, cs[i]);
    assert Splice(cs, i, i + 1, [cs[i]]) == cs;
  }

  /** The headers around block q are as before. */
  lemma OverwriteHeaders(d: seq<byte>, d': seq<byte>, cs: seq<Cell>, i: nat, q: nat, end: nat)
    requires Heap(d, cs) && i < |cs| && cs[i].used && q == cs[i].off + HEADER && end == cs[i].End()
    requires SameOutside(d, d', q, end)
    ensures Carries(d', cs[i], NextOff(cs, i), PrevOff(cs, i)) && Confined(d, d', cs, i, i + 1)
    ensures cs[i].End() == WindowEnd(cs, i + 1, |d|)
    ensures i + 1 < |cs| ==> Redirected(d, d', cs[i + 1].off, cs[i].off)
  {
    ChunkFacts(d, cs, i);
    HeaderFrame(d, d', cs[i].off);
    if i + 1 < |cs| {
      HeaderFrame(d, d', cs[i + 1].off);
    }
  }

  lemma CopiedBytes(d: seq<byte>, d': seq<byte>, c: Cell, w: Cell, q: nat, p: nat, n: nat)
    requires c.End() <= |d| && w.End() <= |d| && n <= c.length && n <= w.length && p == c.off + HEADER
    requires q == w.off + HEADER
    requires IsCopied(d, d', q, p, n)
    ensures Payload(d', w) == Payload(d, c)[..n] + Payload(d, w)[n..]
  {
    var a, b := Payload(d', w), Payload(d, c)[..n] + Payload(d, w)[n..];
    forall k | 0 <= k < w.length
      ensures a[k] == b[k]
    {
      assert a[k] == d'[q + k] && b[k] == if k < n then d[p + k] else d[q + k];
    }
  }

  /** The first n bytes of block p are copied over those of block q. */
  ghost predicate FrontCopied(m: map<nat, seq<byte>>, m': map<nat, seq<byte>>, p: nat, q: nat, n: nat) {
    p in m && q in m && n <= |m[p]| && n <= |m[q]| && m' == m[q := m[p][..n] + m[q][n..]]
  }

  lemma CopiedOutside(d: seq<byte>, d': seq<byte>, q: nat, p: nat, n: nat, lo: nat, hi: nat)
    requires IsCopied(d, d', q, p, n) && HEAP_START <= lo <= q && q + n <= hi
    ensures SameOutside(d, d', lo, hi) && Agree(d, d', 0, HEAP_START)
  {
  }

  lemma FrontBlocks(d: seq<byte>, d': seq<byte>, cs: seq<Cell>, i: nat, j: nat, p: nat, q: nat, n: nat)
    requires Ordered(cs, |d|) && i < |cs| && j < |cs| && cs[i].used && cs[j].used && p == cs[i].off + HEADER
    requires q == cs[j].off + HEADER
    requires n <= cs[i].length && n <= cs[j].length && cs[i].End() <= |d| && cs[j].End() <= |d|
    requires Blocks(d', cs) == Blocks(d, cs)[q := Payload(d', cs[j])]
    requires Payload(d', cs[j]) == Payload(d, cs[i])[..n] + Payload(d, cs[j])[n..]
    ensures FrontCopied(Blocks(d, cs), Blocks(d', cs), p, q, n)
  {
    CellBlock(d, cs, i);
    CellBlock(d, cs, j);
  }

  lemma InHeap(d: seq<byte>, cs: seq<Cell>, j: nat)
    requires Heap(d, cs) && j < |cs|
    ensures HEAP_START <= cs[j].off && Ordered(cs, |d|)
  {
    ChunkFacts(d, cs, j);
  }

  lemma CopiedFront(d: seq<byte>, d': seq<byte>, cs: seq<Cell>, i: nat, j: nat, p: nat, q: nat, n: nat)
    requires Heap(d, cs) && i < |cs| && j < |cs| && cs[i].used && cs[j].used && p == cs[i].off + HEADER
    requires q == cs[j].off + HEADER
    requires n <= cs[i].length && n <= cs[j].length && cs[i].End() <= |d| && cs[j].End() <= |d|
    requires IsCopied(d, d', q, p, n)
    ensures Heap(d', cs) && Agree(d, d', 0, HEAP_START) && FrontCopied(Blocks(d, cs), Blocks(d', cs), p, q, n)
  {
    InHeap(d, cs, j);
    CopiedOutside(d, d', q, p, n, q, cs[j].End());
    CopiedBytes(d, d', cs[i], cs[j], q, p, n);
    Overwrite(d, d', cs, j, q, cs[j].End());
    FrontBlocks(d, d', cs, i, j, p, q, n);
  }

  /** Where the bytes of two blocks are; a whole number of words reaches past neither of them. */
  lemma CopyRanges(d: seq<byte>, cs: seq<Cell>, p: nat, q: nat, len: nat) returns (i: nat, j: nat)
    requires Heap(d, cs) && p in Blocks(d, cs) && q in Blocks(d, cs) && p != q
    requires len <= |Blocks(d, cs)[p]| && len <= |Blocks(d, cs)[q]|
    ensures i < |cs| && j < |cs| && cs[i].used && cs[j].used && p == cs[i].off + HEADER && q == cs[j].off + HEADER
    ensures cs[i].End() <= |d| && cs[j].End() <= |d|
    ensures Blocks(d, cs)[p] == Payload(d, cs[i]) && Blocks(d, cs)[q] == Payload(d, cs[j])
    ensures RoundUp(len) <= cs[i].length && RoundUp(len) <= cs[j].length
    ensures p + cs[i].length <= q || q + cs[j].length <= p
  {
    i := BlockCell(d, cs, p);
    j := BlockCell(d, cs, q);
    CellBlock(d, cs, i);
    CellBlock(d, cs, j);
    LengthAligned(d, cs, i);
    LengthAligned(d, cs, j);
    OrderedPair(cs, |d|, i, |cs|);
    OrderedPair(cs, |d|, j, |cs|);
    RoundedBelow(len, cs[i].length);
    RoundedBelow(len, cs[j].length);
    if p < q {
      BlocksDisjoint(d, cs, p, q);
    } else {
      BlocksDisjoint(d, cs, q, p);
    }
  }

  /** A moved block: a new one, given the old bytes rounded up to whole words, and then the old one dropped. */
  lemma MovedBlock(m: map<nat, seq<byte>>, m1: map<nat, seq<byte>>, m2: map<nat, seq<byte>>, p: nat, q: nat, size: nat,
                   n: nat)
    requires p in m && p in m1 && m1[p] == m[p] && Allocated(m, m1, size, q)
    requires Min(|m[p]|, size) <= n && FrontCopied(m1, m2, p, q, n)
    ensures Regrown(m, m2 - {p}, p, q, size)
  {
    assert p != q;
    assert (m2 - {p}) - {q} == m - {p};
    assert (m2 - {p})[q] == m2[q];
  }

  /** The words that hold len bytes; a count of none of them reaches past all of memory. */
  lemma WordCount(len: nat, limit: nat)
    requires len <= limit < WORD
    ensures (len + 7) / 8 < WORD
    ensures if len == 0 then 8 * Passes((len + 7) / 8) > limit else 8 * Passes((len + 7) / 8) == RoundUp(len)
  {
  }

  class Memory {
    const mem: array<byte>
    ghost var cells: seq<Cell>

    ghost predicate Valid()
      reads this, mem
    {
      Heap(mem[..], cells)
    }

    /** The live blocks and their bytes. */
    ghost function Contents(): map<nat, seq<byte>>
      requires Valid()
      reads this, mem
    {
      Blocks(mem[..], cells)
    }

    /** The state after __init_heap on a memory of the given number of 64 KiB pages. */
    constructor InitHeap(mem: array<byte>, pages: nat)
      requires 2 <= pages < 0x1_0000 && mem.Length == pages * 0x1_0000
      modifies mem
      ensures this.mem == mem && Valid() && Contents() == map[]
      ensures cells == [Cell(HEAP_START, mem.Length - HEAP_START - HEADER, false)]
      ensures Agree(old(mem[..]), mem[..], 0, HEAP_START)
    {
      this.mem := mem;
      NoBorrow(pages * 0x1_0000, HEAP_START);
      NoBorrow(pages * 0x1_0000 - HEAP_START, HEADER);
      var length := Sub32(Sub32(pages * 0x1_0000, HEAP_START), HEADER);
      cells := [Cell(HEAP_START, pages * 0x1_0000 - HEAP_START - HEADER, false)];
      new;
      StoreHeader(mem, HEAP_START, Header(0, 0, length, 0));
      OneChunk(mem[..], pages);
    }

    /** Takes chunk k, cut down to the requested size. */
    method Take(ghost k: nat, cur: u32, size: u32)
      requires Valid() && k < |cells| && Suits(cells, k, size) && cur == cells[k].off
      modifies mem, this`cells
      ensures Valid() && Allocated(old(Contents()), Contents(), size, cur + HEADER)
      ensures cells == Claimed(old(cells), k, size) && Agree(old(mem[..]), mem[..], 0, HEAP_START)
    {
      ghost var d, cs := mem[..], cells;
      ChunkFacts(d, cs, k);
      LengthAligned(d, cs, k);
      ShrinkChunk(mem, cur, size);
      ghost var d1 := mem[..];
      var h := LoadHeader(mem, cur);
      StoreHeader(mem, cur, h.(inUse := 1));
      cells := Claimed(cs, k, size);
      Claim(d, d1, mem[..], cs, k, size, cells, cur + HEADER);
      ClaimLow(d, d1, mem[..], cs, k, size);
    }

    /** First fit; 0 when no free chunk is long enough, where the original stops the program. */
    method Malloc(size: u32) returns (p: u32)
      requires Valid()
      modifies mem, this`cells
      ensures Valid() && Agree(old(mem[..]), mem[..], 0, HEAP_START)
      ensures p == MallocAddress(old(cells), size) && cells == Malloced(old(cells), size)
      ensures if p == 0 then mem[..] == old(mem[..]) && NoneLong(old(cells), size)
              else
                && Allocated(old(Contents()), Contents(), size, p)
                && exists k | 0 <= k < |old(cells)| :: FirstLong(old(cells), k, size, p)
    {
      MallocMeaning(cells, size);
      var cur: u32 := HEAP_START;
      ghost var k := 0;
      while cur != 0
        invariant if cur == 0 then k == |cells| else k < |cells| && cur == cells[k].off
        invariant cells == old(cells) && mem[..] == old(mem[..])
        invariant k <= |cells| && Pick(cells, k, size) == Pick(cells, 0, size)
        decreases |cells| - k
      {
        ChunkFacts(mem[..], cells, k);
        var h := LoadHeader(mem, cur);
        if !(h.inUse != 0 || size > h.length) {
          Take(k, cur, size);
          return cur + HEADER;
        }
        cur := h.next;
        k := k + 1;
      }
      p := 0;
    }

    /** Marks chunk i free and merges it with the chunk behind it, if that is free. */
    method Loosen(ghost i: nat, cur: u32) returns (next: u32, ghost b: nat, ghost w: Cell)
      requires Valid() && i < |cells| && cells[i].used && cur == cells[i].off
      modifies mem
      ensures Loose(old(mem[..]), mem[..], cells, i, b, w) && b == LooseEnd(cells, i) && w == LooseCell(cells, i)
      ensures next == if b < |cells| then cells[b].off else 0
    {
      ChunkFacts(mem[..], cells, i);
      ghost var d, cs := mem[..], cells;
      var h := LoadHeader(mem, cur);
      StoreHeader(mem, cur, h.(inUse := 0));
      next, b, w := h.next, i + 1, Cell(cur, h.length, false);
      if next != 0 {
        ChunkFacts(d, cells, i + 1);
        var n := LoadHeader(mem, next);
        if n.inUse == 0 {
          b, w := i + 2, Cell(cur, h.length + n.length + HEADER, false);
          var merged := Header(n.next, h.prev, h.length + n.length + HEADER, 0);
          ghost var d1 := mem[..];
          if n.next != 0 {
            StoreBefore(mem, cur, merged, n.next);
          } else {
            StoreHeader(mem, cur, merged);
          }
          LoosenNext(d, d1, mem[..], cs, i, w);
          next := n.next;
        }
      }
    }

    /** The stores that let the free chunk before the loose one take it in, through next whatever it is. */
    method MergePrev(ghost d: seq<byte>, ghost cs: seq<Cell>, ghost i: nat, ghost b: nat, ghost w: Cell,
                     next: u32, prev: u32, p: Header, length: u32)
      requires Loose(d, mem[..], cs, i, b, w) && i > 0
      requires next == (if b < |cs| then cs[b].off else 0) && prev == cs[i - 1].off
      requires prev + HEADER <= |d| && length == cs[i - 1].length + HEADER + w.length
      modifies mem
      ensures HeaderAt(mem[..], prev) == p.(next := next, length := length)
      ensures b < |cs| ==> Redirected(old(mem[..]), mem[..], cs[b].off, prev)
      ensures Agree(old(mem[..]), mem[..], HEADER, prev)
      ensures Agree(old(mem[..]), mem[..], if b < |cs| then cs[b].off + HEADER else |d|, |d|)
      ensures LowKept(old(mem[..]), mem[..])
      ensures if next == 0 then Get32(mem[..], 4) == prev else Agree(old(mem[..]), mem[..], 0, HEAP_START)
    {
      ghost var d1 := mem[..];
      StoreHeader(mem, prev, p.(next := next, length := length));
      ghost var d2 := mem[..];
      LooseNext(d, d1, cs, i, b, w, next);
      SetPrev(mem, next, prev);
      PrevStores(d, d1, d2, mem[..], cs, i, b, w, Cell(prev, length, false), next);
    }

    /** Gives block m back, unless it is null. */
    method Free(m: u32)
      requires Valid() && (m == 0 || m in Contents())
      modifies mem, this`cells
      ensures Valid() && Contents() == old(Contents()) - {m as nat} && cells == FreedBlock(old(cells), m)
      ensures LowWord(old(mem[..]), mem[..], NullWord(old(cells), m, Get32(old(mem[..]), 4)))
      ensures var cs, i := old(cells), Index(old(cells), m);
        Get32(mem[..], 4) ==
          if m != 0 && 0 < i < |cs| && !cs[i - 1].used && (i + 1 == |cs| || (i + 2 == |cs| && !cs[i + 1].used))
          then cs[i - 1].off
          else Get32(old(mem[..]), 4)
    {
      NullMeaning(cells, m, Get32(mem[..], 4));
      if m == 0 {
        NotNull(mem[..], cells);
        return;
      }
      ghost var d, cs, i := mem[..], cells, Index(cells, m);
      BlockIndex(mem[..], cells, m, i);
      FreeChunk(i, m - HEADER);
      if !StoresThroughNull(cs, i) {
        LowSame(d, mem[..]);
      }
    }

    /** Lets the free chunk before the loose one take it in. */
    method Absorb(ghost d: seq<byte>, ghost cs: seq<Cell>, ghost i: nat, ghost b: nat, ghost w: Cell,
                  ghost cs': seq<Cell>, ghost q: nat, next: u32, prev: u32, p: Header, length: u32)
      requires Loose(d, mem[..], cs, i, b, w) && i > 0 && !cs[i - 1].used && Joined(cs, i, b, w, cs')
      requires next == (if b < |cs| then cs[b].off else 0) && prev == cs[i - 1].off && q == cs[i].off + HEADER
      requires prev + HEADER <= |d| && p == HeaderAt(d, prev) && length == w.length
      requires cs[i - 1].length + HEADER + length < WORD
      requires p.length == cs[i - 1].length && Agree(d, mem[..], 0, HEAP_START)
      requires StoresThroughNull(cs, i) <==> next == 0
      modifies mem
      ensures Released(d, mem[..], cs, cs', q) && LowFreed(d, mem[..], cs, i)
    {
      ghost var d1 := mem[..];
      MergePrev(d, cs, i, b, w, next, prev, p, p.length + length + HEADER);
      LowAbsorbed(d, d1, mem[..], cs, i, next, prev);
      ReleasePrev(d, d1, mem[..], cs, i, b, w, Cell(prev, p.length + length + HEADER, false), cs', q);
    }

    /** The loose chunk joins the free chunk before it, if there is one. */
    method Settle(ghost d: seq<byte>, ghost cs: seq<Cell>, ghost i: nat, ghost b: nat, ghost w: Cell,
                  ghost cs': seq<Cell>, cur: u32, next: u32)
      requires Loose(d, mem[..], cs, i, b, w) && Joined(cs, i, b, w, cs')
      requires next == (if b < |cs| then cs[b].off else 0) && cur == cs[i].off
      modifies mem
      ensures Released(d, mem[..], cs, cs', cur + HEADER) && LowFreed(d, mem[..], cs, i)
    {
      LooseFacts(d, mem[..], cs, i, b, w);
      LooseNext(d, mem[..], cs, i, b, w, next);
      var h := LoadHeader(mem, cur);
      if h.prev != 0 {
        var p := LoadHeader(mem, h.prev);
        if p.inUse == 0 {
          LooseLengths(d, mem[..], cs, i, b, w);
          Absorb(d, cs, i, b, w, cs', cur + HEADER, next, h.prev, p, h.length);
          return;
        }
      }
      SettleAlone(d, mem[..], cs, i, b, w, cs', cur + HEADER);
    }

    method FreeChunk(ghost i: nat, cur: u32)
      requires Valid() && i < |cells| && cells[i].used && cur == cells[i].off
      modifies mem, this`cells
      ensures Released(old(mem[..]), mem[..], old(cells), cells, cur + HEADER) && cells == Freed(old(cells), i)
      ensures LowFreed(old(mem[..]), mem[..], old(cells), i)
    {
      ghost var d, cs := mem[..], cells;
      var next, b, w := Loosen(i, cur);
      cells := Freed(cs, i);
      FreedJoined(cs, i);
      Settle(d, cs, i, b, w, cells, cur, next);
    }

    /** Takes in the free chunk behind chunk i, then gives back what is not needed. */
    method Extend(ghost i: nat, cur: u32, h: Header, n: Header, size: u32)
      requires Valid() && CanMerge(cells, i, size) && cells[i].used && cur == cells[i].off
      requires cells[i + 1].off + HEADER <= mem.Length
      requires cur + HEADER <= mem.Length && h == HeaderAt(mem[..], cur) && n == HeaderAt(mem[..], cells[i + 1].off)
      modifies mem, this`cells
      ensures Valid() && Regrown(old(Contents()), Contents(), cur + HEADER, cur + HEADER, size)
      ensures cells == Extended(old(cells), i, size) && Agree(old(mem[..]), mem[..], 0, HEAP_START)
    {
      ghost var d, cs := mem[..], cells;
      TakeNext(i, cur, h, n);
      ghost var d1 := mem[..];
      TookReady(d, d1, cs, i);
      ShrinkChunk(mem, cur, size);
      TookLow(d, d1, mem[..], cs, i, size);
      cells := Extended(cs, i, size);
      Took(d, d1, mem[..], cs, i, size, cells, cur + HEADER);
    }

    method TakeNext(ghost i: nat, cur: u32, h: Header, n: Header)
      requires Valid() && i + 1 < |cells| && cur == cells[i].off && cells[i + 1].off + HEADER <= mem.Length
      requires cur + HEADER <= mem.Length && h == HeaderAt(mem[..], cur) && n == HeaderAt(mem[..], cells[i + 1].off)
      modifies mem
      ensures TookNext(old(mem[..]), mem[..], cells, i)
    {
      ChunkFacts(mem[..], cells, i);
      ChunkFacts(mem[..], cells, i + 1);
      var merged := h.(next := n.next, length := h.length + n.length + HEADER);
      if n.next != 0 {
        StoreBefore(mem, cur, merged, n.next);
      } else {
        StoreHeader(mem, cur, merged);
      }
    }

    /** Copies the first len bytes of block p to block q, in whole words; without a byte to copy it runs away. */
    method CopyWords(q: u32, p: u32, len: u32) returns (fault: bool)
      requires Valid() && p in Contents() && q in Contents() && p != q
      requires len <= |Contents()[p]| && len <= |Contents()[q]|
      modifies mem
      ensures fault <==> len == 0
      ensures Agree(old(mem[..]), mem[..], 0, HEAP_START)
      ensures !fault ==> Valid() && FrontCopied(old(Contents()), Contents(), p, q, RoundUp(len))
    {
      ghost var d, n := mem[..], RoundUp(len);
      ghost var i, j := CopyRanges(d, cells, p, q, len);
      WordCount(len, mem.Length);
      InHeap(d, cells, j);
      fault := MemCpy8(mem, q, p, (len + 7) / 8);
      if !fault {
        CopiedFront(d, mem[..], cells, i, j, p, q, n);
      }
    }

    /** Gives the block a new chunk of its own and drops the old one. */
    method Move(m: u32, length: u32, size: u32) returns (r: Outcome)
      requires Valid() && m in Contents() && length == |Contents()[m]|
      modifies mem, this`cells
      ensures r.Block? ==> Valid() && Regrown(old(Contents()), Contents(), m, r.p, size)
      ensures r.Block? ==> r.p == MallocAddress(old(cells), size) && cells == FreedBlock(Malloced(old(cells), size), m)
      ensures r.OutOfMemory? ==> mem[..] == old(mem[..]) && cells == old(cells)
      ensures r.OutOfMemory? <==> Pick(old(cells), 0, size) == |old(cells)|
      ensures r.Fault? <==> !r.OutOfMemory? && Min(length, size) == 0
      ensures LowWord(old(mem[..]), mem[..],
        if r.Block? then NullWord(Malloced(old(cells), size), m, Get32(old(mem[..]), 4)) else Get32(old(mem[..]), 4))
    {
      ghost var d, c := mem[..], Contents();
      NotNull(mem[..], cells);
      var len := length;
      if size < len {
        len := size;
      }
      var n := Malloc(size);
      if n == 0 {
        return OutOfMemory;
      }
      ghost var d1 := mem[..];
      LowSame(d, d1);
      ghost var c1 := Contents();
      FreshKeeps(c, c1, |c1[n]|, n, m);
      var fault := CopyWords(n, m, len);
      LowSame(d, mem[..]);
      if fault {
        return Fault;
      }
      ghost var c2 := Contents();
      Free(m);
      MovedBlock(c, c1, c2, m, n, size, RoundUp(len));
      r := Block(n);
    }

    /** Resizes block m, saying by which way it goes. */
    method Resize(m: u32, size: u32) returns (r: Outcome)
      requires Valid() && m in Contents()
      modifies mem, this`cells
      ensures r == ReallocOutcome(old(cells), m, size)
      ensures r.Block? ==> Valid() && Regrown(old(Contents()), Contents(), m, r.p, size)
      ensures r.Block? ==> cells == Realloced(old(cells), m, size)
      ensures r.OutOfMemory? ==> mem[..] == old(mem[..]) && cells == old(cells)
      ensures LowWord(old(mem[..]), mem[..],
        if r.Block? then ReallocWord(old(cells), m, size, Get32(old(mem[..]), 4)) else Get32(old(mem[..]), 4))
    {
      ghost var d, i := mem[..], Index(cells, m);
      BlockIndex(d, cells, m, i);
      ChunkFacts(d, cells, i);
      var cur := m - HEADER;
      var h := LoadHeader(mem, cur);
      if h.next != 0 {
        ChunkFacts(d, cells, i + 1);
        var n := LoadHeader(mem, h.next);
        if n.inUse == 0 && size <= h.length + n.length + HEADER {
          Extend(i, cur, h, n, size);
          LowSame(d, mem[..]);
          return Block(m);
        }
      }
      r := Move(m, h.length, size);
    }

    /** Resizes block m, in place if it can take in a free chunk behind it, else by moving it. */
    method Realloc(m: u32, size: u32) returns (r: Outcome)
      requires Valid() && m in Contents()
      modifies mem, this`cells
      ensures r == ReallocOutcome(old(cells), m, size)
      ensures var cs, i := old(cells), Index(old(cells), m);
        && i < |cs| && (FitsBehind(cs, i, size) ==> r == Block(m))
        && (!FitsBehind(cs, i, size) && NoneLong(cs, size) ==> r == OutOfMemory)
        && (!FitsBehind(cs, i, size) && !NoneLong(cs, size) && (cs[i].length == 0 || size == 0) ==> r == Fault)
        && (!FitsBehind(cs, i, size) && !NoneLong(cs, size) && cs[i].length > 0 && size > 0 ==>
              r.Block? && exists k | 0 <= k < |cs| :: FirstLong(cs, k, size, r.p))
      ensures r.Block? ==> Valid() && Regrown(old(Contents()), Contents(), m, r.p, size)
      ensures r.Block? ==> cells == Realloced(old(cells), m, size)
      ensures r.OutOfMemory? ==> mem[..] == old(mem[..]) && cells == old(cells)
      ensures LowWord(old(mem[..]), mem[..],
        if r.Block? then ReallocWord(old(cells), m, size, Get32(old(mem[..]), 4)) else Get32(old(mem[..]), 4))
    {
      ghost var d, cs, i := mem[..], cells, Index(cells, m);
      BlockIndex(d, cs, m, i);
      assert Tiled(cs, i, |d|);
      r := Resize(m, size);
      ReallocMeaning(cs, i, m, size);
    }
  }
}
