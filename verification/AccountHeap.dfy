/**
 The heap inside a Solana account's data: a first-fit allocator over a doubly
 linked list of chunks, linked by offset, in one flat byte buffer.
 */
module AccountHeap {
  import opened Bytes
  import opened ChunkList
  import opened AccountCells

  /** TO_BUILTIN(5) of the Solana SDK. */
  const ERROR_ACCOUNT_DATA_TOO_SMALL: nat := 0x5_0000_0000

  /** Where the account data header keeps heap_offset. */
  const HEAP_OFFSET_FIELD: nat := 12

  /** The buffer holds a well-formed list, beginning where the account data header says. */
  ghost predicate Heap(d: seq<byte>, cs: seq<Cell>) {
    && HEADER <= |d| < WORD
    && WellFormed(cs, Get32(d, HEAP_OFFSET_FIELD), |d|)
    && Linked(d, cs)
  }

  /** All that the invariant says about chunk k and the one after it. */
  lemma ChunkFacts(d: seq<byte>, cs: seq<Cell>, k: nat)
    requires Heap(d, cs) && k < |cs|
    ensures LinkedAt(d, cs, k) && InPlace(cs, k, |d|) && Sized(cs, k)
    ensures k + 1 < |cs| ==> LinkedAt(d, cs, k + 1) && InPlace(cs, k + 1, |d|) && OneUsed(cs, k)
    ensures WindowEnd(cs, k + 1, |d|) <= |d|
  {
    OrderedPair(cs, |d|, k, |cs|);
    if k + 1 < |cs| {
      assert LinkedAt(d, cs, k + 1) && InPlace(cs, k + 1, |d|) && OneUsed(cs, k);
      OrderedPair(cs, |d|, k + 1, |cs|);
    }
  }

  /**
   Replacing cells i..j, of which at most u is in use, by ws, whose first cell alone may be in use:
   the list stays well formed, and only the blocks of cell u and of the new cell are affected.
   */
  lemma ReplaceWindow(d: seq<byte>, d': seq<byte>, cs: seq<Cell>, start: nat, i: nat, j: nat, u: nat, ws: seq<Cell>)
    requires WellFormed(cs, start, |d|) && Linked(d, cs)
    requires Acceptable(cs, i, j, ws, |d|)
    requires Rewritten(d, d', cs, i, j, ws)
    requires i <= u < j && forall k | i <= k < j && k != u :: !cs[k].used
    requires forall k | 0 < k < |ws| :: !ws[k].used
    ensures WellFormed(Splice(cs, i, j, ws), start, |d|)
    ensures Linked(d', Splice(cs, i, j, ws))
    ensures BlocksChange(d, d', cs, Splice(cs, i, j, ws), cs[u], ws[0])
  {
    ReplaceWellFormed(cs, start, |d|, i, j, ws);
    SpliceLinked(d, d', cs, i, j, ws);
    ReplaceBlocks(d, d', cs, i, j, u, ws);
  }

  /** Bytes change only from cell i to the header of cell j. */
  ghost predicate Confined(d: seq<byte>, d': seq<byte>, cs: seq<Cell>, i: nat, j: nat)
    requires i < j <= |cs|
  {
    SameOutside(d, d', cs[i].off, if j < |cs| then cs[j].off + HEADER else |d|)
  }

  /** What changed: the list is cs' now, block o is gone and block w is there. */
  ghost predicate Changed(d: seq<byte>, d': seq<byte>, cs: seq<Cell>, cs': seq<Cell>, o: Cell, w: Cell) {
    Heap(d, cs) && Heap(d', cs') && BlocksChange(d, d', cs, cs', o, w)
  }

  lemma ReplaceStarts(d: seq<byte>, d': seq<byte>, cs: seq<Cell>, i: nat, j: nat)
    requires Heap(d, cs) && i < j <= |cs| && Confined(d, d', cs, i, j)
    ensures Get32(d, HEAP_OFFSET_FIELD) == Get32(d', HEAP_OFFSET_FIELD)
    ensures InPlace(cs, i, |d|) && AlignedAt(cs, i)
    ensures j < |cs| ==> LinkedAt(d, cs, j)
  {
    assert InPlace(cs, i, |d|) && AlignedAt(cs, i);
    ChunkFacts(d, cs, 0);
    if i > 0 {
      OrderedPair(cs, |d|, 0, i);
    }
    Get32Frame(d, d', HEAP_OFFSET_FIELD);
  }

  /** One new cell takes the place of cells i..j. */
  lemma Replace1(d: seq<byte>, d': seq<byte>, cs: seq<Cell>, i: nat, j: nat, u: nat, w: Cell)
    requires Heap(d, cs)
    requires i <= u < j <= |cs| && forall k | i <= k < j && k != u :: !cs[k].used
    requires w.off == cs[i].off && w.End() <= WindowEnd(cs, j, |d|)
    requires i > 0 ==> cs[i - 1].used || w.used
    requires if j < |cs| then w.length > 0 && (w.used || cs[j].used) else w.length == 0 && !w.used
    requires Carries(d', w, if j < |cs| then cs[j].off else 0, PrevOff(cs, i))
    requires j < |cs| ==> Redirected(d, d', cs[j].off, w.off)
    requires Confined(d, d', cs, i, j)
    ensures Changed(d, d', cs, Splice(cs, i, j, [w]), cs[u], w)
  {
    ReplaceStarts(d, d', cs, i, j);
    assert WindowLinkedAt(d', cs, i, j, [w], 0);
    assert InPlace([w], 0, WindowEnd(cs, j, |d|)) && AlignedAt([w], 0);
    ReplaceWindow(d, d', cs, Get32(d, HEAP_OFFSET_FIELD), i, j, u, [w]);
  }

  /** A new cell and a free remainder take the place of cells i..j. */
  lemma Replace2(d: seq<byte>, d': seq<byte>, cs: seq<Cell>, i: nat, j: nat, u: nat, w: Cell, x: Cell)
    requires Heap(d, cs)
    requires i <= u < j <= |cs| && forall k | i <= k < j && k != u :: !cs[k].used
    requires w.off == cs[i].off && w.used && w.length > 0
    requires x.off % 8 == 0 && !x.used && w.End() <= x.off && x.End() <= WindowEnd(cs, j, |d|)
    requires if j < |cs| then x.length > 0 && cs[j].used else x.length == 0
    requires Carries(d', w, x.off, PrevOff(cs, i))
    requires Carries(d', x, if j < |cs| then cs[j].off else 0, w.off)
    requires j < |cs| ==> Redirected(d, d', cs[j].off, x.off)
    requires Confined(d, d', cs, i, j)
    ensures Changed(d, d', cs, Splice(cs, i, j, [w, x]), cs[u], w)
  {
    ReplaceStarts(d, d', cs, i, j);
    assert InPlace([w, x], 0, WindowEnd(cs, j, |d|)) && InPlace([w, x], 1, WindowEnd(cs, j, |d|));
    assert AlignedAt([w, x], 0) && AlignedAt([w, x], 1);
    assert WindowLinkedAt(d', cs, i, j, [w, x], 0);
    assert WindowLinkedAt(d', cs, i, j, [w, x], 1);
    assert OneUsed([w, x], 0);
    ReplaceWindow(d, d', cs, Get32(d, HEAP_OFFSET_FIELD), i, j, u, [w, x]);
  }

  /** A used cell in place of a free one is a new block. */
  lemma ClaimedBlock(d: seq<byte>, d': seq<byte>, cs: seq<Cell>, cs': seq<Cell>, k: nat, w: Cell, p: nat)
    requires k < |cs| && Changed(d, d', cs, cs', cs[k], w)
    requires !cs[k].used && w.used && w.off == cs[k].off && w.End() <= |d'| && p == w.off + HEADER
    ensures Heap(d', cs') && Fresh(Blocks(d, cs), Blocks(d', cs'), w.length, p)
  {
    FreshBlock(d, d', cs, cs', k, w);
  }

  /** A free chunk is handed out whole. */
  lemma Claim1(d: seq<byte>, d': seq<byte>, cs: seq<Cell>, k: nat, w: Cell)
    requires Heap(d, cs) && k + 1 < |cs| && !cs[k].used
    requires w.used && w.off == cs[k].off && 0 < w.length && w.End() <= cs[k + 1].off
    requires Carries(d', w, cs[k + 1].off, PrevOff(cs, k))
    requires Redirected(d, d', cs[k + 1].off, w.off)
    requires Confined(d, d', cs, k, k + 1)
    ensures Heap(d', Splice(cs, k, k + 1, [w]))
    ensures Fresh(Blocks(d, cs), Blocks(d', Splice(cs, k, k + 1, [w])), w.length, w.off + HEADER)
  {
    Replace1(d, d', cs, k, k + 1, k, w);
    FreshBlock(d, d', cs, Splice(cs, k, k + 1, [w]), k, w);
  }

  /** The front of a free chunk is handed out. */
  lemma Claim2(d: seq<byte>, d': seq<byte>, cs: seq<Cell>, k: nat, w: Cell, x: Cell, cs': seq<Cell>, p: nat)
    requires Heap(d, cs) && k < |cs| && !cs[k].used
    requires w.off == cs[k].off && w.used && w.length > 0
    requires x.off % 8 == 0 && !x.used && w.End() <= x.off && x.End() <= WindowEnd(cs, k + 1, |d|)
    requires if k + 1 < |cs| then x.length > 0 else x.length == 0
    requires Carries(d', w, x.off, PrevOff(cs, k))
    requires Carries(d', x, if k + 1 < |cs| then cs[k + 1].off else 0, w.off)
    requires k + 1 < |cs| ==> Redirected(d, d', cs[k + 1].off, x.off)
    requires Confined(d, d', cs, k, k + 1)
    requires cs' == Splice(cs, k, k + 1, [w, x]) && p == w.off + HEADER
    ensures Heap(d', cs') && Fresh(Blocks(d, cs), Blocks(d', cs'), w.length, p)
  {
    ChunkFacts(d, cs, k);
    Replace2(d, d', cs, k, k + 1, k, w, x);
    ClaimedBlock(d, d', cs, cs', k, w, p);
  }

  /** Block p became block q of size bytes, keeping its bytes up to the shorter length; the rest is as it was. */
  ghost predicate Resized(m: map<nat, seq<byte>>, m': map<nat, seq<byte>>, p: nat, q: nat, size: nat) {
    && p in m && q in m' && |m'[q]| == size
    && m' - {q} == m - {p}
    && m[p][..Min(|m[p]|, size)] == m'[q][..Min(|m[p]|, size)]
  }

  lemma ResizedBlock(d: seq<byte>, d': seq<byte>, cs: seq<Cell>, cs': seq<Cell>, i: nat, w: Cell, p: nat)
    requires i < |cs| && cs[i].used && w.used && w.off == cs[i].off && p == w.off + HEADER && w.End() <= |d'| == |d|
    requires cs[i].End() <= |d|
    requires Ordered(cs, |d|) && BlocksChange(d, d', cs, cs', cs[i], w)
    requires Agree(d, d', p, p + Min(cs[i].length, w.length))
    ensures Resized(Blocks(d, cs), Blocks(d', cs'), p, p, w.length)
  {
    BlockReplaced(d, d', cs, cs', i, w, p);
    PayloadPrefix(d, d', cs[i], w, Min(cs[i].length, w.length));
  }

  /**
   In the middle of freeing chunk i: cells a..i are one free chunk w, all links are right, and
   nothing has been done yet about a free chunk behind it.
   */
  ghost predicate Detached(d: seq<byte>, d': seq<byte>, cs: seq<Cell>, i: nat, a: nat, w: Cell) {
    && Heap(d, cs) && i + 1 < |cs| && cs[i].used && a <= i && (forall k | a <= k < i :: !cs[k].used)
    && w.off == cs[a].off && !w.used && 0 < w.length && w.End() <= cs[i + 1].off
    && Carries(d', w, cs[i + 1].off, PrevOff(cs, a))
    && Redirected(d, d', cs[i + 1].off, w.off)
    && Confined(d, d', cs, a, i + 1)
  }

  lemma DetachedFacts(d: seq<byte>, d': seq<byte>, cs: seq<Cell>, i: nat)
    requires 0 < i < |cs| && Detached(d, d', cs, i, i, Cell(cs[i].off, cs[i].length, false))
    ensures HEADER <= cs[i - 1].off && cs[i - 1].off + HEADER < cs[i].off && cs[i].off + HEADER < cs[i + 1].off
    ensures cs[i + 1].off + HEADER <= |d|
  {
    ChunkFacts(d, cs, i);
    ChunkFacts(d, cs, i - 1);
  }

  lemma DetachPrev(d: seq<byte>, d1: seq<byte>, d2: seq<byte>, cs: seq<Cell>, i: nat, w: Cell)
    requires 0 < i < |cs| && Detached(d, d1, cs, i, i, Cell(cs[i].off, cs[i].length, false))
    requires !cs[i - 1].used && w.off == cs[i - 1].off && w.End() == cs[i + 1].off && !w.used
    requires w.End() <= |d| && |d1| == |d2|
    requires HeaderAt(d2, w.off) == HeaderAt(d, w.off).(length := w.length, next := w.End())
    requires Redirected(d1, d2, cs[i + 1].off, w.off)
    requires SameOutside(d1, d2, w.off, cs[i + 1].off + HEADER)
    ensures Detached(d, d2, cs, i, i - 1, w)
  {
    ChunkFacts(d, cs, i - 1);
    DetachedFacts(d, d1, cs, i);
    OutsideTrans(d, d1, d2, cs[i].off, w.off, cs[i + 1].off + HEADER, cs[i + 1].off + HEADER);
  }

  /** The list is cs' now, block p is gone, and every other block is as it was. */
  ghost predicate Released(d: seq<byte>, d': seq<byte>, cs: seq<Cell>, cs': seq<Cell>, p: nat) {
    Heap(d', cs') && Blocks(d', cs') == Blocks(d, cs) - {p}
  }

  /** A free cell takes the place of cells i..j, of which only u was in use. */
  lemma Release(d: seq<byte>, d': seq<byte>, cs: seq<Cell>, i: nat, j: nat, u: nat, w: Cell)
    requires Heap(d, cs)
    requires i <= u < j <= |cs| && cs[u].used && forall k | i <= k < j && k != u :: !cs[k].used
    requires w.off == cs[i].off && !w.used && w.End() <= WindowEnd(cs, j, |d|)
    requires i > 0 ==> cs[i - 1].used
    requires if j < |cs| then w.length > 0 && cs[j].used else w.length == 0
    requires Carries(d', w, if j < |cs| then cs[j].off else 0, PrevOff(cs, i))
    requires j < |cs| ==> Redirected(d, d', cs[j].off, w.off)
    requires Confined(d, d', cs, i, j)
    ensures Released(d, d', cs, Splice(cs, i, j, [w]), cs[u].off + HEADER)
  {
    Replace1(d, d', cs, i, j, u, w);
    AddNothing(Blocks(d, cs) - {cs[u].off + HEADER});
  }

  lemma ReleaseAlone(d: seq<byte>, d': seq<byte>, cs: seq<Cell>, i: nat, a: nat, w: Cell)
    requires Detached(d, d', cs, i, a, w)
    requires cs[i + 1].used && (a > 0 ==> cs[a - 1].used)
    ensures Released(d, d', cs, Splice(cs, a, i + 1, [w]), cs[i].off + HEADER)
  {
    Release(d, d', cs, a, i + 1, i, w);
  }

  /** The chunk behind is free too: the merged chunk now reaches to the one after that. */
  lemma NextLinks(d: seq<byte>, d1: seq<byte>, d2: seq<byte>, cs: seq<Cell>, i: nat, a: nat, w: Cell, w': Cell)
    requires Detached(d, d1, cs, i, a, w) && i + 2 < |cs| && !cs[i + 1].used
    requires w'.off == w.off && !w'.used && |d2| == |d1| && w'.End() == cs[i + 2].off && w.off + HEADER <= |d1|
    requires w'.End() < WORD && HeaderAt(d2, w.off) == HeaderAt(d1, w.off).(length := w'.length, next := w'.End())
    requires Redirected(d1, d2, cs[i + 2].off, w.off)
    requires SameOutside(d1, d2, w.off, cs[i + 2].off + HEADER)
    ensures Carries(d2, w', cs[i + 2].off, PrevOff(cs, a)) && Redirected(d, d2, cs[i + 2].off, w.off)
    ensures Confined(d, d2, cs, a, i + 2) && cs[i + 2].used && w'.length > 0
  {
    ChunkFacts(d, cs, i + 1);
    OutsideTrans(d, d1, d2, w.off, w.off, cs[i + 1].off + HEADER, cs[i + 2].off + HEADER);
    RedirectTrans(d, d1, d2, w.off, cs[i + 1].off + HEADER, cs[i + 2].off, w.off);
    assert OneUsed(cs, i + 1);
  }

  lemma ReleaseNext(d: seq<byte>, d1: seq<byte>, d2: seq<byte>, cs: seq<Cell>, i: nat, a: nat, w: Cell, w': Cell)
    requires Detached(d, d1, cs, i, a, w)
    requires i + 2 < |cs| && !cs[i + 1].used && (a > 0 ==> cs[a - 1].used)
    requires w'.off == w.off && !w'.used && |d2| == |d1| && w'.End() == cs[i + 2].off && w.off + HEADER <= |d1|
    requires w'.End() < WORD && HeaderAt(d2, w.off) == HeaderAt(d1, w.off).(length := w'.length, next := w'.End())
    requires Redirected(d1, d2, cs[i + 2].off, w.off)
    requires SameOutside(d1, d2, w.off, cs[i + 2].off + HEADER)
    ensures Released(d, d2, cs, Splice(cs, a, i + 2, [w']), cs[i].off + HEADER)
  {
    NextLinks(d, d1, d2, cs, i, a, w, w');
    Release(d, d2, cs, a, i + 2, i, w');
  }

  /** The chunk behind is the tail: the merged chunk is the tail now. */
  lemma ReleaseTail(d: seq<byte>, d1: seq<byte>, d2: seq<byte>, cs: seq<Cell>, i: nat, a: nat, w: Cell, w': Cell)
    requires Detached(d, d1, cs, i, a, w)
    requires i + 2 == |cs| && (a > 0 ==> cs[a - 1].used)
    requires w' == Cell(w.off, 0, false) && |d2| == |d1| && w.off + HEADER <= |d1|
    requires HeaderAt(d2, w.off) == HeaderAt(d1, w.off).(length := 0, next := 0)
    requires SameOutside(d1, d2, w.off, w.off + HEADER)
    ensures Released(d, d2, cs, Splice(cs, a, i + 2, [w']), cs[i].off + HEADER)
  {
    ChunkFacts(d, cs, i + 1);
    OutsideTrans(d, d1, d2, w.off, w.off, cs[i + 1].off + HEADER, |d|);
    Release(d, d2, cs, a, i + 2, i, w');
  }

  /** The list is cs' now, and block p is resized where it is. */
  ghost predicate Kept(d: seq<byte>, d': seq<byte>, cs: seq<Cell>, cs': seq<Cell>, p: nat, size: nat) {
    Heap(d', cs') && Resized(Blocks(d, cs), Blocks(d', cs'), p, p, size)
  }

  /** Block p was resized in place to the cell w, whose bytes up to the shorter length did not change. */
  lemma Resize1(d: seq<byte>, d': seq<byte>, cs: seq<Cell>, i: nat, j: nat, w: Cell, cs': seq<Cell>, p: nat)
    requires Heap(d, cs)
    requires i < j < |cs| && cs[i].used && forall k | i < k < j :: !cs[k].used
    requires w.off == cs[i].off && w.used && w.length > 0 && w.End() <= cs[j].off && p == w.off + HEADER
    requires Carries(d', w, cs[j].off, PrevOff(cs, i))
    requires Redirected(d, d', cs[j].off, w.off)
    requires Confined(d, d', cs, i, j) && Agree(d, d', p, cs[j].off)
    requires cs' == Splice(cs, i, j, [w])
    ensures Kept(d, d', cs, cs', p, w.length)
  {
    OrderedPair(cs, |d|, i, j);
    OrderedPair(cs, |d|, j, |cs|);
    Replace1(d, d', cs, i, j, i, w);
    ResizedBlock(d, d', cs, cs', i, w, p);
  }

  /** Block p was resized in place to the cell w, with the free chunk x behind it. */
  lemma Resize2(d: seq<byte>, d': seq<byte>, cs: seq<Cell>, i: nat, j: nat, w: Cell, x: Cell, cs': seq<Cell>, p: nat)
    requires Heap(d, cs)
    requires i < j <= |cs| && cs[i].used && forall k | i < k < j :: !cs[k].used
    requires w.off == cs[i].off && w.used && w.length > 0 && p == w.off + HEADER
    requires x.off % 8 == 0 && !x.used && w.End() <= x.off && x.End() <= WindowEnd(cs, j, |d|)
    requires if j < |cs| then x.length > 0 && cs[j].used else x.length == 0
    requires Carries(d', w, x.off, PrevOff(cs, i))
    requires Carries(d', x, if j < |cs| then cs[j].off else 0, w.off)
    requires j < |cs| ==> Redirected(d, d', cs[j].off, x.off)
    requires Confined(d, d', cs, i, j) && Agree(d, d', p, x.off)
    requires cs' == Splice(cs, i, j, [w, x])
    ensures Kept(d, d', cs, cs', p, w.length)
  {
    OrderedPair(cs, |d|, i, |cs|);
    Replace2(d, d', cs, i, j, i, w, x);
    ResizedBlock(d, d', cs, cs', i, w, p);
  }

  /** The headers of chunk i and the one behind it say all that shrinking needs. */
  lemma ShrinkFacts(d: seq<byte>, cs: seq<Cell>, i: nat)
    requires Heap(d, cs) && i + 1 < |cs|
    ensures HEADER <= cs[i].off && cs[i].off + HEADER <= cs[i + 1].off && cs[i + 1].off + HEADER <= |d| < WORD
    ensures var n := HeaderAt(d, cs[i + 1].off); (n.inUse != 0) == cs[i + 1].used && n.next == NextOff(cs, i + 1)
    ensures i + 2 < |cs| ==> cs[i + 1].off + HEADER < cs[i + 2].off && (cs[i + 1].used || cs[i + 2].used)
    ensures i + 2 == |cs| ==> !cs[i + 1].used
  {
    ChunkFacts(d, cs, i);
    ChunkFacts(d, cs, i + 1);
  }

  /** Where the new tail goes, if the address past the block does not wrap around. */
  lemma TailNext(d: seq<byte>, cs: seq<Cell>, i: nat, offset: u32, size: u32, next: u32)
    requires Heap(d, cs) && i + 2 == |cs| && offset == cs[i].off + HEADER && next == Add32(offset, RoundUp32(size))
    ensures offset + RoundUp(size) < WORD ==> next == offset + RoundUp(size) && next % 8 == 0
  {
    RoundUpExact(size);
    if offset + RoundUp(size) < WORD {
      NoWrap(offset, RoundUp(size));
      CarveRoom(d, cs, i, i + 1, RoundUp(size));
    }
  }

  /** What is known before a chunk is cut at an aligned place. */
  lemma CarveRoom(d: seq<byte>, cs: seq<Cell>, i: nat, j: nat, alloc: nat)
    requires Heap(d, cs) && i < j <= |cs| && alloc % 8 == 0
    ensures WindowEnd(cs, j, |d|) <= |d| < WORD && (cs[i].off + HEADER + alloc) % 8 == 0
    ensures j < |cs| ==> cs[j].off > 0 && cs[j].off + HEADER <= |d|
  {
    ChunkFacts(d, cs, i);
    ChunkFacts(d, cs, j - 1);
    assert AlignedAt(cs, i);
    AlignedSum(cs[i].off, alloc);
  }

  lemma SwallowRoom(d: seq<byte>, cs: seq<Cell>, i: nat)
    requires Heap(d, cs) && i + 2 < |cs|
    ensures cs[i].off + HEADER <= cs[i + 2].off && cs[i + 2].off + HEADER <= |d| < WORD
  {
    ChunkFacts(d, cs, i);
    ChunkFacts(d, cs, i + 1);
  }

  /** The stores by which chunk i takes over the free one behind it. */
  lemma Swallowed(d: seq<byte>, d': seq<byte>, cs: seq<Cell>, i: nat, w: Cell, cs': seq<Cell>, p: nat)
    requires Heap(d, cs) && i + 2 < |cs| && cs[i].used && !cs[i + 1].used && |d'| == |d|
    requires w.off == cs[i].off && w.used && 0 < w.length && w.End() <= cs[i + 2].off && p == w.off + HEADER
    requires w.off + HEADER <= |d| && cs[i + 2].off < WORD && w.length < WORD
    requires HeaderAt(d', w.off) == HeaderAt(d, w.off).(next := cs[i + 2].off, length := w.length)
    requires Redirected(d, d', cs[i + 2].off, w.off)
    requires SameOutside(d, d', w.off, cs[i + 2].off + HEADER) && Agree(d, d', p, cs[i + 2].off)
    requires cs' == Splice(cs, i, i + 2, [w])
    ensures Kept(d, d', cs, cs', p, w.length)
  {
    ChunkFacts(d, cs, i);
    Resize1(d, d', cs, i, i + 2, w, cs', p);
  }

  /** The stores that cut chunk i down to w and leave x free behind it, before the chunk at j. */
  lemma Carved(d: seq<byte>, d': seq<byte>, cs: seq<Cell>, i: nat, j: nat, w: Cell, x: Cell, cs': seq<Cell>, p: nat)
    requires Heap(d, cs) && i < j <= i + 2 && j < |cs| && cs[i].used && (j == i + 2 ==> !cs[i + 1].used) && cs[j].used
    requires w.off == cs[i].off && w.used && 0 < w.length && w.End() <= x.off && x.off % 8 == 0 && !x.used
    requires p == w.off + HEADER
    requires x.length > 0 && x.End() == cs[j].off <= |d| == |d'| < WORD
    requires HeaderAt(d', w.off) == HeaderAt(d, w.off).(next := x.off, length := w.length)
    requires HeaderAt(d', x.off) == Header(cs[j].off, w.off, x.length, 0)
    requires Redirected(d, d', cs[j].off, x.off)
    requires SameOutside(d, d', w.off, cs[j].off + HEADER) && Agree(d, d', p, x.off)
    requires cs' == Splice(cs, i, j, [w, x])
    ensures Kept(d, d', cs, cs', p, w.length)
  {
    ChunkFacts(d, cs, i);
    Resize2(d, d', cs, i, j, w, x, cs', p);
  }

  /** The same where x is the new tail. */
  lemma CarvedTail(d: seq<byte>, d': seq<byte>, cs: seq<Cell>, i: nat, w: Cell, x: Cell, cs': seq<Cell>, p: nat)
    requires Heap(d, cs) && i + 2 == |cs| && cs[i].used && !cs[i + 1].used
    requires w.off == cs[i].off && w.used && 0 < w.length && w.End() <= x.off && x.off % 8 == 0 && !x.used
    requires p == w.off + HEADER
    requires x.length == 0 && x.off + HEADER <= |d| == |d'| < WORD
    requires HeaderAt(d', w.off) == HeaderAt(d, w.off).(next := x.off, length := w.length)
    requires HeaderAt(d', x.off) == Header(0, w.off, 0, 0)
    requires SameOutside(d, d', w.off, x.off + HEADER) && Agree(d, d', p, x.off)
    requires cs' == Splice(cs, i, i + 2, [w, x])
    ensures Kept(d, d', cs, cs', p, w.length)
  {
    ChunkFacts(d, cs, i);
    Resize2(d, d', cs, i, i + 2, w, x, cs', p);
  }

  /** Bytes change only inside the payload of block i. */
  lemma Overwrite(d: seq<byte>, d': seq<byte>, cs: seq<Cell>, i: nat)
    requires Heap(d, cs) && i < |cs| && cs[i].used
    requires SameOutside(d, d', cs[i].off + HEADER, cs[i].End())
    ensures Heap(d', cs)
    ensures Blocks(d', cs) == Blocks(d, cs)[cs[i].off + HEADER := Payload(d', cs[i])]
  {
    ChunkFacts(d, cs, i);
    HeaderFrame(d, d', cs[i].off);
    HeaderFrame(d, d', cs[i + 1].off);
    Replace1(d, d', cs, i, i + 1, i, cs[i]);
    assert Splice(cs, i, i + 1, [cs[i]]) == cs;
  }

  lemma CopiedBlock(d: seq<byte>, d': seq<byte>, cs: seq<Cell>, i: nat, j: nat, p: nat, q: nat, v: seq<byte>)
    requires Heap(d, cs) && i < |cs| && j < |cs| && cs[i].used && cs[j].used
    requires cs[i].length <= cs[j].length && cs[i].End() <= |d| && cs[j].End() <= |d|
    requires p == cs[i].off + HEADER && q == cs[j].off + HEADER && d' == Copied(d, q, p, cs[i].length)
    requires v == Payload(d, cs[i]) + Payload(d, cs[j])[cs[i].length..]
    ensures Heap(d', cs) && Blocks(d', cs) == Blocks(d, cs)[q := v]
  {
    CopiedPayload(d, d', cs[i], cs[j], p, q);
    Overwrite(d, d', cs, j);
  }

  lemma CopiedPayload(d: seq<byte>, d': seq<byte>, c: Cell, w: Cell, p: nat, q: nat)
    requires c.End() <= |d| && w.End() <= |d| && c.length <= w.length && p == c.off + HEADER && q == w.off + HEADER
    requires d' == Copied(d, q, p, c.length)
    ensures Payload(d', w) == Payload(d, c) + Payload(d, w)[c.length..] && SameOutside(d, d', q, w.End())
  {
    var v := Payload(d, c) + Payload(d, w)[c.length..];
    forall k | 0 <= k < w.length
      ensures Payload(d', w)[k] == v[k]
    {
      CopiedAt(d, q, p, c.length, q + k);
    }
  }

  lemma CopiedAt(d: seq<byte>, dst: nat, src: nat, n: nat, x: nat)
    requires dst + n <= |d| && src + n <= |d| && x < |d|
    ensures Copied(d, dst, src, n)[x] == d[if dst <= x < dst + n then src + x - dst else x]
  {
  }

  /** A live block is found in the list. */
  lemma BlockIndex(d: seq<byte>, cs: seq<Cell>, p: nat, i: nat)
    requires Heap(d, cs) && p in Blocks(d, cs) && i == Index(cs, p)
    ensures i + 1 < |cs| && cs[i].used && cs[i].off + HEADER == p && Blocks(d, cs)[p] == Payload(d, cs[i])
    ensures HEADER < p && |Payload(d, cs[i])| == cs[i].length
  {
    var k := BlockCell(d, cs, p);
    if k < i {
      OrderedPair(cs, |d|, k, i);
    } else if i < k {
      OrderedPair(cs, |d|, i, k);
    }
    ChunkFacts(d, cs, i);
    CellBlock(d, cs, i);
  }

  lemma CopyRanges(d: seq<byte>, cs: seq<Cell>, p: nat, q: nat) returns (i: nat, j: nat)
    requires Heap(d, cs) && p in Blocks(d, cs) && q in Blocks(d, cs) && p != q
    requires |Blocks(d, cs)[p]| <= |Blocks(d, cs)[q]|
    ensures i < |cs| && j < |cs| && cs[i].used && cs[j].used && p == cs[i].off + HEADER && q == cs[j].off + HEADER
    ensures cs[i].End() <= |d| && cs[j].End() <= |d|
    ensures Blocks(d, cs)[p] == Payload(d, cs[i]) && Blocks(d, cs)[q] == Payload(d, cs[j])
    ensures p + cs[i].length <= q || q + cs[i].length <= p
  {
    i := BlockCell(d, cs, p);
    j := BlockCell(d, cs, q);
    CellBlock(d, cs, i);
    CellBlock(d, cs, j);
    OrderedPair(cs, |d|, i, |cs|);
    OrderedPair(cs, |d|, j, |cs|);
    if p < q {
      BlocksDisjoint(d, cs, p, q);
    } else {
      BlocksDisjoint(d, cs, q, p);
    }
  }

  /** A moved block: a fresh one of the new size, given the old bytes, and then the old one dropped. */
  lemma MovedBlock(m: map<nat, seq<byte>>, m1: map<nat, seq<byte>>, m2: map<nat, seq<byte>>, m3: map<nat, seq<byte>>,
                   p: nat, q: nat, size: nat)
    requires p in m && |m[p]| <= size
    requires Fresh(m, m1, size, q)
    requires m2 == m1[q := m[p] + m1[q][|m[p]|..]]
    requires m3 == m2 - {p}
    ensures Resized(m, m3, p, q, size)
  {
    assert p != q;
    assert m3 - {q} == m - {p};
  }

  /** Chunks are aligned, so if size bytes fit before chunk j then so does the rounded size. */
  lemma RoundedFits(d: seq<byte>, cs: seq<Cell>, i: nat, j: nat, size: nat, alloc: nat)
    requires Heap(d, cs) && i < j < |cs|
    requires alloc % 8 == 0 && alloc < size + 8 && cs[i].off + HEADER + size <= cs[j].off
    ensures cs[i].off + HEADER + alloc <= cs[j].off
  {
    assert AlignedAt(cs, i) && AlignedAt(cs, j);
    AlignedSum(cs[i].off, HEADER);
    RoundingFits(cs[i].off + HEADER, cs[j].off, size, alloc);
  }

  // ---------------------------------------------------------------------------
  // What resizing comes to

  /** No chunk has room for size bytes: the status says so, and nothing has changed. */
  ghost predicate TooSmall(d: seq<byte>, d': seq<byte>, cs: seq<Cell>, cs': seq<Cell>, size: u32, rc: nat) {
    && rc == 0x5_0000_0000 && d' == d && cs' == cs
    && (forall k | 0 <= k < |cs| - 1 && !cs[k].used :: cs[k].length < RoundUp(size))
    && (|cs| > 0 ==>
          var t := cs[|cs| - 1]; t.used || |d| <= t.off + HEADER + RoundUp(size) + HEADER)
  }

  /**
   Resizing chunk i to size bytes gave rc and res, the list is cs' now, and the bytes are what they should be.
   Nothing is said of a move to a chunk that is too small.
   */
  ghost predicate ResizedTo(d: seq<byte>, d': seq<byte>, cs: seq<Cell>, cs': seq<Cell>, i: nat, size: u32, rc: nat,
                            res: nat) {
    && i + 1 < |cs|
    && (WayOf(cs, i, size, |d|).Refused? ==> TooSmall(d, d', cs, cs', size, rc))
    && (WayOf(cs, i, size, |d|).IntoTail? ==> rc == 0 && res == ReallocAddress(cs, i, size, |d|))
    && (ReallocFits(cs, i, size, |d|) && !WayOf(cs, i, size, |d|).Refused? ==>
          rc == 0 && res == ReallocAddress(cs, i, size, |d|))
    && (ReallocFits(cs, i, size, |d|) ==> Heap(d', cs') && cs' == Realloced(cs, i, size, |d|))
    && (ReallocFits(cs, i, size, |d|) && rc == 0 ==>
          Resized(Blocks(d, cs), Blocks(d', cs'), cs[i].off + HEADER, res, size))
  }

  lemma StayedResized(d: seq<byte>, d': seq<byte>, cs: seq<Cell>, cs': seq<Cell>, i: nat, size: u32, p: nat)
    requires i + 1 < |cs| && WayOf(cs, i, size, |d|).Stays? && p == cs[i].off + HEADER
    requires Kept(d, d', cs, cs', p, size) && cs' == Refitted(cs, i, i + 1, size, RoundUp(size))
    ensures ResizedTo(d, d', cs, cs', i, size, 0, p)
  {
  }

  lemma GrownResized(d: seq<byte>, d': seq<byte>, cs: seq<Cell>, cs': seq<Cell>, i: nat, size: u32, p: nat)
    requires i + 1 < |cs| && p == cs[i].off + HEADER
    requires WayOf(cs, i, size, |d|).IntoNext? || WayOf(cs, i, size, |d|).IntoTail?
    requires ReallocFits(cs, i, size, |d|) ==> Kept(d, d', cs, cs', p, size) && cs' == Realloced(cs, i, size, |d|)
    ensures ResizedTo(d, d', cs, cs', i, size, 0, p)
  {
  }

  lemma MovedResized(d: seq<byte>, d': seq<byte>, cs: seq<Cell>, cs': seq<Cell>, i: nat, size: u32, rc: nat, res: nat,
                     p: nat)
    requires i + 1 < |cs| && p == cs[i].off + HEADER
    requires WayOf(cs, i, size, |d|).Moved? || WayOf(cs, i, size, |d|).Refused?
    requires Pick(cs, 0, size, |d|) == |cs| ==> TooSmall(d, d', cs, cs', size, rc)
    requires AllocFits(cs, size, |d|) ==> Heap(d', cs')
    requires AllocFits(cs, size, |d|) && Pick(cs, 0, size, |d|) < |cs| ==>
      && rc == 0 && res == AllocAddress(cs, size, |d|)
      && Resized(Blocks(d, cs), Blocks(d', cs'), p, res, size) && cs' == FreedBlock(Alloced(cs, size, |d|), p)
    ensures ResizedTo(d, d', cs, cs', i, size, rc, res)
  {
  }

  /** What resizing comes to, told from offsets and lengths. */
  lemma ResizedPlace(d: seq<byte>, d': seq<byte>, cs: seq<Cell>, cs': seq<Cell>, i: nat, size: u32, rc: nat, res: nat)
    requires Ordered(cs, |d|) && |d| < WORD && ResizedTo(d, d', cs, cs', i, size, rc, res)
    ensures KeepsPlace(cs, i, size, |d|) ==> rc == 0 && res == cs[i].off + HEADER
    ensures !KeepsPlace(cs, i, size, |d|) && AllocFits(cs, size, |d|) ==>
      if rc == 0 then exists k | 0 <= k < |cs| :: FirstWithRoom(cs, k, size, |d|, res)
      else TooSmall(d, d', cs, cs', size, rc)
  {
    PlaceExact(cs, i, size, |d|);
    AllocMeaning(cs, size, |d|);
  }

  class AccountData {
    const data: array<byte>
    ghost var cells: seq<Cell>

    ghost predicate Valid()
      reads this, data
    {
      Heap(data[..], cells)
    }

    /** The live blocks and their bytes. */
    ghost function Contents(): map<nat, seq<byte>>
      requires Valid()
      reads this, data
    {
      Blocks(data[..], cells)
    }

    /** A fresh account: heap_offset is set and the first chunk's header is zero. */
    constructor (d: array<byte>)
      requires HEADER <= d.Length < WORD
      requires var start := Get32(d[..], HEAP_OFFSET_FIELD);
        && start % 8 == 0 && HEADER <= start && start + HEADER <= d.Length
        && HeaderAt(d[..], start) == Header(0, 0, 0, 0)
      ensures data == d && Valid() && Contents() == map[] && cells == [Cell(Get32(d[..], HEAP_OFFSET_FIELD), 0, false)]
    {
      data := d;
      cells := [Cell(Get32(d[..], HEAP_OFFSET_FIELD), 0, false)];
      new;
      assert LinkedAt(data[..], cells, 0);
      NoBlocks(data[..], cells);
    }

    /** Puts a block in the trailing chunk and a new trailing chunk behind it, if the check for room lets it. */
    method GrowTail(ghost k: nat, offset: u32, offsetPrev: u32, size: u32, allocSize: u32) returns (rc: nat)
      requires Valid() && k == |cells| - 1
      requires offset == cells[k].off && offsetPrev == PrevOff(cells, k)
      requires 0 < size && allocSize == RoundUp32(size)
      modifies data, this`cells
      ensures rc == if TailRefused(offset, size, data.Length) then ERROR_ACCOUNT_DATA_TOO_SMALL else 0
      ensures rc == 0 && Suits(old(cells), k, RoundUp(size), data.Length) ==>
        && Valid() && Fresh(old(Contents()), Contents(), size, offset + HEADER)
        && cells == Taken(old(cells), k, size, RoundUp(size))
      ensures rc != 0 ==> data[..] == old(data[..]) && cells == old(cells)
    {
      ghost var d, cs := data[..], cells;
      ChunkFacts(d, cs, k);
      var next := Add32(Add32(offset, HEADER), allocSize);
      if next + HEADER >= data.Length {
        return ERROR_ACCOUNT_DATA_TOO_SMALL;
      }
      StoreTwo(data, offset, Header(next, offsetPrev, size, 1), next, Header(0, offset, 0, 0));
      if Suits(cs, k, RoundUp(size), data.Length) {
        RoundUpExact(size);
        NoWrap(offset, HEADER);
        NoWrap(offset + HEADER, allocSize);
        assert AlignedAt(cs, k);
        AlignedSum(offset, allocSize);
        cells := Taken(cs, k, size, allocSize);
        Claim2(d, data[..], cs, k, Cell(offset, size, true), Cell(next, 0, false), cells, offset + HEADER);
      }
      rc := 0;
    }

    /** Hands out a free chunk whole. */
    method TakeChunk(ghost k: nat, offset: u32, chunk: Header, size: u32)
      requires Valid() && k < |cells| - 1 && !cells[k].used && 0 < size
      requires offset == cells[k].off && offset + HEADER <= data.Length && chunk == HeaderAt(data[..], offset)
      modifies data, this`cells
      ensures size <= old(cells)[k].length ==> Valid() && Fresh(old(Contents()), Contents(), size, offset + HEADER)
      ensures cells == Splice(old(cells), k, k + 1, [Cell(offset, size, true)])
    {
      ghost var d, cs := data[..], cells;
      ChunkFacts(d, cs, k);
      cells := Splice(cs, k, k + 1, [Cell(offset, size, true)]);
      StoreHeader(data, offset, chunk.(inUse := 1, length := size));
      if size <= cs[k].length {
        Claim1(d, data[..], cs, k, Cell(offset, size, true));
      }
    }

    /** Hands out the front of a free chunk and leaves the rest as a free chunk. */
    method SplitChunk(ghost k: nat, offset: u32, chunk: Header, size: u32, allocSize: u32)
      requires Valid() && k < |cells| - 1 && !cells[k].used
      requires offset == cells[k].off && offset + HEADER <= data.Length && chunk == HeaderAt(data[..], offset)
      requires 0 < size && allocSize % 8 == 0 && allocSize + HEADER + 8 <= cells[k].length
      modifies data, this`cells
      ensures size <= allocSize ==> Valid() && Fresh(old(Contents()), Contents(), size, offset + HEADER)
      ensures cells == Splice(old(cells), k, k + 1, Carving(old(cells), k, k + 1, size, allocSize))
    {
      ghost var d, cs := data[..], cells;
      ChunkFacts(d, cs, k);
      var next := chunk.next;
      var nextOffset: u32 := offset + HEADER + allocSize;
      assert AlignedAt(cs, k);
      AlignedSum(offset, allocSize);
      cells := Splice(cs, k, k + 1, Carving(cs, k, k + 1, size, allocSize));
      StorePair(data, offset, chunk.(next := nextOffset, length := size, inUse := 1),
                nextOffset, Header(next, offset, next - nextOffset - HEADER, 0), next);
      if size <= allocSize {
        Claim2(d, data[..], cs, k, Cell(offset, size, true), Cell(nextOffset, next - nextOffset - HEADER, false),
               cells, offset + HEADER);
      }
    }

    /** Hands out a free chunk that is long enough: whole if it is just right, split if it is too big. */
    method UseChunk(ghost k: nat, offset: u32, chunk: Header, size: u32, allocSize: u32)
      requires Valid() && k < |cells| - 1 && !cells[k].used
      requires offset == cells[k].off && offset + HEADER <= data.Length && chunk == HeaderAt(data[..], offset)
      requires 0 < size && allocSize % 8 == 0 && allocSize <= cells[k].length
      modifies data, this`cells
      ensures size <= allocSize ==> Valid() && Fresh(old(Contents()), Contents(), size, offset + HEADER)
      ensures cells == Taken(old(cells), k, size, allocSize)
    {
      ChunkFacts(data[..], cells, k);
      if allocSize + HEADER + 8 > chunk.length {
        TakeChunk(k, offset, chunk, size);
      } else {
        SplitChunk(k, offset, chunk, size, allocSize);
      }
    }

    /**
     First fit: walks the list to a chunk that the code takes, or to the end of it.  For every size the
     chunk is known; the block is a true one if and only if the chunk suits.
     */
    method Alloc(size: u32) returns (rc: nat, res: u32)
      requires Valid()
      modifies data, this`cells
      ensures size == 0 ==> rc == 0 && res == 0 && data[..] == old(data[..]) && cells == old(cells)
      ensures size > 0 && Pick(old(cells), 0, size, data.Length) == |old(cells)| ==>
        TooSmall(old(data[..]), data[..], old(cells), cells, size, rc)
      ensures size > 0 && Pick(old(cells), 0, size, data.Length) < |old(cells)| ==>
        rc == 0 && res == AllocAddress(old(cells), size, data.Length) != 0
      ensures size == 0 || AllocFits(old(cells), size, data.Length) ==> Valid()
      ensures size > 0 && rc == 0 && AllocFits(old(cells), size, data.Length) ==>
        && Fresh(old(Contents()), Contents(), size, res) && cells == Alloced(old(cells), size, data.Length)
        && exists k | 0 <= k < |old(cells)| :: FirstWithRoom(old(cells), k, size, data.Length, res)
    {
      if size == 0 {
        return 0, 0;
      }
      ghost var cs := cells;
      rc, res := Walk(size);
      AllocMeaning(cs, size, data.Length);
    }

    /** The walk, for a size above 0. */
    method Walk(size: u32) returns (rc: nat, res: u32)
      requires Valid() && 0 < size
      modifies data, this`cells
      ensures Pick(old(cells), 0, size, data.Length) == |old(cells)| ==>
        rc == ERROR_ACCOUNT_DATA_TOO_SMALL && data[..] == old(data[..]) && cells == old(cells)
      ensures Pick(old(cells), 0, size, data.Length) < |old(cells)| ==>
        rc == 0 && res == AllocAddress(old(cells), size, data.Length) != 0
      ensures AllocFits(old(cells), size, data.Length) ==> Valid()
      ensures rc == 0 && AllocFits(old(cells), size, data.Length) ==>
        Fresh(old(Contents()), Contents(), size, res) && cells == Alloced(old(cells), size, data.Length)
    {
      var offset := Get32(data[..], HEAP_OFFSET_FIELD);
      var allocSize := RoundUp32(size);
      RoundUpExact(size);
      var offsetPrev: u32 := 0;
      ghost var k := 0;
      while true
        invariant k < |cells| && cells == old(cells) && data[..] == old(data[..])
        invariant offset == cells[k].off && offsetPrev == PrevOff(cells, k)
        invariant Pick(cells, k, size, data.Length) == Pick(cells, 0, size, data.Length)
        decreases |cells| - k
      {
        ChunkFacts(data[..], cells, k);
        var chunk := LoadHeader(data, offset);
        if chunk.inUse == 0 {
          if chunk.length == 0 {
            assert k == |cells| - 1;
            rc := GrowTail(k, offset, offsetPrev, size, allocSize);
            return rc, if rc == 0 then offset + HEADER else 0;
          } else if chunk.length < allocSize {
            // too small
          } else {
            UseChunk(k, offset, chunk, size, allocSize);
            return 0, offset + HEADER;
          }
        }
        offsetPrev := offset;
        offset := chunk.next;
        k := k + 1;
      }
    }

    method Len(offset: u32) returns (len: u32)
      requires Valid() && (offset == 0 || offset in Contents())
      ensures len == if offset == 0 then 0 else |Contents()[offset]|
    {
      if offset == 0 {
        return 0;
      }
      ghost var i := Index(cells, offset);
      BlockIndex(data[..], cells, offset, i);
      ChunkFacts(data[..], cells, i);
      var chunk := LoadHeader(data, offset - HEADER);
      len := chunk.length;
    }

    method MarkFree(ghost i: nat, offset: u32) returns (chunk: Header)
      requires Valid() && i + 1 < |cells| && cells[i].used && offset == cells[i].off
      modifies data
      ensures Detached(old(data[..]), data[..], cells, i, i, Cell(offset, cells[i].length, false))
      ensures chunk.prev == PrevOff(cells, i) && chunk.next == cells[i + 1].off && (chunk.prev == 0 <==> i == 0)
      ensures i > 0 ==>
        chunk.prev + HEADER <= data.Length && HeaderAt(data[..], chunk.prev) == HeaderAt(old(data[..]), chunk.prev)
    {
      ChunkFacts(data[..], cells, i);
      if i > 0 {
        assert InPlace(cells, i - 1, data.Length);
      }
      chunk := LoadHeader(data, offset);
      StoreHeader(data, offset, chunk.(inUse := 0));
    }

    method MergePrev(ghost d: seq<byte>, ghost i: nat, chunk: Header, prev: Header) returns (ghost w: Cell)
      requires 0 < i < |cells| && Detached(d, data[..], cells, i, i, Cell(cells[i].off, cells[i].length, false))
      requires chunk.prev == cells[i - 1].off && chunk.next == cells[i + 1].off
      requires !cells[i - 1].used && chunk.prev + HEADER <= |d| && prev == HeaderAt(d, chunk.prev)
      modifies data
      ensures Detached(d, data[..], cells, i, i - 1, w) && w == FreeCell(cells, i - 1, i + 1)
    {
      DetachedFacts(d, data[..], cells, i);
      w := Cell(chunk.prev, chunk.next - chunk.prev - HEADER, false);
      StoreBefore(data, chunk.prev, prev.(length := chunk.next - chunk.prev - HEADER, next := chunk.next), chunk.next);
      DetachPrev(d, old(data[..]), data[..], cells, i, w);
    }

    /** Merges the detached chunk with the free chunk behind it. */
    method AbsorbNext(ghost d: seq<byte>, ghost i: nat, ghost a: nat, ghost w: Cell, offset: u32, chunk: Header,
                      next: Header,
                      ghost p: nat)
      requires Detached(d, data[..], cells, i, a, w) && (a > 0 ==> cells[a - 1].used) && offset == w.off
      requires a == FreeStart(cells, i) && p == cells[i].off + HEADER
      requires !cells[i + 1].used && next.next == NextOff(cells, i + 1)
      requires offset + HEADER <= data.Length && chunk == HeaderAt(data[..], offset)
      modifies data, this`cells
      ensures Released(d, data[..], old(cells), cells, p) && cells == Freed(old(cells), i)
    {
      ghost var d1, cs, w' := data[..], cells, FreeCell(cells, a, i + 2);
      ChunkFacts(d, cs, i + 1);
      cells := Splice(cs, a, i + 2, [w']);
      if next.next != 0 {
        StoreBefore(data, offset, chunk.(next := next.next, length := next.next - offset - HEADER), next.next);
        ReleaseNext(d, d1, data[..], cs, i, a, w, w');
      } else {
        StoreHeader(data, offset, chunk.(next := 0, length := 0));
        ReleaseTail(d, d1, data[..], cs, i, a, w, w');
      }
    }

    /** Merges the detached chunk with the chunk behind it, if that is free. */
    method MergeNext(ghost d: seq<byte>, ghost i: nat, ghost a: nat, ghost w: Cell, offset: u32, ghost p: nat)
      requires Detached(d, data[..], cells, i, a, w) && (a > 0 ==> cells[a - 1].used) && offset == w.off
      requires p == cells[i].off + HEADER
      requires a == FreeStart(cells, i)
      requires w == if a < i then FreeCell(cells, a, i + 1) else Cell(offset, cells[i].length, false)
      modifies data, this`cells
      ensures Released(d, data[..], old(cells), cells, p) && cells == Freed(old(cells), i)
    {
      ghost var cs := cells;
      ChunkFacts(d, cs, i + 1);
      var chunk := LoadHeader(data, offset);
      if chunk.next != 0 {
        var next := LoadHeader(data, chunk.next);
        if next.inUse == 0 {
          AbsorbNext(d, i, a, w, offset, chunk, next, p);
        } else {
          FreedAlone(cs, i, a, w);
          cells := Freed(cs, i);
          ReleaseAlone(d, data[..], cs, i, a, w);
        }
      } else {
        assert false;
      }
    }

    /** Marks chunk i free and merges it into the chunk before it, if that is free. */
    method Detach(ghost i: nat, offset: u32) returns (merged: u32, ghost a: nat, ghost w: Cell)
      requires Valid() && i + 1 < |cells| && cells[i].used && offset == cells[i].off
      modifies data
      ensures Detached(old(data[..]), data[..], cells, i, a, w) && (a > 0 ==> cells[a - 1].used) && merged == w.off
      ensures a == FreeStart(cells, i)
      ensures w == if a < i then FreeCell(cells, a, i + 1) else Cell(offset, cells[i].length, false)
    {
      ghost var d := data[..];
      var chunk := MarkFree(i, offset);
      merged, a, w := offset, i, Cell(offset, cells[i].length, false);
      if chunk.prev != 0 {
        assert LinkedAt(d, cells, i - 1);
        var prev := LoadHeader(data, chunk.prev);
        if prev.inUse == 0 {
          w := MergePrev(d, i, chunk, prev);
          a, merged := i - 1, chunk.prev;
          assert a > 0 ==> OneUsed(cells, a - 1);
        }
      }
    }

    method Free(offset: u32)
      requires Valid() && (offset == 0 || offset in Contents())
      modifies data, this`cells
      ensures Valid() && Contents() == old(Contents()) - {offset as nat} && cells == FreedBlock(old(cells), offset)
    {
      if offset == 0 {
        OrderedCuts(cells, 0, |cells|, data.Length);
        assert cells[0..|cells|] == cells;
        BlocksRange(data[..], cells, cells[0].off, data.Length);
        return;
      }
      ghost var d := data[..];
      ghost var i := Index(cells, offset);
      BlockIndex(d, cells, offset, i);
      var off, a, w := Detach(i, offset - HEADER);
      MergeNext(d, i, a, w, off, offset);
    }

    /** Records a new length in a chunk that has room for it. */
    method SetLength(ghost i: nat, chunkOffset: u32, chunk: Header, size: u32)
      requires Valid() && i + 1 < |cells| && cells[i].used && chunkOffset == cells[i].off
      requires chunkOffset + HEADER <= data.Length && chunk == HeaderAt(data[..], chunkOffset)
      requires 0 < size && chunkOffset + HEADER + size <= cells[i + 1].off
      modifies data, this`cells
      ensures Kept(old(data[..]), data[..], old(cells), cells, chunkOffset + HEADER, size)
      ensures cells == Splice(old(cells), i, i + 1, [Cell(chunkOffset, size, true)])
    {
      ghost var d, cs, w := data[..], cells, Cell(chunkOffset, size, true);
      ChunkFacts(d, cs, i);
      cells := Splice(cs, i, i + 1, [w]);
      StoreHeader(data, chunkOffset, chunk.(length := size));
      Resize1(d, data[..], cs, i, i + 1, w, cells, chunkOffset + HEADER);
    }

    /** Takes over the free chunk behind, whole. */
    method Swallow(ghost i: nat, chunkOffset: u32, chunk: Header, size: u32, after: u32)
      requires Valid() && i + 2 < |cells| && cells[i].used && !cells[i + 1].used && chunkOffset == cells[i].off
      requires chunkOffset + HEADER <= data.Length && chunk == HeaderAt(data[..], chunkOffset)
      requires after == cells[i + 2].off && chunkOffset + HEADER + size <= after && 0 < size
      modifies data, this`cells
      ensures Kept(old(data[..]), data[..], old(cells), cells, chunkOffset + HEADER, size)
      ensures cells == Splice(old(cells), i, i + 2, [Cell(chunkOffset, size, true)])
    {
      ghost var d, cs, w := data[..], cells, Cell(chunkOffset, size, true);
      SwallowRoom(d, cs, i);
      cells := Splice(cs, i, i + 2, [w]);
      StoreBefore(data, chunkOffset, chunk.(next := after, length := size), after);
      Swallowed(d, data[..], cs, i, w, cells, chunkOffset + HEADER);
    }

    /** Ends the block's chunk after allocSize bytes and puts a free chunk there, reaching to the chunk at after. */
    method Carve(ghost i: nat, ghost j: nat, chunkOffset: u32, chunk: Header, size: u32, allocSize: u32, after: u32)
      requires Valid() && i < j <= i + 2 && j < |cells| && cells[i].used && chunkOffset == cells[i].off
      requires chunkOffset + HEADER <= data.Length && chunk == HeaderAt(data[..], chunkOffset)
      requires (j == i + 2 ==> !cells[i + 1].used) && after == cells[j].off && cells[j].used
      requires 0 < size <= allocSize && allocSize % 8 == 0
      requires chunkOffset + HEADER + allocSize + HEADER + 8 <= after
      modifies data, this`cells
      ensures Kept(old(data[..]), data[..], old(cells), cells, chunkOffset + HEADER, size)
      ensures cells == Splice(old(cells), i, j, Carving(old(cells), i, j, size, allocSize))
    {
      ghost var d, cs := data[..], cells;
      CarveRoom(d, cs, i, j, allocSize);
      var next: u32 := chunkOffset + HEADER + allocSize;
      var length: u32 := after - next - HEADER;
      cells := Splice(cs, i, j, Carving(cs, i, j, size, allocSize));
      StorePair(data, chunkOffset, chunk.(next := next, length := size), next, Header(after, chunkOffset, length, 0),
                after);
      Carved(d, data[..], cs, i, j, Cell(chunkOffset, size, true), Cell(next, length, false), cells,
             chunkOffset + HEADER);
    }

    /** Ends the block's chunk at next and puts a new trailing chunk there. */
    method CarveTail(ghost i: nat, chunkOffset: u32, chunk: Header, size: u32, next: u32)
      requires Valid() && i + 2 == |cells| && cells[i].used && !cells[i + 1].used && chunkOffset == cells[i].off
      requires 0 < size
      requires chunkOffset + HEADER <= data.Length && chunk == HeaderAt(data[..], chunkOffset)
      requires next + HEADER <= data.Length
      modifies data, this`cells
      ensures chunkOffset + HEADER + size <= next && next % 8 == 0 ==>
        && Kept(old(data[..]), data[..], old(cells), cells, chunkOffset + HEADER, size)
        && cells == Splice(old(cells), i, i + 2, [Cell(chunkOffset, size, true), Cell(next, 0, false)])
    {
      ghost var d, cs := data[..], cells;
      StoreTwo(data, chunkOffset, chunk.(next := next, length := size), next, Header(0, chunkOffset, 0, 0));
      if chunkOffset + HEADER + size <= next && next % 8 == 0 {
        cells := Splice(cs, i, i + 2, [Cell(chunkOffset, size, true), Cell(next, 0, false)]);
        CarvedTail(d, data[..], cs, i, Cell(chunkOffset, size, true), Cell(next, 0, false), cells,
                   chunkOffset + HEADER);
      }
    }

    /** The copy loop that moves len bytes from block p to the front of block q. */
    method CopyBlock(q: u32, p: u32, len: u32)
      requires Valid() && p in Contents() && q in Contents() && p != q
      requires len == |Contents()[p]| <= |Contents()[q]|
      modifies data
      ensures Valid()
      ensures Contents() == old(Contents())[q as nat := old(Contents())[p] + old(Contents())[q][len..]]
    {
      ghost var d, v := data[..], Contents()[p] + Contents()[q][len..];
      ghost var i, j := CopyRanges(d, cells, p, q);
      MemCpy(data, q, p, len);
      CopiedBlock(d, data[..], cells, i, j, p, q, v);
    }

    /**
     Gives the block a new chunk of its own and drops the old one.  When the new chunk is too small the copy
     and the release run on a damaged heap: nothing is said of what comes of that.
     */
    method MoveBlock(offset: u32, size: u32) returns (rc: nat, res: u32)
      requires Valid() && offset != 0 && offset in Contents() && |Contents()[offset]| <= size && 0 < size
      modifies data, this`cells
      ensures Pick(old(cells), 0, size, data.Length) == |old(cells)| ==>
        TooSmall(old(data[..]), data[..], old(cells), cells, size, rc)
      ensures AllocFits(old(cells), size, data.Length) ==> Valid()
      ensures AllocFits(old(cells), size, data.Length) && Pick(old(cells), 0, size, data.Length) < |old(cells)| ==>
        && rc == 0 && res == AllocAddress(old(cells), size, data.Length) != 0
        && Resized(old(Contents()), Contents(), offset, res, size)
        && cells == FreedBlock(Alloced(old(cells), size, data.Length), offset)
    {
      ghost var m := Contents();
      AllocFitsByAddress(cells, size, data.Length);
      var oldLength := Len(offset);
      rc, res := Alloc(size);
      if rc != 0 {
        return rc, 0;
      }
      if res + RoundUp(size) >= WORD {
        rc, res := *, *;
        return;
      }
      ghost var m1 := Contents();
      FreshKeeps(m, m1, size, res, offset);
      CopyBlock(res, offset, oldLength);
      ghost var m2 := Contents();
      Free(offset);
      MovedBlock(m, m1, m2, Contents(), offset, res, size);
    }

    /** Gives back what is behind allocSize bytes, together with a free chunk behind that. */
    method GiveBack(ghost i: nat, offset: u32, chunk: Header, next: Header, size: u32, allocSize: u32)
      requires Valid() && i + 1 < |cells| && cells[i].used && offset == cells[i].off + HEADER
      requires offset <= data.Length && chunk == HeaderAt(data[..], offset - HEADER)
      requires chunk.next == cells[i + 1].off && cells[i + 1].off + HEADER <= data.Length
      requires next == HeaderAt(data[..], chunk.next)
      requires 0 < size <= allocSize && allocSize % 8 == 0 && chunk.next - offset >= allocSize + HEADER + 8
      modifies data, this`cells
      ensures Kept(old(data[..]), data[..], old(cells), cells, offset, size)
      ensures cells == Refitted(old(cells), i, i + 1, size, allocSize)
    {
      ghost var d, cs := data[..], cells;
      ShrinkFacts(d, cs, i);
      RefittedCut(cs, i, i + 1, size, allocSize);
      if next.inUse == 0 {
        if next.next == 0 {
          CarveRoom(d, cs, i, i + 2, allocSize);
          CarvingTail(cs, i, size, allocSize, offset + allocSize);
          CarveTail(i, offset - HEADER, chunk, size, offset + allocSize);
        } else {
          Carve(i, i + 2, offset - HEADER, chunk, size, allocSize, next.next);
        }
      } else {
        Carve(i, i + 1, offset - HEADER, chunk, size, allocSize, chunk.next);
      }
    }

    /** The chunk has room for size bytes: records the length and gives back what is worth a chunk of its own. */
    method Shrink(ghost i: nat, offset: u32, chunk: Header, next: Header, size: u32, allocSize: u32)
      requires Valid() && i + 1 < |cells| && cells[i].used && offset == cells[i].off + HEADER
      requires offset <= data.Length && chunk == HeaderAt(data[..], offset - HEADER)
      requires chunk.next == cells[i + 1].off && cells[i + 1].off + HEADER <= data.Length
      requires next == HeaderAt(data[..], chunk.next)
      requires 0 < size <= allocSize && allocSize % 8 == 0 && offset + size <= cells[i + 1].off
      modifies data, this`cells
      ensures Kept(old(data[..]), data[..], old(cells), cells, offset, size)
      ensures cells == Refitted(old(cells), i, i + 1, size, allocSize)
    {
      if chunk.next - offset >= allocSize + HEADER + 8 {
        GiveBack(i, offset, chunk, next, size, allocSize);
      } else {
        SetLength(i, offset - HEADER, chunk, size);
      }
    }

    /** Takes room from the free chunk behind, which is not the tail, if together they are big enough. */
    method ExpandInto(ghost i: nat, offset: u32, chunk: Header, after: u32, size: u32, allocSize: u32)
      returns (done: bool)
      requires Valid() && i + 2 < |cells| && cells[i].used && !cells[i + 1].used && offset == cells[i].off + HEADER
      requires offset <= data.Length && chunk == HeaderAt(data[..], offset - HEADER) && after == cells[i + 2].off
      requires 0 < size && allocSize == RoundUp32(size) && cells[i + 1].off < offset + size
      modifies data, this`cells
      ensures done <==> RoomBehind(old(cells), i, size)
      ensures done ==> Kept(old(data[..]), data[..], old(cells), cells, offset, size)
      ensures done ==> cells == Refitted(old(cells), i, i + 2, size, RoundUp(size))
      ensures !done ==> data[..] == old(data[..]) && cells == old(cells)
    {
      SwallowRoom(data[..], cells, i);
      assert OneUsed(cells, i + 1);
      var mergedSize := after - offset;
      done := size < mergedSize;
      if done {
        RoundUpExact(size);
        RoundedFits(data[..], cells, i, i + 2, size, allocSize);
        if mergedSize - allocSize < 8 + HEADER {
          Swallow(i, offset - HEADER, chunk, size, after);
        } else {
          Carve(i, i + 2, offset - HEADER, chunk, size, allocSize, after);
        }
      }
    }

    /** Lets the block grow into the tail, if the check for room lets it. */
    method ExpandTail(ghost i: nat, offset: u32, chunk: Header, size: u32, allocSize: u32) returns (done: bool)
      requires Valid() && i + 2 == |cells| && cells[i].used && !cells[i + 1].used && offset == cells[i].off + HEADER
      requires offset <= data.Length && chunk == HeaderAt(data[..], offset - HEADER)
      requires 0 < size && allocSize == RoundUp32(size)
      modifies data, this`cells
      ensures done <==> TailBehind(old(cells), i, size, data.Length)
      ensures done && offset + RoundUp(size) < WORD ==>
        && Kept(old(data[..]), data[..], old(cells), cells, offset, size)
        && cells == Splice(old(cells), i, i + 2, Carving(old(cells), i, i + 2, size, RoundUp(size)))
      ensures !done ==> data[..] == old(data[..]) && cells == old(cells)
    {
      ghost var cs := cells;
      var next := Add32(offset, allocSize);
      done := next + HEADER < data.Length;
      if done {
        TailSum(offset, size, data.Length);
        TailNext(data[..], cs, i, offset, size, next);
        CarveTail(i, offset - HEADER, chunk, size, next);
      }
    }

    /** Tries to take room from the chunk behind. */
    method Expand(ghost i: nat, offset: u32, chunk: Header, next: Header, size: u32, allocSize: u32)
      returns (done: bool)
      requires Valid() && i + 1 < |cells| && cells[i].used && !cells[i + 1].used && offset == cells[i].off + HEADER
      requires offset <= data.Length && chunk == HeaderAt(data[..], offset - HEADER)
      requires next.next == NextOff(cells, i + 1) && (next.next == 0 <==> i + 2 == |cells|)
      requires 0 < size && allocSize == RoundUp32(size) && !WayOf(cells, i, size, data.Length).Stays?
      modifies data, this`cells
      ensures done ==> ResizedTo(old(data[..]), data[..], old(cells), cells, i, size, 0, offset)
      ensures !done ==> data[..] == old(data[..]) && cells == old(cells)
      ensures done <==> KeepsPlace(old(cells), i, size, data.Length)
    {
      ghost var d, cs := data[..], cells;
      PlaceExact(cs, i, size, data.Length);
      ReallocFitsByAddress(cs, i, size, data.Length);
      if next.next != 0 {
        done := ExpandInto(i, offset, chunk, next.next, size, allocSize);
      } else {
        done := ExpandTail(i, offset, chunk, size, allocSize);
      }
      if done {
        GrownResized(d, data[..], cs, cells, i, size, offset);
      }
    }

    /** Resizes a live block, saying by which way it goes. */
    method ResizeBlock(ghost i: nat, offset: u32, size: u32) returns (rc: nat, res: u32)
      requires Valid() && offset != 0 && offset in Contents() && 0 < size && i == Index(cells, offset)
      modifies data, this`cells
      ensures ResizedTo(old(data[..]), data[..], old(cells), cells, i, size, rc, res)
    {
      ghost var d, cs := data[..], cells;
      BlockIndex(d, cs, offset, i);
      ChunkFacts(d, cs, i);
      ShrinkFacts(d, cs, i);
      var chunk := LoadHeader(data, offset - HEADER);
      var next := LoadHeader(data, chunk.next);
      var existingSize := chunk.next - offset;
      var allocSize := RoundUp32(size);
      if size <= existingSize {
        RoundUpExact(size);
        Shrink(i, offset, chunk, next, size, allocSize);
        StayedResized(d, data[..], cs, cells, i, size, offset);
        return 0, offset;
      }
      if next.inUse == 0 {
        var done := Expand(i, offset, chunk, next, size, allocSize);
        if done {
          return 0, offset;
        }
      }
      PlaceExact(cs, i, size, data.Length);
      rc, res := MoveBlock(offset, size);
      MovedResized(d, data[..], cs, cells, i, size, rc, res, offset);
    }

    /** Resizes a live block: in its own chunk, with room from the next one, or by moving it. */
    method Resize(ghost i: nat, offset: u32, size: u32) returns (rc: nat, res: u32)
      requires Valid() && offset != 0 && offset in Contents() && 0 < size && i == Index(cells, offset)
      modifies data, this`cells
      ensures ResizedTo(old(data[..]), data[..], old(cells), cells, i, size, rc, res)
      ensures i + 1 < |old(cells)|
      ensures KeepsPlace(old(cells), i, size, data.Length) ==> rc == 0 && res == offset
      ensures !KeepsPlace(old(cells), i, size, data.Length) && AllocFits(old(cells), size, data.Length) ==>
        if rc == 0 then exists k | 0 <= k < |old(cells)| :: FirstWithRoom(old(cells), k, size, data.Length, res)
        else TooSmall(old(data[..]), data[..], old(cells), cells, size, rc)
    {
      ghost var d, cs := data[..], cells;
      BlockIndex(d, cs, offset, i);
      rc, res := ResizeBlock(i, offset, size);
      ResizedPlace(d, data[..], cs, cells, i, size, rc, res);
    }

    /** Resizes a block, 0 standing for none; a size of 0 frees it. */
    method Realloc(offset: u32, size: u32) returns (rc: nat, res: u32)
      requires Valid() && (offset == 0 || offset in Contents())
      modifies data, this`cells
      ensures size == 0 ==>
        && rc == 0 && res == 0 && Valid() && Contents() == old(Contents()) - {offset as nat}
        && cells == FreedBlock(old(cells), offset)
      ensures size > 0 && offset == 0 ==>
        && (rc == 0 <==> Pick(old(cells), 0, size, data.Length) < |old(cells)|)
        && (rc != 0 ==> TooSmall(old(data[..]), data[..], old(cells), cells, size, rc))
        && (rc == 0 ==> res == AllocAddress(old(cells), size, data.Length))
        && (AllocFits(old(cells), size, data.Length) ==> Valid() && cells == Alloced(old(cells), size, data.Length))
        && (AllocFits(old(cells), size, data.Length) && rc == 0 ==> Fresh(old(Contents()), Contents(), size, res))
      ensures size > 0 && offset != 0 ==>
        ResizedTo(old(data[..]), data[..], old(cells), cells, Index(old(cells), offset), size, rc, res)
      ensures size > 0 && offset != 0 ==>
        var cs, i := old(cells), Index(old(cells), offset);
        && i + 1 < |cs| && (KeepsPlace(cs, i, size, data.Length) ==> rc == 0 && res == offset)
        && (!KeepsPlace(cs, i, size, data.Length) && AllocFits(cs, size, data.Length) ==>
              if rc == 0 then exists k | 0 <= k < |cs| :: FirstWithRoom(cs, k, size, data.Length, res)
              else TooSmall(old(data[..]), data[..], cs, cells, size, rc))
    {
      if size == 0 {
        Free(offset);
        rc, res := 0, 0;
      } else if offset == 0 {
        rc, res := Alloc(size);
      } else {
        BlockIndex(data[..], cells, offset, Index(cells, offset));
        rc, res := Resize(Index(cells, offset), offset, size);
      }
    }

    /** The user's memset: fills block p with b from byte index from on. */
    method Fill(p: u32, from: u32, len: u32, b: byte)
      requires Valid() && p in Contents() && from <= len == |Contents()[p]|
      modifies data
      ensures Valid()
      ensures Contents() == old(Contents())[p as nat := old(Contents())[p][..from] + seq(len - from, _ => b)]
    {
      ghost var d := data[..];
      ghost var i := BlockCell(d, cells, p);
      CellBlock(d, cells, i);
      OrderedPair(cells, |d|, i, |cells|);
      MemSet(data, p + from, len - from, b);
      Overwrite(d, data[..], cells, i);
      assert Payload(data[..], cells[i]) == Payload(d, cells[i])[..from] + seq(len - from, _ => b);
    }
  }
}
