/**
 The account heap's allocator on the list of chunks alone: which chunk is chosen, what becomes of the
 list, and how much room the list can waste.  The heap in the buffer is proved to follow it.
 */
module AccountCells {
  import opened Bytes
  import opened ChunkList

  /**
   The invariant of the chunk list: chunks follow each other from start, all but the last hold a
   nonzero length that fits before the next chunk, the last is free with length 0, and free chunks
   are never neighbours.
   */
  ghost predicate WellFormed(cs: seq<Cell>, start: nat, limit: nat) {
    && |cs| > 0
    && cs[0].off == start
    && Ordered(cs, limit)
    && Merged(cs)
    && (forall i | 0 <= i < |cs| :: Sized(cs, i))
  }

  /** The last chunk is the trailing free one; every other has a length. */
  ghost predicate Sized(cs: seq<Cell>, i: nat)
    requires i < |cs|
  {
    if i < |cs| - 1 then cs[i].length > 0 else cs[i].length == 0 && !cs[i].used
  }

  /** A new window that keeps the list well formed when it takes the place of cells i..j. */
  ghost predicate Acceptable(cs: seq<Cell>, i: nat, j: nat, ws: seq<Cell>, limit: nat) {
    && Fits(cs, i, j, ws, limit)
    && Merged(ws)
    && (i > 0 ==> cs[i - 1].used || ws[0].used)
    && (forall k | 0 <= k < |ws| - 1 :: ws[k].length > 0)
    && var w := ws[|ws| - 1];
       if j < |cs| then w.length > 0 && (w.used || cs[j].used) else w.length == 0 && !w.used
  }

  lemma ReplaceSized(cs: seq<Cell>, i: nat, j: nat, ws: seq<Cell>)
    requires i < j <= |cs| && |ws| > 0
    requires forall k | 0 <= k < |cs| :: Sized(cs, k)
    requires forall k | 0 <= k < |ws| - 1 :: ws[k].length > 0
    requires var w := ws[|ws| - 1]; if j < |cs| then w.length > 0 else w.length == 0 && !w.used
    ensures forall k | 0 <= k < |Splice(cs, i, j, ws)| :: Sized(Splice(cs, i, j, ws), k)
  {
    var n := Splice(cs, i, j, ws);
    forall k | 0 <= k < |n|
      ensures Sized(n, k)
    {
      if k < i {
        assert Sized(cs, k) && n[k] == cs[k];
      } else if k < i + |ws| {
        assert n[k] == ws[k - i];
      } else {
        var m := k - |ws| - i + j;
        assert Sized(cs, m) && n[k] == cs[m];
      }
    }
  }

  lemma ReplaceWellFormed(cs: seq<Cell>, start: nat, limit: nat, i: nat, j: nat, ws: seq<Cell>)
    requires WellFormed(cs, start, limit)
    requires Acceptable(cs, i, j, ws, limit)
    ensures WellFormed(Splice(cs, i, j, ws), start, limit)
  {
    SpliceOrdered(cs, i, j, ws, limit);
    SpliceMerged(cs, i, j, ws);
    ReplaceSized(cs, i, j, ws);
  }

  // ---------------------------------------------------------------------------
  // Allocation

  /** Chunk i can serve a request of alloc bytes: a free chunk long enough, or the tail with room to grow. */
  ghost predicate Suits(cs: seq<Cell>, i: nat, alloc: nat, limit: nat)
    requires i < |cs|
  {
    !cs[i].used &&
    if i == |cs| - 1 then cs[i].off + HEADER + alloc + HEADER < limit else alloc <= cs[i].length
  }

  /** The room check of the tail as the code computes it, in 32-bit arithmetic up to the last addition. */
  predicate TailRefused(offset: int, size: u32, limit: nat) {
    Add32(Add32(offset, HEADER), RoundUp32(size)) + HEADER >= limit
  }

  /** Chunk i is taken by the code, which rounds and adds in 32 bits. */
  ghost predicate Accepts(cs: seq<Cell>, i: nat, size: u32, limit: nat)
    requires i < |cs|
  {
    !cs[i].used && if i == |cs| - 1 then !TailRefused(cs[i].off, size, limit) else RoundUp32(size) <= cs[i].length
  }

  /** The first chunk from k on that the code takes, or the length of the list. */
  ghost function Pick(cs: seq<Cell>, k: nat, size: u32, limit: nat): (r: nat)
    requires k <= |cs|
    ensures k <= r <= |cs| && (r < |cs| ==> Accepts(cs, r, size, limit))
    ensures forall m | k <= m < r :: !Accepts(cs, m, size, limit)
    decreases |cs| - k
  {
    if k == |cs| || Accepts(cs, k, size, limit) then k else Pick(cs, k + 1, size, limit)
  }

  /**
   The tail check is the true one exactly when the sum does not wrap, or wraps but still lands past the
   end; otherwise it lets through a request that cannot fit.
   */
  lemma TailCheckExact(offset: u32, size: u32, limit: nat)
    requires offset + HEADER <= limit < WORD
    ensures var sum := offset + HEADER + RoundUp(size);
      (TailRefused(offset, size, limit) <==> sum + HEADER >= limit) <==> (sum < WORD || sum - WORD + HEADER >= limit)
  {
    RoundUpExact(size);
    NoWrap(offset, HEADER);
    if size + 7 >= WORD {
      RoundsToWord(size);
      NoWrap(offset + HEADER, 0);
    } else if offset + HEADER + RoundUp(size) < WORD {
      NoWrap(offset + HEADER, RoundUp(size));
    } else {
      WrapsOnce(offset + HEADER, RoundUp(size));
    }
  }

  lemma RoundsToWord(size: u32)
    requires size + 7 >= WORD
    ensures RoundUp(size) == WORD
  {
    RoundingFits(0, WORD, size, RoundUp(size));
  }

  /** A chunk that suits is taken by the code, and without wrap-around no other one is. */
  lemma AcceptsSuits(cs: seq<Cell>, i: nat, size: u32, limit: nat)
    requires i < |cs| && Ordered(cs, limit) && limit < WORD
    ensures Suits(cs, i, RoundUp(size), limit) ==> Accepts(cs, i, size, limit)
    ensures limit + size + 7 < WORD && Accepts(cs, i, size, limit) ==> Suits(cs, i, RoundUp(size), limit)
  {
    OrderedPair(cs, limit, i, |cs|);
    RoundUpExact(size);
    if i == |cs| - 1 {
      TailCheckExact(cs[i].off, size, limit);
    } else if size + 7 >= WORD {
      RoundsToWord(size);
    }
  }

  ghost predicate FirstFit(cs: seq<Cell>, k: nat, alloc: nat, limit: nat) {
    && k < |cs| && Suits(cs, k, alloc, limit)
    && forall m | 0 <= m < k :: !Suits(cs, m, alloc, limit)
  }

  /** The chunk the code takes is the first that suits, unless it does not suit at all. */
  lemma PickFits(cs: seq<Cell>, size: u32, limit: nat)
    requires Ordered(cs, limit) && limit < WORD
    ensures Pick(cs, 0, size, limit) == |cs| ==> forall m | 0 <= m < |cs| :: !Suits(cs, m, RoundUp(size), limit)
    ensures var k := Pick(cs, 0, size, limit);
      k < |cs| ==> (Suits(cs, k, RoundUp(size), limit) <==> FirstFit(cs, k, RoundUp(size), limit))
    ensures var k := Pick(cs, 0, size, limit);
      k < |cs| && limit + size + 7 < WORD ==> FirstFit(cs, k, RoundUp(size), limit)
  {
    forall m | 0 <= m < |cs|
      ensures Suits(cs, m, RoundUp(size), limit) ==> Accepts(cs, m, size, limit)
      ensures limit + size + 7 < WORD && Accepts(cs, m, size, limit) ==> Suits(cs, m, RoundUp(size), limit)
    {
      AcceptsSuits(cs, m, size, limit);
    }
  }

  /** Cells i..j become a block of size bytes, given alloc of them, and a free rest. */
  ghost function Carving(cs: seq<Cell>, i: nat, j: nat, size: nat, alloc: nat): (ws: seq<Cell>)
    requires i < j <= |cs|
  {
    var next := cs[i].off + HEADER + alloc;
    [Cell(cs[i].off, size, true),
     Cell(next, if j < |cs| && next + HEADER <= cs[j].off then cs[j].off - next - HEADER else 0, false)]
  }

  /** The list after chunk k was taken for a block of size bytes. */
  ghost function Taken(cs: seq<Cell>, k: nat, size: nat, alloc: nat): seq<Cell>
    requires k < |cs|
  {
    Splice(cs, k, k + 1,
      if k + 1 < |cs| && alloc + HEADER + 8 > cs[k].length then [Cell(cs[k].off, size, true)]
      else Carving(cs, k, k + 1, size, alloc))
  }

  ghost function Alloced(cs: seq<Cell>, size: u32, limit: nat): seq<Cell> {
    var k := Pick(cs, 0, size, limit);
    if k < |cs| then Taken(cs, k, size, RoundUp(size)) else cs
  }

  /** The address of the new block, 0 if there is none. */
  ghost function AllocAddress(cs: seq<Cell>, size: u32, limit: nat): nat {
    var k := Pick(cs, 0, size, limit);
    if k < |cs| then cs[k].off + HEADER else 0
  }

  /** The code takes a chunk that suits, or none. */
  ghost predicate AllocFits(cs: seq<Cell>, size: u32, limit: nat) {
    var k := Pick(cs, 0, size, limit);
    k < |cs| ==> Suits(cs, k, RoundUp(size), limit)
  }

  /** The chunk taken suits if and only if the address past the block does not wrap around. */
  lemma AllocFitsByAddress(cs: seq<Cell>, size: u32, limit: nat)
    requires Ordered(cs, limit) && limit < WORD
    ensures Pick(cs, 0, size, limit) < |cs| ==>
      (AllocFits(cs, size, limit) <==> AllocAddress(cs, size, limit) + RoundUp(size) < WORD)
  {
    var k := Pick(cs, 0, size, limit);
    if k < |cs| {
      OrderedPair(cs, limit, k, |cs|);
      RoundUpExact(size);
      if k == |cs| - 1 {
        TailCheckExact(cs[k].off, size, limit);
      } else {
        assert InPlace(cs, k, limit);
        OrderedPair(cs, limit, k + 1, |cs|);
        if size + 7 >= WORD {
          RoundsToWord(size);
        }
      }
    }
  }

  /**
   The code takes a chunk that is too small.  For the sizes that round to 0 it does so whenever there is a free
   chunk, or a tail that could hold a header; for the others when the sum at the tail wraps around to below the
   end, and no free chunk before the tail is long enough.
   */
  ghost predicate Wrapping(cs: seq<Cell>, size: u32, limit: nat)
    requires |cs| > 0
  {
    var t := cs[|cs| - 1];
    if size + 7 >= WORD then
      (exists k | 0 <= k < |cs| - 1 :: !cs[k].used) || (!t.used && t.off + HEADER + HEADER < limit)
    else
      var sum := t.off + HEADER + RoundUp(size);
      && !t.used && WORD <= sum && sum - WORD + HEADER < limit
      && forall k | 0 <= k < |cs| - 1 && !cs[k].used :: cs[k].length < RoundUp(size)
  }

  /** Every size that does not round to 0 is compared with the chunks before the tail as it should be. */
  lemma AcceptsBefore(cs: seq<Cell>, k: nat, size: u32, limit: nat)
    requires Ordered(cs, limit) && limit < WORD && k < |cs| - 1
    ensures size + 7 < WORD ==> (Accepts(cs, k, size, limit) <==> Suits(cs, k, RoundUp(size), limit))
    ensures size + 7 >= WORD ==>
      (Accepts(cs, k, size, limit) <==> !cs[k].used) && !Suits(cs, k, RoundUp(size), limit)
  {
    RoundUpExact(size);
    OrderedPair(cs, limit, k, |cs|);
    if size + 7 >= WORD {
      RoundsToWord(size);
    }
  }

  lemma AcceptsTail(cs: seq<Cell>, t: nat, size: u32, limit: nat)
    requires Ordered(cs, limit) && limit < WORD && t == |cs| - 1
    ensures var sum := cs[t].off + HEADER + RoundUp(size);
      && (size + 7 >= WORD ==> (Accepts(cs, t, size, limit) <==> !cs[t].used && cs[t].off + HEADER + HEADER < limit))
      && (size + 7 >= WORD ==> !Suits(cs, t, RoundUp(size), limit))
      && (size + 7 < WORD ==>
            (Accepts(cs, t, size, limit) && !Suits(cs, t, RoundUp(size), limit) <==>
             !cs[t].used && WORD <= sum && sum - WORD + HEADER < limit))
  {
    OrderedPair(cs, limit, t, |cs|);
    RoundUpExact(size);
    NoWrap(cs[t].off, HEADER);
    if size + 7 >= WORD {
      RoundsToWord(size);
      NoWrap(cs[t].off + HEADER, 0);
    } else if cs[t].off + HEADER + RoundUp(size) < WORD {
      NoWrap(cs[t].off + HEADER, RoundUp(size));
    } else {
      WrapsOnce(cs[t].off + HEADER, RoundUp(size));
    }
  }

  /** For every size, the chunk taken is large enough, or none is taken, exactly if the list is not a wrapping one. */
  lemma AllocFitsExact(cs: seq<Cell>, size: u32, limit: nat)
    requires Ordered(cs, limit) && limit < WORD && |cs| > 0
    ensures AllocFits(cs, size, limit) <==> !Wrapping(cs, size, limit)
  {
    var k, t := Pick(cs, 0, size, limit), |cs| - 1;
    AcceptsTail(cs, t, size, limit);
    forall j | 0 <= j < t
      ensures size + 7 < WORD ==> (Accepts(cs, j, size, limit) <==> Suits(cs, j, RoundUp(size), limit))
      ensures size + 7 >= WORD ==>
        (Accepts(cs, j, size, limit) <==> !cs[j].used) && !Suits(cs, j, RoundUp(size), limit)
    {
      AcceptsBefore(cs, j, size, limit);
    }
  }

  /** An empty heap in 64 KiB takes a request for nearly 4 GiB, because the sum wraps around. */
  lemma TailWraps(cs: seq<Cell>, size: u32, limit: nat)
    requires cs == [Cell(0x20, 0, false)] && size == 0xFFFF_FFE0 && limit == 0x1_0000
    ensures Pick(cs, 0, size, limit) == 0 && !AllocFits(cs, size, limit) && Wrapping(cs, size, limit)
  {
  }

  /** The last 7 sizes round to 0, so that a free chunk of 8 bytes is taken for any of them. */
  lemma SizeWraps(cs: seq<Cell>, size: u32, limit: nat)
    requires cs == [Cell(0x20, 8, false), Cell(0x38, 8, true), Cell(0x50, 0, false)] && WORD - 7 <= size
    requires limit == 0x1_0000
    ensures Pick(cs, 0, size, limit) == 0 && !AllocFits(cs, size, limit) && Wrapping(cs, size, limit)
  {
    assert !cs[0].used;
    RoundUpExact(size);
  }

  // ---------------------------------------------------------------------------
  // Freeing

  /** Where the free chunk that chunk i becomes part of starts in the list. */
  ghost function FreeStart(cs: seq<Cell>, i: nat): nat
    requires i < |cs|
  {
    if i > 0 && !cs[i - 1].used then i - 1 else i
  }

  /** A free chunk from cell a up to cell j, or the new tail. */
  ghost function FreeCell(cs: seq<Cell>, a: nat, j: nat): Cell
    requires a < |cs|
  {
    Cell(cs[a].off, if j < |cs| && cs[a].off + HEADER <= cs[j].off then cs[j].off - cs[a].off - HEADER else 0, false)
  }

  /** The list after chunk i was freed: a chunk that does not merge keeps its recorded length. */
  ghost function Freed(cs: seq<Cell>, i: nat): seq<Cell>
    requires i + 1 < |cs|
  {
    var a := FreeStart(cs, i);
    if !cs[i + 1].used then Splice(cs, a, i + 2, [FreeCell(cs, a, i + 2)])
    else Splice(cs, a, i + 1, [if a < i then FreeCell(cs, a, i + 1) else Cell(cs[i].off, cs[i].length, false)])
  }

  lemma FreedAlone(cs: seq<Cell>, i: nat, a: nat, w: Cell)
    requires i + 1 < |cs| && cs[i + 1].used && a == FreeStart(cs, i)
    requires w == if a < i then FreeCell(cs, a, i + 1) else Cell(cs[i].off, cs[i].length, false)
    ensures Freed(cs, i) == Splice(cs, a, i + 1, [w])
  {
  }

  /** The list after the block p, which may be 0, was freed. */
  ghost function FreedBlock(cs: seq<Cell>, p: nat): seq<Cell> {
    var i := Index(cs, p);
    if p != 0 && i + 1 < |cs| then Freed(cs, i) else cs
  }

  // ---------------------------------------------------------------------------
  // Resizing

  /** Bytes from the start of block i to cell j. */
  ghost function Room(cs: seq<Cell>, i: nat, j: nat): int
    requires i < |cs| && j < |cs|
  {
    cs[j].off - cs[i].off - HEADER
  }

  /** The free chunk behind block i, which is not the tail, gives room enough. */
  ghost predicate RoomBehind(cs: seq<Cell>, i: nat, size: nat) {
    i + 2 < |cs| && !cs[i + 1].used && size < Room(cs, i, i + 2)
  }

  /** The tail is behind block i, and the code lets the block grow into it. */
  ghost predicate TailBehind(cs: seq<Cell>, i: nat, size: u32, limit: nat) {
    i + 2 == |cs| && !cs[i + 1].used && Add32(cs[i].off + HEADER, RoundUp32(size)) + HEADER < limit
  }

  /** How a block is resized. */
  datatype Way = Stays | IntoNext | IntoTail | Moved | Refused

  ghost function WayOf(cs: seq<Cell>, i: nat, size: u32, limit: nat): Way
    requires i + 1 < |cs|
  {
    if size <= Room(cs, i, i + 1) then Stays
    else if RoomBehind(cs, i, size) then IntoNext
    else if TailBehind(cs, i, size, limit) then IntoTail
    else if Pick(cs, 0, size, limit) < |cs| then Moved
    else Refused
  }

  /** The new place of the block is large enough: not so only for sizes that wrap around. */
  ghost predicate ReallocFits(cs: seq<Cell>, i: nat, size: u32, limit: nat)
    requires i + 1 < |cs|
  {
    match WayOf(cs, i, size, limit)
    case IntoTail => cs[i].off + HEADER + RoundUp(size) + HEADER < limit
    case Moved => AllocFits(cs, size, limit)
    case _ => true
  }

  /** The list after block i was cut or grew in its place, when cells i..j are there for it. */
  ghost function Refitted(cs: seq<Cell>, i: nat, j: nat, size: nat, alloc: nat): seq<Cell>
    requires i < j < |cs|
  {
    if Room(cs, i, j) - alloc >= HEADER + 8
    then var e := if j == i + 1 && !cs[j].used then j + 1 else j; Splice(cs, i, e, Carving(cs, i, e, size, alloc))
    else Splice(cs, i, j, [Cell(cs[i].off, size, true)])
  }

  lemma RefittedCut(cs: seq<Cell>, i: nat, j: nat, size: nat, alloc: nat)
    requires i < j < |cs| && Room(cs, i, j) - alloc >= HEADER + 8
    ensures var e := if j == i + 1 && !cs[j].used then j + 1 else j;
      Refitted(cs, i, j, size, alloc) == Splice(cs, i, e, Carving(cs, i, e, size, alloc))
  {
  }

  lemma CarvingTail(cs: seq<Cell>, i: nat, size: nat, alloc: nat, next: nat)
    requires i + 2 == |cs| && next == cs[i].off + HEADER + alloc
    ensures Carving(cs, i, i + 2, size, alloc) == [Cell(cs[i].off, size, true), Cell(next, 0, false)]
  {
  }

  ghost function Realloced(cs: seq<Cell>, i: nat, size: u32, limit: nat): seq<Cell>
    requires i + 1 < |cs|
  {
    match WayOf(cs, i, size, limit)
    case Stays => Refitted(cs, i, i + 1, size, RoundUp(size))
    case IntoNext => Refitted(cs, i, i + 2, size, RoundUp(size))
    case IntoTail => Splice(cs, i, i + 2, Carving(cs, i, i + 2, size, RoundUp(size)))
    case Moved => FreedBlock(Alloced(cs, size, limit), cs[i].off + HEADER)
    case Refused => cs
  }

  ghost function ReallocAddress(cs: seq<Cell>, i: nat, size: u32, limit: nat): nat
    requires i + 1 < |cs|
  {
    match WayOf(cs, i, size, limit)
    case Moved => AllocAddress(cs, size, limit)
    case Refused => 0
    case _ => cs[i].off + HEADER
  }

  /** The resized block has its room if and only if the address past it does not wrap around. */
  lemma ReallocFitsByAddress(cs: seq<Cell>, i: nat, size: u32, limit: nat)
    requires Ordered(cs, limit) && limit < WORD && i + 1 < |cs|
    ensures WayOf(cs, i, size, limit).IntoTail? || WayOf(cs, i, size, limit).Moved? ==>
      (ReallocFits(cs, i, size, limit) <==> ReallocAddress(cs, i, size, limit) + RoundUp(size) < WORD)
  {
    AllocFitsByAddress(cs, size, limit);
    OrderedPair(cs, limit, i, |cs|);
    if WayOf(cs, i, size, limit).IntoTail? {
      TailSum(cs[i].off + HEADER, size, limit);
    }
  }

  /** The same from the list before the call: each way of resizing has its own condition. */
  lemma ReallocFitsExact(cs: seq<Cell>, i: nat, size: u32, limit: nat)
    requires Ordered(cs, limit) && limit < WORD && i + 1 < |cs|
    ensures ReallocFits(cs, i, size, limit) <==>
      || size <= Room(cs, i, i + 1)
      || RoomBehind(cs, i, size)
      || (if TailBehind(cs, i, size, limit) then cs[i].off + HEADER + RoundUp(size) < WORD
          else !Wrapping(cs, size, limit))
  {
    AllocFitsExact(cs, size, limit);
    ReallocFitsByAddress(cs, i, size, limit);
  }

  lemma TailSum(offset: u32, size: u32, limit: nat)
    requires offset <= limit < WORD && Add32(offset, RoundUp32(size)) + HEADER < limit
    ensures offset + RoundUp(size) + HEADER < limit <==> offset + RoundUp(size) < WORD
  {
    RoundUpExact(size);
    if size + 7 >= WORD {
      RoundsToWord(size);
    } else if offset + RoundUp(size) < WORD {
      NoWrap(offset, RoundUp(size));
    }
  }

  /** Without wrap-around a block always has its room. */
  lemma FitsWithoutWrap(cs: seq<Cell>, size: u32, limit: nat)
    requires Ordered(cs, limit) && limit + size + 7 < WORD
    ensures AllocFits(cs, size, limit) && forall i | 0 <= i < |cs| - 1 :: ReallocFits(cs, i, size, limit)
  {
    PickFits(cs, size, limit);
    forall i | 0 <= i < |cs| - 1
      ensures ReallocFits(cs, i, size, limit)
    {
      OrderedPair(cs, limit, i, |cs|);
      if WayOf(cs, i, size, limit).IntoTail? {
        TailSum(cs[i].off + HEADER, size, limit);
      }
    }
  }

  // ---------------------------------------------------------------------------
  // The first chunk stays where it is

  ghost predicate SameFirst(cs: seq<Cell>, cs': seq<Cell>) {
    |cs| > 0 && |cs'| > 0 && cs'[0].off == cs[0].off
  }

  lemma SpliceFirst(cs: seq<Cell>, i: nat, j: nat, ws: seq<Cell>)
    requires i < j <= |cs| && |ws| > 0 && ws[0].off == cs[i].off
    ensures SameFirst(cs, Splice(cs, i, j, ws))
  {
    if i > 0 {
      assert Splice(cs, i, j, ws)[0] == cs[0];
    } else {
      assert Splice(cs, i, j, ws)[0] == ws[0];
    }
  }

  lemma AllocedFirst(cs: seq<Cell>, size: u32, limit: nat)
    requires |cs| > 0
    ensures SameFirst(cs, Alloced(cs, size, limit))
  {
    var k := Pick(cs, 0, size, limit);
    if k < |cs| {
      SpliceFirst(cs, k, k + 1, [Cell(cs[k].off, size, true)]);
      SpliceFirst(cs, k, k + 1, Carving(cs, k, k + 1, size, RoundUp(size)));
    }
  }

  lemma FreedFirst(cs: seq<Cell>, p: nat)
    requires |cs| > 0
    ensures SameFirst(cs, FreedBlock(cs, p))
  {
    var i := Index(cs, p);
    if i + 1 < |cs| {
      var a := FreeStart(cs, i);
      SpliceFirst(cs, a, i + 2, [FreeCell(cs, a, i + 2)]);
      SpliceFirst(cs, a, i + 1, [if a < i then FreeCell(cs, a, i + 1) else Cell(cs[i].off, cs[i].length, false)]);
    }
  }

  lemma RefittedFirst(cs: seq<Cell>, i: nat, j: nat, size: nat, alloc: nat)
    requires i < j < |cs|
    ensures SameFirst(cs, Refitted(cs, i, j, size, alloc))
  {
    var e := if j == i + 1 && !cs[j].used then j + 1 else j;
    SpliceFirst(cs, i, e, Carving(cs, i, e, size, alloc));
    SpliceFirst(cs, i, j, [Cell(cs[i].off, size, true)]);
  }

  lemma ReallocedFirst(cs: seq<Cell>, i: nat, size: u32, limit: nat)
    requires i + 1 < |cs|
    ensures SameFirst(cs, Realloced(cs, i, size, limit))
  {
    match WayOf(cs, i, size, limit)
    case Stays => RefittedFirst(cs, i, i + 1, size, RoundUp(size));
    case IntoNext => RefittedFirst(cs, i, i + 2, size, RoundUp(size));
    case IntoTail => SpliceFirst(cs, i, i + 2, Carving(cs, i, i + 2, size, RoundUp(size)));
    case Moved =>
      AllocedFirst(cs, size, limit);
      FreedFirst(Alloced(cs, size, limit), cs[i].off + HEADER);
    case Refused =>
  }

  // ---------------------------------------------------------------------------
  // The same on offsets and lengths alone

  /** Address p is that of chunk k, which is free and has room for the rounded size; none before it has. */
  ghost predicate FirstWithRoom(cs: seq<Cell>, k: nat, size: nat, limit: nat, p: nat)
    requires k < |cs|
  {
    && p == cs[k].off + HEADER && !cs[k].used
    && (k < |cs| - 1 ==> RoundUp(size) <= cs[k].length)
    && (k == |cs| - 1 ==> cs[k].off + HEADER + RoundUp(size) + HEADER < limit)
    && forall m | 0 <= m < k && !cs[m].used :: cs[m].length < RoundUp(size)
  }

  /** Who gets a new block: the first free chunk long enough, or the tail, if its end stays before the limit. */
  lemma AllocMeaning(cs: seq<Cell>, size: u32, limit: nat)
    requires Ordered(cs, limit) && limit < WORD && |cs| > 0
    ensures AllocAddress(cs, size, limit) == 0 ==>
      && (forall k | 0 <= k < |cs| - 1 && !cs[k].used :: cs[k].length < RoundUp(size))
      && var t := cs[|cs| - 1]; t.used || limit <= t.off + HEADER + RoundUp(size) + HEADER
    ensures AllocAddress(cs, size, limit) != 0 && AllocFits(cs, size, limit) ==>
      exists k | 0 <= k < |cs| :: FirstWithRoom(cs, k, size, limit, AllocAddress(cs, size, limit))
  {
    PickFits(cs, size, limit);
    var k := Pick(cs, 0, size, limit);
    if k == |cs| {
      forall m | 0 <= m < |cs| - 1 && !cs[m].used
        ensures cs[m].length < RoundUp(size)
      {
        assert !Suits(cs, m, RoundUp(size), limit);
      }
      assert !Suits(cs, |cs| - 1, RoundUp(size), limit);
    } else if AllocFits(cs, size, limit) {
      assert FirstFit(cs, k, RoundUp(size), limit);
      forall m | 0 <= m < k && !cs[m].used
        ensures cs[m].length < RoundUp(size)
      {
        assert !Suits(cs, m, RoundUp(size), limit);
      }
      assert FirstWithRoom(cs, k, size, limit, AllocAddress(cs, size, limit));
    }
  }

  /**
   Chunk k becomes a block of size bytes; what is left behind its rounded size is a free chunk of its own if it
   holds a header and 8 bytes, or if chunk k is the tail.
   */
  lemma TakenMeaning(cs: seq<Cell>, k: nat, size: nat, limit: nat)
    requires Ordered(cs, limit) && k < |cs|
    ensures var cs', next := Taken(cs, k, size, RoundUp(size)), cs[k].off + HEADER + RoundUp(size);
      && |cs'| == |cs| + (if k + 1 == |cs| || RoundUp(size) + HEADER + 8 <= cs[k].length then 1 else 0)
      && cs'[..k] == cs[..k] && cs'[k] == Cell(cs[k].off, size, true)
      && cs'[|cs'| - (|cs| - k - 1)..] == cs[k + 1..]
      && (|cs'| > |cs| ==>
            && cs'[k + 1].off == next && !cs'[k + 1].used
            && cs'[k + 1].length == if k + 1 < |cs| then cs[k + 1].off - next - HEADER else 0)
  {
    if k + 1 < |cs| {
      assert InPlace(cs, k, limit);
    }
  }

  /**
   A freed chunk joins the free chunks around it; joined, it reaches up to the next chunk, or is the tail, and
   alone it keeps its recorded length.
   */
  lemma FreedMeaning(cs: seq<Cell>, limit: nat, i: nat)
    requires Ordered(cs, limit) && i + 1 < |cs|
    ensures var before, behind := i > 0 && !cs[i - 1].used, !cs[i + 1].used;
      var a, j := if before then i - 1 else i, if behind then i + 2 else i + 1;
      var cs' := Freed(cs, i);
      && |cs'| == |cs| - (j - a) + 1 && cs'[..a] == cs[..a] && cs'[a + 1..] == cs[j..]
      && cs'[a].off == cs[a].off && !cs'[a].used
      && cs'[a].length ==
           if !before && !behind then cs[i].length
           else if j < |cs| then cs[j].off - cs[a].off - HEADER
           else 0
  {
    if i > 0 {
      OrderedPair(cs, limit, i - 1, i + 1);
    }
    OrderedPair(cs, limit, i, i + 1);
    if i + 2 < |cs| {
      OrderedPair(cs, limit, i, i + 2);
      if i > 0 {
        OrderedPair(cs, limit, i - 1, i + 2);
      }
    }
  }

  /**
   Size bytes fit behind the header of block i where it is: up to the next chunk, into the free chunk behind it, or
   into the tail.  The end in the tail may have wrapped around.
   */
  ghost predicate KeepsPlace(cs: seq<Cell>, i: nat, size: nat, limit: nat)
    requires i + 1 < |cs|
  {
    || cs[i].off + HEADER + size <= cs[i + 1].off
    || (i + 2 < |cs| && !cs[i + 1].used && cs[i].off + HEADER + size < cs[i + 2].off)
    || (i + 2 == |cs| && !cs[i + 1].used &&
        var sum := cs[i].off + HEADER + RoundUp(size);
        sum + HEADER < limit || (WORD <= sum && sum - WORD + HEADER < limit))
  }

  /** A block moves, or has nowhere to go, exactly if it cannot keep its place. */
  lemma PlaceExact(cs: seq<Cell>, i: nat, size: u32, limit: nat)
    requires Ordered(cs, limit) && limit < WORD && i + 1 < |cs|
    ensures WayOf(cs, i, size, limit).Moved? || WayOf(cs, i, size, limit).Refused? <==>
            !KeepsPlace(cs, i, size, limit)
    ensures KeepsPlace(cs, i, size, limit) ==> ReallocAddress(cs, i, size, limit) == cs[i].off + HEADER
    ensures !KeepsPlace(cs, i, size, limit) ==>
      ReallocAddress(cs, i, size, limit) == AllocAddress(cs, size, limit)
  {
    OrderedPair(cs, limit, i, |cs|);
    RoundUpExact(size);
    if size + 7 >= WORD {
      RoundsToWord(size);
      NoWrap(cs[i].off + HEADER, 0);
    } else if cs[i].off + HEADER + RoundUp(size) < WORD {
      NoWrap(cs[i].off + HEADER, RoundUp(size));
    } else {
      WrapsOnce(cs[i].off + HEADER, RoundUp(size));
    }
  }

  /** Between two blocks with at most free chunks between them there is room for all that is short of the second. */
  lemma StaysBetween(cs: seq<Cell>, start: nat, limit: nat, i: nat, j: nat, size: u32)
    requires WellFormed(cs, start, limit) && limit < WORD && i < j < |cs| && cs[i].used && cs[j].used
    requires (forall k | i < k < j :: !cs[k].used) && cs[i].off + HEADER + size < cs[j].off
    ensures ReallocAddress(cs, i, size, limit) == cs[i].off + HEADER
  {
    assert i + 1 < j ==> OneUsed(cs, i + 1);
    PlaceExact(cs, i, size, limit);
  }

  /** A block before the tail grows into it as long as a header still fits behind. */
  lemma StaysBeforeTail(cs: seq<Cell>, start: nat, limit: nat, i: nat, size: u32)
    requires WellFormed(cs, start, limit) && limit < WORD && i + 2 == |cs|
    requires cs[i].off + HEADER + RoundUp(size) + HEADER < limit
    ensures ReallocAddress(cs, i, size, limit) == cs[i].off + HEADER
  {
    assert Sized(cs, i + 1);
    PlaceExact(cs, i, size, limit);
  }

  /**
   A block that stays gives back what is behind its rounded size, with a free chunk behind that, if a header and 8
   bytes fit there; otherwise it takes all up to cell j.
   */
  lemma RefittedMeaning(cs: seq<Cell>, limit: nat, i: nat, j: nat, size: nat)
    requires Ordered(cs, limit) && i < j < |cs| && cs[i].off + HEADER + RoundUp(size) <= cs[j].off
    ensures var cs', next := Refitted(cs, i, j, size, RoundUp(size)), cs[i].off + HEADER + RoundUp(size);
      var e := if j == i + 1 && !cs[j].used then j + 1 else j;
      if next + HEADER + 8 <= cs[j].off then
        && |cs'| == |cs| - (e - i) + 2 && cs'[..i] == cs[..i] && cs'[i + 2..] == cs[e..]
        && cs'[i] == Cell(cs[i].off, size, true) && cs'[i + 1].off == next && !cs'[i + 1].used
        && cs'[i + 1].length == if e < |cs| then cs[e].off - next - HEADER else 0
      else cs' == cs[..i] + [Cell(cs[i].off, size, true)] + cs[j..]
  {
    if j + 1 < |cs| {
      OrderedPair(cs, limit, j, j + 1);
    }
  }
}
