/**
 The runtime heap's allocator on the list of chunks alone: which chunk is chosen, and what becomes of
 the list.  The heap in memory is proved to follow it step by step.
 */
module RuntimeCells {
  import opened Bytes
  import opened ChunkList

  ghost predicate Suits(cs: seq<Cell>, k: nat, size: nat)
    requires k < |cs|
  {
    !cs[k].used && size <= cs[k].length
  }

  ghost predicate FirstFit(cs: seq<Cell>, k: nat, size: nat) {
    k < |cs| && Suits(cs, k, size) && forall m | 0 <= m < k :: !Suits(cs, m, size)
  }

  /** The first chunk from k on that suits, or the length of the list. */
  ghost function Pick(cs: seq<Cell>, k: nat, size: nat): (r: nat)
    requires k <= |cs|
    ensures k <= r <= |cs| && (r < |cs| ==> Suits(cs, r, size)) && forall m | k <= m < r :: !Suits(cs, m, size)
    decreases |cs| - k
  {
    if k == |cs| || Suits(cs, k, size) then k else Pick(cs, k + 1, size)
  }

  /** The cells that take the place of a chunk of the given length of which size bytes are handed out. */
  ghost function Cut(off: nat, length: nat, size: nat): (ws: seq<Cell>) {
    var a := RoundUp(size);
    if length < a + 8 + HEADER then [Cell(off, length, true)]
    else [Cell(off, a, true), Cell(off + HEADER + a, length - a - HEADER, false)]
  }

  lemma CutNone(off: nat, length: nat, size: nat)
    requires length < RoundUp(size) + 8 + HEADER
    ensures Cut(off, length, size) == [Cell(off, length, true)]
  {
  }

  lemma CutTwo(off: nat, length: nat, size: nat, w: Cell, x: Cell)
    requires length >= RoundUp(size) + 8 + HEADER
    requires w == Cell(off, RoundUp(size), true)
    requires x == Cell(off + HEADER + RoundUp(size), length - RoundUp(size) - HEADER, false)
    ensures Cut(off, length, size) == [w, x]
  {
  }

  ghost function Claimed(cs: seq<Cell>, k: nat, size: nat): seq<Cell>
    requires k < |cs|
  {
    Splice(cs, k, k + 1, Cut(cs[k].off, cs[k].length, size))
  }

  /** The list after malloc. */
  ghost function Malloced(cs: seq<Cell>, size: nat): seq<Cell> {
    var k := Pick(cs, 0, size);
    if k < |cs| then Claimed(cs, k, size) else cs
  }

  /** The address malloc gives, 0 if there is none. */
  ghost function MallocAddress(cs: seq<Cell>, size: nat): nat {
    var k := Pick(cs, 0, size);
    if k < |cs| then cs[k].off + HEADER else 0
  }

  /** Where the free chunk that chunk i becomes part of ends and starts in the list. */
  ghost function LooseEnd(cs: seq<Cell>, i: nat): nat
    requires i < |cs|
  {
    if i + 1 < |cs| && !cs[i + 1].used then i + 2 else i + 1
  }

  ghost function LooseCell(cs: seq<Cell>, i: nat): Cell
    requires i < |cs|
  {
    var more := if i + 1 < |cs| && !cs[i + 1].used then cs[i + 1].length + HEADER else 0;
    Cell(cs[i].off, cs[i].length + more, false)
  }

  /** The list after chunk i is freed and merged with free neighbours. */
  ghost function Freed(cs: seq<Cell>, i: nat): seq<Cell>
    requires i < |cs|
  {
    var w := LooseCell(cs, i);
    if i > 0 && !cs[i - 1].used
    then Splice(cs, i - 1, LooseEnd(cs, i), [Cell(cs[i - 1].off, cs[i - 1].length + w.length + HEADER, false)])
    else Splice(cs, i, LooseEnd(cs, i), [w])
  }

  /** The list after free of block p, which may be null. */
  ghost function FreedBlock(cs: seq<Cell>, p: nat): seq<Cell> {
    var i := Index(cs, p);
    if p != 0 && i < |cs| then Freed(cs, i) else cs
  }

  /**
   Freeing chunk i stores through a null next pointer: the chunk before it is free, and nothing
   comes after it, or only a free chunk does.
   */
  ghost predicate StoresThroughNull(cs: seq<Cell>, i: nat) {
    0 < i < |cs| && !cs[i - 1].used && LooseEnd(cs, i) == |cs|
  }

  /** The word at address 4 after free of block p, which may be null; before, it is word. */
  ghost function NullWord(cs: seq<Cell>, p: nat, word: nat): nat {
    var i := Index(cs, p);
    if p != 0 && StoresThroughNull(cs, i) then cs[i - 1].off else word
  }

  /** Chunk i and the free chunk behind it have room for size bytes. */
  ghost predicate CanMerge(cs: seq<Cell>, i: nat, size: nat) {
    i + 1 < |cs| && !cs[i + 1].used && size <= cs[i].length + cs[i + 1].length + HEADER
  }

  /** The list after chunk i took in the one behind it and was cut. */
  ghost function Extended(cs: seq<Cell>, i: nat, size: nat): seq<Cell>
    requires i + 1 < |cs|
  {
    Splice(cs, i, i + 2, Cut(cs[i].off, cs[i].length + cs[i + 1].length + HEADER, size))
  }

  /** What realloc comes to: a block, no memory for it, or the copy loop running away over all of memory. */
  datatype Outcome = Block(p: nat) | OutOfMemory | Fault

  /** What realloc of the block p in the list comes to. */
  ghost function ReallocOutcome(cs: seq<Cell>, p: nat, size: nat): Outcome {
    var i := Index(cs, p);
    if CanMerge(cs, i, size) then Block(p)
    else if i == |cs| || Pick(cs, 0, size) == |cs| then OutOfMemory
    else if Min(cs[i].length, size) == 0 then Fault
    else Block(MallocAddress(cs, size))
  }

  /** The list after a realloc that gives a block. */
  ghost function Realloced(cs: seq<Cell>, p: nat, size: nat): seq<Cell> {
    var i := Index(cs, p);
    if CanMerge(cs, i, size) then Extended(cs, i, size) else FreedBlock(Malloced(cs, size), p)
  }

  /** The word at address 4 after a realloc that gives a block. */
  ghost function ReallocWord(cs: seq<Cell>, p: nat, size: nat, word: nat): nat {
    if CanMerge(cs, Index(cs, p), size) then word else NullWord(Malloced(cs, size), p, word)
  }

  // ---------------------------------------------------------------------------
  // The same on offsets and lengths alone

  /** Address p is that of chunk k, which is free and has size bytes; no free chunk before it has. */
  ghost predicate FirstLong(cs: seq<Cell>, k: nat, size: nat, p: nat)
    requires k < |cs|
  {
    && p == cs[k].off + HEADER && !cs[k].used && size <= cs[k].length
    && forall m | 0 <= m < k && !cs[m].used :: cs[m].length < size
  }

  /** No free chunk has size bytes. */
  ghost predicate NoneLong(cs: seq<Cell>, size: nat) {
    forall m | 0 <= m < |cs| && !cs[m].used :: cs[m].length < size
  }

  lemma MallocMeaning(cs: seq<Cell>, size: nat)
    ensures MallocAddress(cs, size) == 0 <==> NoneLong(cs, size)
    ensures MallocAddress(cs, size) != 0 ==>
      exists k | 0 <= k < |cs| :: FirstLong(cs, k, size, MallocAddress(cs, size))
  {
    var k := Pick(cs, 0, size);
    forall m | 0 <= m < k && !cs[m].used
      ensures cs[m].length < size
    {
      assert !Suits(cs, m, size);
    }
    if k < |cs| {
      assert FirstLong(cs, k, size, MallocAddress(cs, size));
    }
  }

  /** What is behind the rounded size becomes a free chunk of its own if it holds a header and 8 bytes. */
  lemma ClaimedMeaning(cs: seq<Cell>, k: nat, size: nat)
    requires k < |cs|
    ensures var cs', a := Claimed(cs, k, size), RoundUp(size);
      && cs'[..k] == cs[..k] && cs'[|cs'| - (|cs| - k - 1)..] == cs[k + 1..]
      && if a + HEADER + 8 <= cs[k].length then
           && |cs'| == |cs| + 1 && cs'[k] == Cell(cs[k].off, a, true)
           && cs'[k + 1] == Cell(cs[k].off + HEADER + a, cs[k].length - a - HEADER, false)
         else |cs'| == |cs| && cs'[k] == cs[k].(used := true)
  {
  }

  /** A freed chunk joins the free chunks around it and their headers. */
  lemma FreedMeaning(cs: seq<Cell>, i: nat)
    requires i < |cs|
    ensures var before, behind := i > 0 && !cs[i - 1].used, i + 1 < |cs| && !cs[i + 1].used;
      var a, j := if before then i - 1 else i, if behind then i + 2 else i + 1;
      var cs' := Freed(cs, i);
      && |cs'| == |cs| - (j - a) + 1 && cs'[..a] == cs[..a] && cs'[a + 1..] == cs[j..]
      && cs'[a].off == cs[a].off && !cs'[a].used
      && cs'[a].length == cs[i].length + (if before then cs[i - 1].length + HEADER else 0)
                                       + (if behind then cs[i + 1].length + HEADER else 0)
  {
  }

  /** The word at address 4 is overwritten exactly if the freed chunk has a free one before it and ends up last. */
  lemma NullMeaning(cs: seq<Cell>, p: nat, word: nat)
    ensures var i := Index(cs, p);
      NullWord(cs, p, word) ==
        if p != 0 && 0 < i < |cs| && !cs[i - 1].used && (i + 1 == |cs| || (i + 2 == |cs| && !cs[i + 1].used))
        then cs[i - 1].off
        else word
  {
  }

  /** Size bytes fit behind the header of chunk i up to the end of the free chunk behind it. */
  ghost predicate FitsBehind(cs: seq<Cell>, i: nat, size: nat) {
    i + 1 < |cs| && !cs[i + 1].used && cs[i].off + HEADER + size <= cs[i + 1].End()
  }

  /** Where a block goes: it stays if it fits up to the end of the free chunk behind, else the first one takes it. */
  lemma ReallocMeaning(cs: seq<Cell>, i: nat, p: nat, size: nat)
    requires i < |cs| && i == Index(cs, p) && cs[i].used && p == cs[i].off + HEADER
    requires i + 1 < |cs| ==> cs[i].End() == cs[i + 1].off
    ensures FitsBehind(cs, i, size) ==> ReallocOutcome(cs, p, size) == Block(p)
    ensures !FitsBehind(cs, i, size) && NoneLong(cs, size) ==> ReallocOutcome(cs, p, size) == OutOfMemory
    ensures !FitsBehind(cs, i, size) && !NoneLong(cs, size) ==>
      if cs[i].length == 0 || size == 0 then ReallocOutcome(cs, p, size) == Fault
      else
        var r := ReallocOutcome(cs, p, size);
        r.Block? && exists k | 0 <= k < |cs| :: FirstLong(cs, k, size, r.p)
  {
    MallocMeaning(cs, size);
  }

  /** A block that stays takes in the free chunk behind it and gives back what is worth a chunk. */
  lemma ExtendedMeaning(cs: seq<Cell>, i: nat, size: nat)
    requires i + 1 < |cs| && cs[i].End() == cs[i + 1].off
    ensures var cs', next := Extended(cs, i, size), cs[i].off + HEADER + RoundUp(size);
      && cs'[..i] == cs[..i] && cs'[|cs'| - (|cs| - i - 2)..] == cs[i + 2..]
      && if next + HEADER + 8 <= cs[i + 1].End() then
           && |cs'| == |cs| && cs'[i] == Cell(cs[i].off, RoundUp(size), true)
           && cs'[i + 1] == Cell(next, cs[i + 1].End() - next - HEADER, false)
         else |cs'| == |cs| - 1 && cs'[i] == Cell(cs[i].off, cs[i + 1].End() - cs[i].off - HEADER, true)
  {
  }
}
