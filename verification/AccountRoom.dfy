/**
 How much room the account heap can waste: chunks never get much longer than the requests they serve,
 so an account of a given size never runs out for a given number of blocks of a given size.
 */
module AccountRoom {
  import opened Bytes
  import opened ChunkList
  import opened AccountCells

  /** The bytes of chunk i up to the next one. */
  ghost function Capacity(cs: seq<Cell>, i: nat): int
    requires i + 1 < |cs|
  {
    cs[i + 1].off - cs[i].off - HEADER
  }

  /** A chunk before the tail has at most most bytes, or is free and offers all it has. */
  ghost predicate SnugAt(cs: seq<Cell>, i: nat, most: nat)
    requires i < |cs|
  {
    i + 1 < |cs| ==> Capacity(cs, i) <= most || (!cs[i].used && cs[i].length == Capacity(cs, i))
  }

  ghost predicate Snug(cs: seq<Cell>, most: nat) {
    forall i | 0 <= i < |cs| :: SnugAt(cs, i, most)
  }

  /** The same for a chunk that another one, or the end of the new cells, follows at next. */
  ghost predicate SnugCell(w: Cell, next: nat, most: nat) {
    next - w.off - HEADER <= most || (!w.used && w.length == next - w.off - HEADER)
  }

  lemma SpliceSnug1(cs: seq<Cell>, i: nat, j: nat, w: Cell, most: nat)
    requires Snug(cs, most) && i < j <= |cs| && w.off == cs[i].off && (j < |cs| ==> SnugCell(w, cs[j].off, most))
    ensures Snug(Splice(cs, i, j, [w]), most)
  {
    var n := Splice(cs, i, j, [w]);
    forall k | 0 <= k < |n|
      ensures SnugAt(n, k, most)
    {
      if k < i {
        assert SnugAt(cs, k, most) && n[k] == cs[k] && n[k + 1].off == cs[k + 1].off;
      } else if k > i {
        var m := k - 1 - i + j;
        assert SnugAt(cs, m, most) && n[k] == cs[m];
      }
    }
  }

  lemma SpliceSnug2(cs: seq<Cell>, i: nat, j: nat, w: Cell, x: Cell, most: nat)
    requires Snug(cs, most) && i < j <= |cs| && w.off == cs[i].off && SnugCell(w, x.off, most)
    requires j < |cs| ==> SnugCell(x, cs[j].off, most)
    ensures Snug(Splice(cs, i, j, [w, x]), most)
  {
    var n := Splice(cs, i, j, [w, x]);
    forall k | 0 <= k < |n|
      ensures SnugAt(n, k, most)
    {
      if k < i {
        assert SnugAt(cs, k, most) && n[k] == cs[k] && n[k + 1].off == cs[k + 1].off;
      } else if k > i + 1 {
        var m := k - 2 - i + j;
        assert SnugAt(cs, m, most) && n[k] == cs[m];
      }
    }
  }

  /** Multiples of 8 below alloc and less than a chunk are at most 16 bytes more. */
  lemma LessThanChunk(cs: seq<Cell>, limit: nat, i: nat, j: nat, alloc: nat)
    requires Ordered(cs, limit) && i < j < |cs| && alloc % 8 == 0
    ensures (cs[j].off - cs[i].off - HEADER) % 8 == 0
    ensures cs[j].off - cs[i].off - HEADER < alloc + 24 ==> cs[j].off - cs[i].off - HEADER <= alloc + 16
  {
    assert AlignedAt(cs, i) && AlignedAt(cs, j);
    OrderedPair(cs, limit, i, j);
    Difference(cs[i].off, cs[j].off, alloc);
  }

  lemma Difference(a: nat, b: nat, alloc: nat)
    requires a % 8 == 0 && b % 8 == 0 && alloc % 8 == 0 && a + 16 <= b
    ensures (b - a - 16) % 8 == 0 && (b - a - 16 < alloc + 24 ==> b - a - 16 <= alloc + 16)
  {
  }

  lemma TakenSnug(cs: seq<Cell>, start: nat, limit: nat, k: nat, size: nat, most: nat)
    requires WellFormed(cs, start, limit) && Snug(cs, most) && k < |cs| && RoundUp(size) + 16 <= most
    requires Suits(cs, k, RoundUp(size), limit)
    ensures Snug(Taken(cs, k, size, RoundUp(size)), most)
  {
    var alloc := RoundUp(size);
    assert SnugAt(cs, k, most) && InPlace(cs, k, limit);
    if k + 1 < |cs| && alloc + HEADER + 8 > cs[k].length {
      LessThanChunk(cs, limit, k, k + 1, alloc);
      SpliceSnug1(cs, k, k + 1, Cell(cs[k].off, size, true), most);
    } else {
      var ws := Carving(cs, k, k + 1, size, alloc);
      assert ws == [ws[0], ws[1]];
      SpliceSnug2(cs, k, k + 1, ws[0], ws[1], most);
    }
  }

  lemma FreedSnug(cs: seq<Cell>, start: nat, limit: nat, i: nat, most: nat)
    requires WellFormed(cs, start, limit) && Snug(cs, most) && i + 1 < |cs| && cs[i].used
    ensures Snug(Freed(cs, i), most)
  {
    var a := FreeStart(cs, i);
    assert SnugAt(cs, i, most);
    OrderedPair(cs, limit, a, i + 1);
    if !cs[i + 1].used {
      OrderedPair(cs, limit, a, i + 2);
      SpliceSnug1(cs, a, i + 2, FreeCell(cs, a, i + 2), most);
    } else if a < i {
      SpliceSnug1(cs, a, i + 1, FreeCell(cs, a, i + 1), most);
    } else {
      SpliceSnug1(cs, i, i + 1, Cell(cs[i].off, cs[i].length, false), most);
    }
  }

  lemma CarvingSnug(cs: seq<Cell>, i: nat, j: nat, size: nat, alloc: nat, most: nat)
    requires Snug(cs, most) && i < j <= |cs| && alloc <= most
    requires j < |cs| ==> cs[i].off + HEADER + alloc + HEADER <= cs[j].off
    ensures Snug(Splice(cs, i, j, Carving(cs, i, j, size, alloc)), most)
  {
    var ws := Carving(cs, i, j, size, alloc);
    assert ws == [ws[0], ws[1]];
    SpliceSnug2(cs, i, j, ws[0], ws[1], most);
  }

  lemma RefittedSnug(cs: seq<Cell>, start: nat, limit: nat, i: nat, j: nat, size: nat, most: nat)
    requires WellFormed(cs, start, limit) && Snug(cs, most) && i < j < |cs| && cs[i].used && RoundUp(size) + 16 <= most
    ensures Snug(Refitted(cs, i, j, size, RoundUp(size)), most)
  {
    var alloc := RoundUp(size);
    OrderedPair(cs, limit, i, j);
    if Room(cs, i, j) - alloc >= HEADER + 8 {
      var e := if j == i + 1 && !cs[j].used then j + 1 else j;
      if e < |cs| {
        OrderedPair(cs, limit, j, |cs|);
        if e > j {
          OrderedPair(cs, limit, j, e);
        }
      }
      CarvingSnug(cs, i, e, size, alloc, most);
    } else {
      LessThanChunk(cs, limit, i, j, alloc);
      SpliceSnug1(cs, i, j, Cell(cs[i].off, size, true), most);
    }
  }

  /** Taking a chunk that suits keeps the list well formed. */
  lemma TakenWellFormed(cs: seq<Cell>, start: nat, limit: nat, k: nat, size: nat)
    requires WellFormed(cs, start, limit) && k < |cs| && 0 < size && Suits(cs, k, RoundUp(size), limit)
    ensures WellFormed(Taken(cs, k, size, RoundUp(size)), start, limit)
  {
    var alloc := RoundUp(size);
    assert InPlace(cs, k, limit) && AlignedAt(cs, k);
    assert k + 1 < |cs| ==> OneUsed(cs, k) && Sized(cs, k + 1);
    if k + 1 < |cs| && alloc + HEADER + 8 > cs[k].length {
      var ws := [Cell(cs[k].off, size, true)];
      assert InPlace(ws, 0, WindowEnd(cs, k + 1, limit)) && AlignedAt(ws, 0);
      ReplaceWellFormed(cs, start, limit, k, k + 1, ws);
    } else {
      var ws := Carving(cs, k, k + 1, size, alloc);
      AlignedSum(cs[k].off, alloc);
      assert InPlace(ws, 0, WindowEnd(cs, k + 1, limit)) && AlignedAt(ws, 0);
      assert InPlace(ws, 1, WindowEnd(cs, k + 1, limit)) && AlignedAt(ws, 1);
      assert OneUsed(ws, 0);
      ReplaceWellFormed(cs, start, limit, k, k + 1, ws);
    }
  }

  lemma AllocedSnug(cs: seq<Cell>, start: nat, limit: nat, size: u32, most: nat)
    requires WellFormed(cs, start, limit) && Snug(cs, most) && AllocFits(cs, size, limit) && RoundUp(size) + 16 <= most
    requires 0 < size
    ensures Snug(Alloced(cs, size, limit), most) && WellFormed(Alloced(cs, size, limit), start, limit)
  {
    var k := Pick(cs, 0, size, limit);
    if k < |cs| {
      TakenSnug(cs, start, limit, k, size, most);
      TakenWellFormed(cs, start, limit, k, size);
    }
  }

  /** Block p, in use in chunk i, is in use after an allocation too. */
  lemma StillUsed(cs: seq<Cell>, start: nat, limit: nat, size: u32, i: nat, p: nat)
    requires WellFormed(cs, start, limit) && AllocFits(cs, size, limit) && 0 < size
    requires i < |cs| && cs[i].used && p == cs[i].off + HEADER && WellFormed(Alloced(cs, size, limit), start, limit)
    ensures var cs' := Alloced(cs, size, limit); Index(cs', p) < |cs'| ==> cs'[Index(cs', p)].used
  {
    var cs', k := Alloced(cs, size, limit), Pick(cs, 0, size, limit);
    var j := Index(cs', p);
    if k < |cs| {
      assert Suits(cs, k, RoundUp(size), limit);
      var n := if i < k then i else i + |cs'| - |cs|;
      assert cs'[n] == cs[i];
      if j < n {
        OrderedPair(cs', limit, j, n);
      } else if n < j < |cs'| {
        OrderedPair(cs', limit, n, j);
      }
    } else if j < i {
      OrderedPair(cs, limit, j, i);
    } else if i < j < |cs| {
      OrderedPair(cs, limit, i, j);
    }
  }

  lemma ReallocedSnug(cs: seq<Cell>, start: nat, limit: nat, i: nat, size: u32, most: nat)
    requires WellFormed(cs, start, limit) && Snug(cs, most) && i + 1 < |cs| && cs[i].used
    requires ReallocFits(cs, i, size, limit) && RoundUp(size) + 16 <= most && 0 < size
    ensures Snug(Realloced(cs, i, size, limit), most)
  {
    var p := cs[i].off + HEADER;
    match WayOf(cs, i, size, limit)
    case Stays => RefittedSnug(cs, start, limit, i, i + 1, size, most);
    case IntoNext => RefittedSnug(cs, start, limit, i, i + 2, size, most);
    case IntoTail => CarvingSnug(cs, i, i + 2, size, RoundUp(size), most);
    case Moved =>
      AllocedSnug(cs, start, limit, size, most);
      StillUsed(cs, start, limit, size, i, p);
      FreedBlockSnug(Alloced(cs, size, limit), start, limit, p, most);
    case Refused =>
  }

  lemma FreedBlockSnug(cs: seq<Cell>, start: nat, limit: nat, p: nat, most: nat)
    requires WellFormed(cs, start, limit) && Snug(cs, most) && (Index(cs, p) < |cs| ==> cs[Index(cs, p)].used)
    ensures Snug(FreedBlock(cs, p), most)
  {
    var i := Index(cs, p);
    if p != 0 && i + 1 < |cs| {
      FreedSnug(cs, start, limit, i, most);
    }
  }

  // ---------------------------------------------------------------------------
  // The bound

  ghost function UsedCount(cs: seq<Cell>): nat {
    if cs == [] then 0 else UsedCount(cs[..|cs| - 1]) + if cs[|cs| - 1].used then 1 else 0
  }

  /** Of the chunks before index n at most half are free, and one more if the last of them is. */
  lemma {:induction false} FewFree(cs: seq<Cell>, n: nat)
    requires Merged(cs) && n <= |cs|
    ensures n <= 2 * UsedCount(cs[..n]) + if n > 0 && !cs[n - 1].used then 1 else 0
    decreases n
  {
    if n > 0 {
      FewFree(cs, n - 1);
      assert cs[..n][..n - 1] == cs[..n - 1];
      assert n > 1 ==> OneUsed(cs, n - 2);
    }
  }

  /** n chunks of at most most bytes end by here. */
  lemma {:induction false} Reaches(cs: seq<Cell>, n: nat, most: nat)
    requires n < |cs| && forall i | 0 <= i < n :: Capacity(cs, i) <= most
    ensures cs[n].off <= cs[0].off + n * (HEADER + most)
  {
    if n > 0 {
      Reaches(cs, n - 1, most);
      assert Capacity(cs, n - 1) <= most;
      OneMore(n, HEADER + most);
    }
  }

  lemma OneMore(n: nat, x: nat)
    requires n > 0
    ensures n * x == (n - 1) * x + x
  {
  }

  lemma Scaled(n: nat, m: nat, x: nat)
    requires n <= m
    ensures n * x <= m * x
  {
  }

  /** An account of limit bytes has room for count blocks of at most most bytes each, in any arrangement. */
  predicate Roomy(start: nat, limit: nat, count: nat, most: nat) {
    start + 2 * count * (HEADER + RoundUp(most) + 16) + HEADER + RoundUp(most) + HEADER < limit
  }

  /** With room for all blocks, some chunk suits: the tail, if no other. */
  lemma AlwaysRoom(cs: seq<Cell>, start: nat, limit: nat, count: nat, most: nat, alloc: nat)
    requires WellFormed(cs, start, limit) && Snug(cs, RoundUp(most) + 16) && UsedCount(cs) <= count
    requires Roomy(start, limit, count, most) && alloc <= RoundUp(most)
    ensures exists k | 0 <= k < |cs| :: Suits(cs, k, alloc, limit)
  {
    var n, cap := |cs| - 1, RoundUp(most) + 16;
    TailAfter(cs, start, limit);
    if forall i | 0 <= i < n :: !Suits(cs, i, alloc, limit) {
      forall i | 0 <= i < n
        ensures Capacity(cs, i) <= cap
      {
        assert SnugAt(cs, i, cap) && !Suits(cs, i, alloc, limit);
      }
      Reaches(cs, n, cap);
      Scaled(n, 2 * count, HEADER + cap);
      assert Suits(cs, n, alloc, limit);
    }
  }

  lemma TailAfter(cs: seq<Cell>, start: nat, limit: nat)
    requires WellFormed(cs, start, limit)
    ensures |cs| - 1 <= 2 * UsedCount(cs) && !cs[|cs| - 1].used
  {
    var n := |cs| - 1;
    assert Sized(cs, n);
    FewFree(cs, n);
    assert cs[..|cs|] == cs;
    assert n > 0 ==> OneUsed(cs, n - 1);
  }

  /** The random driver of the repository: 64 KiB with the heap at 32, 100 slots, sizes below 210. */
  lemma DriverRoomy()
    ensures Roomy(0x20, 0x1_0000, 100, 209)
  {
    assert RoundUp(209) == 216;
  }

  lemma OrderedPrefix(cs: seq<Cell>, limit: nat)
    requires Ordered(cs, limit) && cs != []
    ensures Ordered(cs[..|cs| - 1], limit)
  {
    var p := cs[..|cs| - 1];
    forall i | 0 <= i < |p|
      ensures InPlace(p, i, limit) && AlignedAt(p, i)
    {
      assert InPlace(cs, i, limit) && AlignedAt(cs, i);
      OrderedPair(cs, limit, i, |cs|);
    }
  }

  /** Every chunk in use is one block. */
  lemma {:induction false} UsedBlocks(d: seq<byte>, cs: seq<Cell>)
    requires Ordered(cs, |d|)
    ensures |Blocks(d, cs)| == UsedCount(cs)
  {
    if cs != [] {
      var n := |cs| - 1;
      var m := Blocks(d, cs[..n]);
      OrderedPrefix(cs, |d|);
      UsedBlocks(d, cs[..n]);
      forall i | 0 <= i < n
        ensures 0 <= cs[..n][i].off && cs[..n][i].End() <= cs[n].off
      {
        OrderedPair(cs, |d|, i, n);
      }
      assert Within(cs[..n], 0, cs[n].off);
      BlocksRange(d, cs[..n], 0, cs[n].off);
      OneKeyMore(m, cs[n].off + HEADER, Payload(d, cs[n]));
    }
  }

  lemma OneKeyMore(m: map<nat, seq<byte>>, p: nat, v: seq<byte>)
    requires p !in m
    ensures |m[p := v]| == |m| + 1
  {
    assert m[p := v].Keys == m.Keys + {p};
  }
}
