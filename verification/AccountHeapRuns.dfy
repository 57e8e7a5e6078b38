/**
 Whole runs of the account heap.  The repository exercises the heap with a random driver: a table of
 slots, each holding a block filled with the slot's number, on which blocks are allocated, resized and
 freed at random.  Here the driver runs on any script at all; what it comes to is computed from the script
 and the list of chunks alone, its checks hold after every step, and with room enough no step fails.
 */
module AccountHeapRuns {
  import opened Bytes
  import opened ChunkList
  import opened AccountCells
  import opened AccountRoom
  import opened AccountHeap

  /** One step of the driver: which slot, whether to free it if it is taken, and the size to ask for. */
  datatype Step = Step(slot: nat, free: bool, size: u32)

  /** A slot of the driver's table: the block it owns, 0 if none, and the length it asked for. */
  datatype Slot = Slot(off: nat, len: nat)

  const EMPTY := Slot(0, 0)

  /** The block a slot ought to own: len bytes, all the slot's number. */
  ghost predicate Owns(s: Slot, n: nat, v: seq<byte>) {
    |v| == s.len && forall k | 0 <= k < |v| :: v[k] == n
  }

  /** Every taken slot owns a block of its own filled with its number, and there are no other blocks. */
  ghost predicate Faithful(slots: seq<Slot>, m: map<nat, seq<byte>>) {
    && (forall n | 0 <= n < |slots| && slots[n].off != 0 :: slots[n].off in m && Owns(slots[n], n, m[slots[n].off]))
    && (forall a, b | 0 <= a < b < |slots| && slots[a].off != 0 :: slots[a].off != slots[b].off)
    && (forall p | p in m :: exists n | 0 <= n < |slots| :: slots[n].off == p)
    && 0 !in m
  }

  lemma TakeSlot(slots: seq<Slot>, m: map<nat, seq<byte>>, m': map<nat, seq<byte>>, n: nat, s: Slot)
    requires Faithful(slots, m) && n < |slots| && slots[n].off == 0
    requires s.off != 0 && s.off !in m && s.off in m' && Owns(s, n, m'[s.off]) && m' - {s.off} == m
    ensures Faithful(slots[n := s], m')
  {
    var t := slots[n := s];
    assert forall q | q in m :: q in m' - {s.off};
    forall a | 0 <= a < |t| && t[a].off != 0
      ensures t[a].off in m' && Owns(t[a], a, m'[t[a].off])
    {
      if a != n {
        assert slots[a].off in m && (m' - {s.off})[slots[a].off] == m[slots[a].off];
      }
    }
    forall q | q in m'
      ensures exists k | 0 <= k < |t| :: t[k].off == q
    {
      if q == s.off {
        assert t[n].off == q;
      } else {
        assert q in m' - {s.off};
        var k :| 0 <= k < |slots| && slots[k].off == q;
        assert t[k].off == q;
      }
    }
  }

  lemma DropSlot(slots: seq<Slot>, m: map<nat, seq<byte>>, n: nat)
    requires Faithful(slots, m) && n < |slots| && slots[n].off != 0
    ensures Faithful(slots[n := EMPTY], m - {slots[n].off})
  {
    var t := slots[n := EMPTY];
    forall q | q in m && q != slots[n].off
      ensures exists k | 0 <= k < |t| :: t[k].off == q
    {
      var k :| 0 <= k < |slots| && slots[k].off == q;
      assert t[k].off == q;
    }
  }

  /** The block of slot n was resized and filled up with the slot's number. */
  lemma ResizeSlot(slots: seq<Slot>, m: map<nat, seq<byte>>, m1: map<nat, seq<byte>>, m2: map<nat, seq<byte>>, n: nat,
                   q: nat, size: nat)
    requires Faithful(slots, m) && n < |slots| <= 256 && slots[n].off != 0 && q != 0
    requires Resized(m, m1, slots[n].off, q, size) && slots[n].len == |m[slots[n].off]|
    requires q in m2 && m2 - {q} == m1 - {q} && |m2[q]| == size
    requires m2[q] == if size > slots[n].len then m1[q][..slots[n].len] + seq(size - slots[n].len, _ => n) else m1[q]
    ensures Faithful(slots[n := Slot(q, size)], m2)
  {
    var p := slots[n].off;
    FilledSlot(m, m1, m2, n, p, q, size);
    DropSlot(slots, m, n);
    assert m2 - {q} == m - {p};
    assert q !in m2 - {q};
    TakeSlot(slots[n := EMPTY], m - {p}, m2, n, Slot(q, size));
    assert slots[n := EMPTY][n := Slot(q, size)] == slots[n := Slot(q, size)];
  }

  lemma FilledSlot(m: map<nat, seq<byte>>, m1: map<nat, seq<byte>>, m2: map<nat, seq<byte>>, n: nat, p: nat, q: nat,
                   size: nat)
    requires p in m && q in m1 && q in m2 && |m1[q]| == |m2[q]| == size && n < 256
    requires forall k | 0 <= k < |m[p]| :: m[p][k] == n
    requires m[p][..Min(|m[p]|, size)] == m1[q][..Min(|m[p]|, size)]
    requires m2[q] == if size > |m[p]| then m1[q][..|m[p]|] + seq(size - |m[p]|, _ => n) else m1[q]
    ensures Owns(Slot(q, size), n, m2[q])
  {
    var c := Min(|m[p]|, size);
    forall k | 0 <= k < size
      ensures m2[q][k] == n
    {
      if k < c {
        assert m1[q][k] == m1[q][..c][k] == m[p][..c][k];
      }
    }
  }

  /** Blocks have nonzero 32-bit addresses. */
  lemma BlockRange(d: seq<byte>, cs: seq<Cell>, p: nat)
    requires Heap(d, cs) && p in Blocks(d, cs)
    ensures 0 < p < WORD && Index(cs, p) + 1 < |cs| && cs[Index(cs, p)].used && cs[Index(cs, p)].off + HEADER == p
  {
    BlockIndex(d, cs, p, Index(cs, p));
    ChunkFacts(d, cs, Index(cs, p));
  }

  // ---------------------------------------------------------------------------
  // What a run comes to

  datatype State = State(cells: seq<Cell>, slots: seq<Slot>)

  /** The status of the step is 0. */
  ghost predicate Succeeds(s: State, step: Step, limit: nat) {
    step.slot < |s.slots| &&
    var p := s.slots[step.slot].off;
    if p == 0 then Pick(s.cells, 0, step.size, limit) < |s.cells|
    else
      var i := Index(s.cells, p);
      step.free || (i + 1 < |s.cells| && !WayOf(s.cells, i, step.size, limit).Refused?)
  }

  /** The state after a step; one that fails changes nothing. */
  ghost function Next(s: State, step: Step, limit: nat): State {
    if !Succeeds(s, step, limit) then s
    else
      var n := step.slot;
      var p := s.slots[n].off;
      if p == 0 then
        var q := AllocAddress(s.cells, step.size, limit);
        State(Alloced(s.cells, step.size, limit), s.slots[n := Slot(q, step.size)])
      else if step.free then State(FreedBlock(s.cells, p), s.slots[n := EMPTY])
      else
        var i := Index(s.cells, p);
        State(Realloced(s.cells, i, step.size, limit),
              s.slots[n := Slot(ReallocAddress(s.cells, i, step.size, limit), step.size)])
  }

  /** The state after a script. */
  ghost function After(s: State, script: seq<Step>, limit: nat): State {
    if script == [] then s else Next(After(s, script[..|script| - 1], limit), script[|script| - 1], limit)
  }

  /** Which steps of the script succeed. */
  ghost function Statuses(s: State, script: seq<Step>, limit: nat): (oks: seq<bool>)
    ensures |oks| == |script|
  {
    if script == [] then [] else
      var n := |script| - 1;
      Statuses(s, script[..n], limit) + [Succeeds(After(s, script[..n], limit), script[n], limit)]
  }

  ghost function Start(start: nat, count: nat): State {
    State([Cell(start, 0, false)], seq(count, _ => EMPTY))
  }

  // ---------------------------------------------------------------------------
  // Room for all slots

  /** There are no more blocks than slots. */
  lemma {:induction false} FewBlocks(slots: seq<Slot>, m: map<nat, seq<byte>>)
    requires forall p | p in m :: exists n | 0 <= n < |slots| :: slots[n].off == p
    ensures |m| <= |slots|
  {
    if slots == [] {
      assert m == map[];
    } else {
      var k := |slots| - 1;
      var rest := m - {slots[k].off};
      forall p | p in rest
        ensures exists n | 0 <= n < |slots[..k]| :: slots[..k][n].off == p
      {
        var n :| 0 <= n < |slots| && slots[n].off == p;
        assert slots[..k][n].off == p;
      }
      FewBlocks(slots[..k], rest);
      assert m.Keys <= rest.Keys + {slots[k].off};
      AtMostOneMore(m.Keys, rest.Keys, slots[k].off);
    }
  }

  lemma AtMostOneMore(a: set<nat>, b: set<nat>, x: nat)
    requires a <= b + {x}
    ensures |a| <= |b| + 1
  {
    if x in a {
      assert a == (a - {x}) + {x};
      Smaller(a - {x}, b);
    } else {
      Smaller(a, b);
    }
  }

  lemma {:induction false} Smaller(a: set<nat>, b: set<nat>)
    requires a <= b
    ensures |a| <= |b|
  {
    if a != {} {
      var x :| x in a;
      Smaller(a - {x}, b - {x});
    }
  }

  /** With room for all slots no step fails. */
  lemma StepSucceeds(d: seq<byte>, cs: seq<Cell>, slots: seq<Slot>, step: Step, most: nat)
    requires Heap(d, cs) && Faithful(slots, Blocks(d, cs)) && step.slot < |slots| && step.size <= most
    requires Snug(cs, RoundUp(most) + 16) && Roomy(Get32(d, HEAP_OFFSET_FIELD), |d|, |slots|, most)
    ensures Succeeds(State(cs, slots), step, |d|)
  {
    var p := slots[step.slot].off;
    FewBlocks(slots, Blocks(d, cs));
    UsedBlocks(d, cs);
    MoreRounded(step.size, most);
    AlwaysRoom(cs, Get32(d, HEAP_OFFSET_FIELD), |d|, |slots|, most, RoundUp(step.size));
    var k :| 0 <= k < |cs| && Suits(cs, k, RoundUp(step.size), |d|);
    AcceptsSuits(cs, k, step.size, |d|);
    if p != 0 {
      BlockRange(d, cs, p);
    }
  }

  lemma MoreRounded(n: nat, m: nat)
    requires n <= m
    ensures RoundUp(n) <= RoundUp(m)
  {
  }

  /** The first chunk stays where it is. */
  lemma NextFirst(s: State, step: Step, limit: nat)
    requires |s.cells| > 0
    ensures var s' := Next(s, step, limit); |s'.cells| > 0 && s'.cells[0].off == s.cells[0].off
  {
    if Succeeds(s, step, limit) {
      var p := s.slots[step.slot].off;
      if p == 0 {
        AllocedFirst(s.cells, step.size, limit);
      } else if step.free {
        FreedFirst(s.cells, p);
      } else {
        ReallocedFirst(s.cells, Index(s.cells, p), step.size, limit);
      }
    }
  }

  /** The list after a step. */
  ghost predicate Follows(cs: seq<Cell>, p: nat, step: Step, limit: nat, next: seq<Cell>) {
    || next == cs
    || (p == 0 && next == Alloced(cs, step.size, limit))
    || (p != 0 && next == FreedBlock(cs, p))
    || (p != 0 && Index(cs, p) + 1 < |cs| && next == Realloced(cs, Index(cs, p), step.size, limit))
  }

  lemma NextFollows(cs: seq<Cell>, slots: seq<Slot>, step: Step, limit: nat)
    requires step.slot < |slots|
    ensures Follows(cs, slots[step.slot].off, step, limit, Next(State(cs, slots), step, limit).cells)
  {
  }

  /** A step keeps chunks as short as before. */
  lemma NextSnug(d: seq<byte>, cs: seq<Cell>, p: nat, step: Step, most: nat, next: seq<Cell>)
    requires Heap(d, cs) && (p != 0 ==> p in Blocks(d, cs)) && 0 < step.size <= most
    requires |d| + step.size + 7 < WORD && Snug(cs, RoundUp(most) + 16) && Follows(cs, p, step, |d|, next)
    ensures Snug(next, RoundUp(most) + 16)
  {
    var start, cap := Get32(d, HEAP_OFFSET_FIELD), RoundUp(most) + 16;
    FitsWithoutWrap(cs, step.size, |d|);
    MoreRounded(step.size, most);
    if p == 0 {
      AllocedSnug(cs, start, |d|, step.size, cap);
    } else {
      BlockRange(d, cs, p);
      FreedBlockSnug(cs, start, |d|, p, cap);
      ReallocedSnug(cs, start, |d|, Index(cs, p), step.size, cap);
    }
  }

  /** What is known of the run after some steps, as far as room is concerned. */
  ghost predicate Going(cs: seq<Cell>, first: nat, most: nat, roomy: bool, oks: seq<bool>) {
    && |cs| > 0 && cs[0].off == first && Snug(cs, RoundUp(most) + 16)
    && (roomy ==> forall j | 0 <= j < |oks| :: oks[j])
  }

  lemma GoingOn(d: seq<byte>, cs: seq<Cell>, slots: seq<Slot>, step: Step, first: nat, most: nat, roomy: bool,
                oks: seq<bool>)
    requires Heap(d, cs) && Faithful(slots, Blocks(d, cs)) && step.slot < |slots| && 0 < step.size <= most
    requires |d| + step.size + 7 < WORD && Going(cs, first, most, roomy, oks)
    requires roomy == Roomy(first, |d|, |slots|, most)
    ensures var s := State(cs, slots);
      Going(Next(s, step, |d|).cells, first, most, roomy, oks + [Succeeds(s, step, |d|)])
  {
    NextFollows(cs, slots, step, |d|);
    NextSnug(d, cs, slots[step.slot].off, step, most, Next(State(cs, slots), step, |d|).cells);
    NextFirst(State(cs, slots), step, |d|);
    if roomy {
      StepSucceeds(d, cs, slots, step, most);
    }
  }

  // ---------------------------------------------------------------------------
  // The driver

  method AllocStep(h: AccountData, slots: seq<Slot>, step: Step) returns (ok: bool, slots': seq<Slot>)
    requires h.Valid() && Faithful(slots, h.Contents())
    requires step.slot < |slots| <= 256 && h.data.Length + step.size + 7 < WORD && 0 < step.size
    requires slots[step.slot].off == 0
    modifies h.data, h`cells
    ensures h.Valid() && Faithful(slots', h.Contents())
    ensures ok == Succeeds(State(old(h.cells), slots), step, h.data.Length) && (!ok ==> h.data[..] == old(h.data[..]))
    ensures State(h.cells, slots') == Next(State(old(h.cells), slots), step, h.data.Length)
  {
    var n := step.slot;
    ghost var m := h.Contents();
    FitsWithoutWrap(h.cells, step.size, h.data.Length);
    var rc, p := h.Alloc(step.size);
    ok, slots' := rc == 0, slots;
    if ok {
      ghost var m1 := h.Contents();
      BlockRange(h.data[..], h.cells, p);
      h.Fill(p, 0, step.size, n);
      slots' := slots[n := Slot(p, step.size)];
      FillSlot(slots, m, m1, n, p, step.size, h.Contents()[p]);
    }
  }

  /** The new block of slot n is filled with the slot's number. */
  lemma FillSlot(slots: seq<Slot>, m: map<nat, seq<byte>>, m1: map<nat, seq<byte>>, n: nat, p: nat, size: nat,
                 v: seq<byte>)
    requires Faithful(slots, m) && n < |slots| <= 256 && slots[n].off == 0
    requires Fresh(m, m1, size, p) && p != 0 && v == m1[p][..0] + seq(size, _ => n)
    ensures Faithful(slots[n := Slot(p, size)], m1[p := v])
  {
    assert m1[p := v] - {p} == m1 - {p};
    TakeSlot(slots, m, m1[p := v], n, Slot(p, size));
  }

  /** The driver's memset behind the old bytes of a block that grew. */
  method FillUp(h: AccountData, p: u32, oldSize: u32, size: u32, b: byte)
    requires h.Valid() && p in h.Contents() && |h.Contents()[p]| == size
    modifies h.data
    ensures h.Valid() && p in h.Contents() && h.Contents() - {p as nat} == old(h.Contents()) - {p as nat}
    ensures h.Contents()[p] ==
      if size > oldSize then old(h.Contents())[p][..oldSize] + seq(size - oldSize, _ => b) else old(h.Contents())[p]
  {
    if size > oldSize {
      ghost var m := h.Contents();
      h.Fill(p, oldSize, size, b);
      assert h.Contents() - {p as nat} == m - {p as nat};
    }
  }

  method ReallocStep(h: AccountData, slots: seq<Slot>, step: Step) returns (ok: bool, slots': seq<Slot>)
    requires h.Valid() && Faithful(slots, h.Contents())
    requires step.slot < |slots| <= 256 && h.data.Length + step.size + 7 < WORD && 0 < step.size
    requires slots[step.slot].off != 0 && !step.free
    modifies h.data, h`cells
    ensures h.Valid() && Faithful(slots', h.Contents())
    ensures ok == Succeeds(State(old(h.cells), slots), step, h.data.Length) && (!ok ==> h.data[..] == old(h.data[..]))
    ensures State(h.cells, slots') == Next(State(old(h.cells), slots), step, h.data.Length)
  {
    var n := step.slot;
    ghost var m := h.Contents();
    BlockRange(h.data[..], h.cells, slots[n].off);
    FitsWithoutWrap(h.cells, step.size, h.data.Length);
    var oldSize := h.Len(slots[n].off);
    var rc, p := h.Realloc(slots[n].off, step.size);
    ok, slots' := rc == 0, slots;
    if ok {
      BlockRange(h.data[..], h.cells, p);
      ghost var m1 := h.Contents();
      FillUp(h, p, oldSize, step.size, n);
      slots' := slots[n := Slot(p, step.size)];
      ResizeSlot(slots, m, m1, h.Contents(), n, p, step.size);
    }
  }

  /** Executes one step, as the body of the random driver does; ok is false when the account was too small. */
  method DoStep(h: AccountData, slots: seq<Slot>, step: Step) returns (ok: bool, slots': seq<Slot>)
    requires h.Valid() && Faithful(slots, h.Contents())
    requires step.slot < |slots| <= 256 && h.data.Length + step.size + 7 < WORD && 0 < step.size
    modifies h.data, h`cells
    ensures h.Valid() && Faithful(slots', h.Contents())
    ensures ok == Succeeds(State(old(h.cells), slots), step, h.data.Length) && (!ok ==> h.data[..] == old(h.data[..]))
    ensures State(h.cells, slots') == Next(State(old(h.cells), slots), step, h.data.Length)
  {
    var n := step.slot;
    if slots[n].off == 0 {
      ok, slots' := AllocStep(h, slots, step);
    } else if step.free {
      ghost var m := h.Contents();
      BlockRange(h.data[..], h.cells, slots[n].off);
      h.Free(slots[n].off);
      ok, slots' := true, slots[n := EMPTY];
      DropSlot(slots, m, n);
    } else {
      ok, slots' := ReallocStep(h, slots, step);
    }
  }

  /** The heap of an account as a new one has it. */
  ghost predicate NewAccount(d: seq<byte>) {
    && HEADER <= |d| < WORD
    && var start := Get32(d, HEAP_OFFSET_FIELD);
       start % 8 == 0 && HEADER <= start && start + HEADER <= |d| && HeaderAt(d, start) == Header(0, 0, 0, 0)
  }

  lemma RunMore(s: State, script: seq<Step>, k: nat, limit: nat)
    requires k < |script|
    ensures var t := After(s, script[..k], limit);
      && After(s, script[..k + 1], limit) == Next(t, script[k], limit)
      && Statuses(s, script[..k + 1], limit) == Statuses(s, script[..k], limit) + [Succeeds(t, script[k], limit)]
  {
    assert script[..k + 1][..k] == script[..k];
  }

  /**
   Any script, on any number of slots, starting from a new account: chunks, slots and statuses are what the
   script says, the heap is well formed and no slot's bytes are lost.  If the account has room for all slots
   at their longest, every status is 0.
   */
  method RunScript(d: array<byte>, count: nat, script: seq<Step>, ghost most: nat)
    returns (h: AccountData, slots: seq<Slot>, oks: seq<bool>)
    requires NewAccount(d[..]) && count <= 256
    requires forall k | 0 <= k < |script| ::
      script[k].slot < count && 0 < script[k].size <= most && d.Length + script[k].size + 7 < WORD
    modifies d
    ensures fresh(h) && h.data == d && h.Valid() && Faithful(slots, h.Contents())
    ensures var s := Start(Get32(old(d[..]), HEAP_OFFSET_FIELD), count);
      State(h.cells, slots) == After(s, script, d.Length) && oks == Statuses(s, script, d.Length)
    ensures Roomy(Get32(old(d[..]), HEAP_OFFSET_FIELD), d.Length, count, most) ==> forall k | 0 <= k < |oks| :: oks[k]
  {
    ghost var s := Start(Get32(d[..], HEAP_OFFSET_FIELD), count);
    h := new AccountData(d);
    slots, oks := seq(count, _ => EMPTY), [];
    ghost var first := Get32(d[..], HEAP_OFFSET_FIELD);
    ghost var roomy := Roomy(first, d.Length, count, most);
    for k := 0 to |script|
      invariant fresh(h) && h.data == d && h.Valid() && |slots| == count && Faithful(slots, h.Contents())
      invariant Going(h.cells, first, most, roomy, oks)
      invariant State(h.cells, slots) == After(s, script[..k], d.Length) && oks == Statuses(s, script[..k], d.Length)
    {
      GoingOn(d[..], h.cells, slots, script[k], first, most, roomy, oks);
      RunMore(s, script, k, d.Length);
      var ok;
      ok, slots := DoStep(h, slots, script[k]);
      oks := oks + [ok];
    }
    assert script[..|script|] == script;
  }

  /** The driver as the repository runs it, with 100 slots in 64 KiB: every status it asserts to be 0 is 0. */
  method RandomDriver(d: array<byte>, script: seq<Step>) returns (h: AccountData, slots: seq<Slot>, oks: seq<bool>)
    requires d.Length == 0x1_0000 && NewAccount(d[..]) && Get32(d[..], 12) == 0x20
    requires forall k | 0 <= k < |script| :: script[k].slot < 100 && 0 < script[k].size <= 209
    modifies d
    ensures fresh(h) && h.data == d && h.Valid() && Faithful(slots, h.Contents())
    ensures State(h.cells, slots) == After(Start(0x20, 100), script, 0x1_0000)
    ensures |oks| == |script| && forall k | 0 <= k < |oks| :: oks[k]
  {
    DriverRoomy();
    h, slots, oks := RunScript(d, 100, script, 209);
  }

  // ---------------------------------------------------------------------------
  // Runs that lead to a chunk that is too small

  /** Two blocks are taken and the first is freed. */
  const HOLE := [Step(0, false, 8), Step(1, false, 8), Step(0, true, 8)]

  lemma TailTaken(cs: seq<Cell>, k: nat, limit: nat, cs': seq<Cell>)
    requires |cs| == k + 1 && !cs[k].used && cs[k].off + 40 < limit < WORD && (forall m | 0 <= m < k :: cs[m].used)
    requires cs' == cs[..k] + [Cell(cs[k].off, 8, true), Cell(cs[k].off + 24, 0, false)]
    ensures Pick(cs, 0, 8, limit) == k && Alloced(cs, 8, limit) == cs'
    ensures AllocAddress(cs, 8, limit) == cs[k].off + HEADER
  {
    NoWrap(cs[k].off, HEADER);
    NoWrap(cs[k].off + HEADER, 8);
    assert Accepts(cs, k, 8, limit);
    assert Carving(cs, k, k + 1, 8, 8) == [Cell(cs[k].off, 8, true), Cell(cs[k].off + 24, 0, false)];
  }

  lemma FrontFreed(cs: seq<Cell>)
    requires cs == [Cell(0x20, 8, true), Cell(0x38, 8, true), Cell(0x50, 0, false)]
    ensures FreedBlock(cs, 0x30) == [Cell(0x20, 8, false), Cell(0x38, 8, true), Cell(0x50, 0, false)]
  {
    assert cs[..2][..1] == [cs[0]];
    assert Index(cs, 0x30) == 0;
    FreedAlone(cs, 0, 0, Cell(0x20, 8, false));
  }

  /** What this run leaves, with every status 0. */
  lemma HoleLeft(s0: State, s1: State, s2: State)
    requires s0 == Start(0x20, 2) && s1 == Next(s0, HOLE[0], 0x1_0000) && s2 == Next(s1, HOLE[1], 0x1_0000)
    ensures Succeeds(s0, HOLE[0], 0x1_0000) && Succeeds(s1, HOLE[1], 0x1_0000) && Succeeds(s2, HOLE[2], 0x1_0000)
    ensures Next(s2, HOLE[2], 0x1_0000).cells == [Cell(0x20, 8, false), Cell(0x38, 8, true), Cell(0x50, 0, false)]
  {
    TailTaken(s0.cells, 0, 0x1_0000, [Cell(0x20, 8, true), Cell(0x38, 0, false)]);
    TailTaken(s1.cells, 1, 0x1_0000, [Cell(0x20, 8, true), Cell(0x38, 8, true), Cell(0x50, 0, false)]);
    FrontFreed(s2.cells);
  }

  lemma RunThree(s: State, script: seq<Step>, limit: nat, s1: State, s2: State)
    requires |script| == 3 && s1 == Next(s, script[0], limit) && s2 == Next(s1, script[1], limit)
    ensures After(s, script, limit) == Next(s2, script[2], limit)
    ensures Statuses(s, script, limit) ==
      [Succeeds(s, script[0], limit), Succeeds(s1, script[1], limit), Succeeds(s2, script[2], limit)]
  {
    RunTwo(s, script[..2], limit, s1);
    RunMore(s, script, 2, limit);
    assert script[..3] == script;
  }

  lemma RunTwo(s: State, script: seq<Step>, limit: nat, s1: State)
    requires |script| == 2 && s1 == Next(s, script[0], limit)
    ensures After(s, script, limit) == Next(s1, script[1], limit)
    ensures Statuses(s, script, limit) == [Succeeds(s, script[0], limit), Succeeds(s1, script[1], limit)]
  {
    RunMore(s, script, 0, limit);
    RunMore(s, script, 1, limit);
    assert script[..2] == script && script[..0] == [];
  }

  /** Any of the last 7 sizes is given the free chunk of 8 bytes that the run leaves. */
  lemma HoleTaken(size: u32)
    requires WORD - 7 <= size
    ensures Statuses(Start(0x20, 2), HOLE, 0x1_0000) == [true, true, true]
    ensures var cs := After(Start(0x20, 2), HOLE, 0x1_0000).cells;
      AllocAddress(cs, size, 0x1_0000) == 0x30 && cs[0].length == 8 && Wrapping(cs, size, 0x1_0000)
  {
    var s := Start(0x20, 2);
    var s1 := Next(s, HOLE[0], 0x1_0000);
    var s2 := Next(s1, HOLE[1], 0x1_0000);
    RunThree(s, HOLE, 0x1_0000, s1, s2);
    HoleLeft(s, s1, s2);
    SizeWraps(After(s, HOLE, 0x1_0000).cells, size, 0x1_0000);
  }
}
