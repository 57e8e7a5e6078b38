/**
 Whole runs of the runtime heap: any script of requests, started on a fresh memory.  A table says what
 the program knows of its blocks; it is computed from the script and the list of chunks alone.
 */
module RuntimeHeapRuns {
  import opened Options
  import opened Bytes
  import opened ChunkList
  import opened RuntimeCells
  import opened RuntimeHeap

  /** A new block, the end or a new size of the block that an entry holds, or a byte stored in it. */
  datatype Request = Take(size: u32) | Drop(n: nat) | Resize(n: nat, size: u32) | Write(n: nat, at: nat, b: byte)

  /** A block of the program: its address, and its bytes as far as the program has written them. */
  datatype Entry = Entry(p: nat, bytes: seq<Option<byte>>)

  /** The chunks, the table, and the word at address 4, where a store through null lands. */
  datatype State = State(cells: seq<Cell>, table: seq<Entry>, word: nat)

  datatype Answer = Served | NoMemory | RanAway

  function Put(v: seq<byte>, at: nat, b: byte): (r: seq<byte>)
    requires at < |v|
    ensures |r| == |v|
  {
    v[at := b]
  }

  function Blank(n: nat): (s: seq<Option<byte>>)
    ensures |s| == n
  {
    seq(n, _ => None)
  }

  /** The bytes after a change of size: what fits is kept. */
  function Refit(bytes: seq<Option<byte>>, size: nat): (s: seq<Option<byte>>)
    ensures |s| == size && forall k | 0 <= k < Min(|bytes|, size) :: s[k] == bytes[k]
  {
    if size <= |bytes| then bytes[..size] else bytes + Blank(size - |bytes|)
  }

  /** The request stores a byte of its block; others are ignored, as the program must not make them. */
  predicate Stores(table: seq<Entry>, n: nat, at: nat) {
    n < |table| && at < |table[n].bytes|
  }

  ghost function AnswerTo(s: State, request: Request): Answer {
    match request
    case Take(size) => if Pick(s.cells, 0, size) < |s.cells| then Served else NoMemory
    case Resize(n, size) =>
      if n >= |s.table| then Served
      else (match ReallocOutcome(s.cells, s.table[n].p, size)
            case Block(_) => Served
            case OutOfMemory => NoMemory
            case Fault => RanAway)
    case _ => Served
  }

  /** The state after a request that is served. */
  ghost function Next(s: State, request: Request): State {
    match request
    case Take(size) =>
      s.(cells := Malloced(s.cells, size), table := s.table + [Entry(MallocAddress(s.cells, size), Blank(size))])
    case Drop(n) =>
      if n < |s.table| then
        State(FreedBlock(s.cells, s.table[n].p), s.table[..n] + s.table[n + 1..],
              NullWord(s.cells, s.table[n].p, s.word))
      else s
    case Resize(n, size) =>
      if n >= |s.table| then s
      else (match ReallocOutcome(s.cells, s.table[n].p, size)
            case Block(q) =>
              State(Realloced(s.cells, s.table[n].p, size), s.table[n := Entry(q, Refit(s.table[n].bytes, size))],
                    ReallocWord(s.cells, s.table[n].p, size, s.word))
            case _ => s)
    case Write(n, at, b) =>
      if Stores(s.table, n, at) then
        s.(table := s.table[n := s.table[n].(bytes := s.table[n].bytes[at := Some(b)])])
      else s
  }

  /** The state after a script. */
  ghost function After(s: State, script: seq<Request>): State {
    if script == [] then s else Next(After(s, script[..|script| - 1]), script[|script| - 1])
  }

  ghost function Start(length: nat, word: nat): State
    requires HEAP_START + HEADER <= length
  {
    State([Cell(HEAP_START, length - HEAP_START - HEADER, false)], [], word)
  }

  /** The state that the memory, the chunks and the table make up. */
  ghost function Now(mem: seq<byte>, cells: seq<Cell>, table: seq<Entry>): State
    requires 8 <= |mem|
  {
    State(cells, table, Get32(mem, 4))
  }

  /** The block is there, long enough, and has the bytes that were written. */
  ghost predicate Held(e: Entry, m: map<nat, seq<byte>>) {
    && e.p in m && |e.bytes| <= |m[e.p]|
    && forall k | 0 <= k < |e.bytes| && e.bytes[k].Some? :: m[e.p][k] == e.bytes[k].value
  }

  /** The table holds every block, each once, and nothing else. */
  ghost predicate Lists(table: seq<Entry>, m: map<nat, seq<byte>>) {
    && (forall n | 0 <= n < |table| :: Held(table[n], m))
    && (forall a, b | 0 <= a < b < |table| :: table[a].p != table[b].p)
    && (forall p | p in m :: exists n | 0 <= n < |table| :: table[n].p == p)
  }

  lemma HeldElsewhere(e: Entry, m: map<nat, seq<byte>>, m': map<nat, seq<byte>>, p: nat, q: nat)
    requires Held(e, m) && e.p != p && m' - {q} == m - {p}
    ensures Held(e, m') && e.p != q
  {
    assert e.p in m - {p} && (m - {p})[e.p] == m[e.p];
    assert e.p in m' - {q};
  }

  /** Block p became block q, in entry n. */
  lemma ListChanged(table: seq<Entry>, m: map<nat, seq<byte>>, m': map<nat, seq<byte>>, n: nat, e: Entry)
    requires Lists(table, m) && n < |table| && m' - {e.p} == m - {table[n].p} && Held(e, m')
    ensures Lists(table[n := e], m')
  {
    var t, p := table[n := e], table[n].p;
    forall k | 0 <= k < |t| && k != n
      ensures Held(t[k], m') && t[k].p != e.p
    {
      HeldElsewhere(t[k], m, m', p, e.p);
    }
    forall x | x in m'
      ensures exists k | 0 <= k < |t| :: t[k].p == x
    {
      if x == e.p {
        assert t[n].p == x;
      } else {
        assert x in m' - {e.p};
        assert x in m - {p};
        var k :| 0 <= k < |table| && table[k].p == x;
        assert t[k].p == x;
      }
    }
  }

  lemma ListTaken(table: seq<Entry>, m: map<nat, seq<byte>>, m': map<nat, seq<byte>>, size: nat, p: nat)
    requires Lists(table, m) && Allocated(m, m', size, p)
    ensures Lists(table + [Entry(p, Blank(size))], m')
  {
    var t := table + [Entry(p, Blank(size))];
    forall k | 0 <= k < |table|
      ensures Held(t[k], m') && t[k].p != p
    {
      assert m' - {p} == m - {p};
      HeldElsewhere(table[k], m, m', p, p);
    }
    forall x | x in m'
      ensures exists k | 0 <= k < |t| :: t[k].p == x
    {
      if x == p {
        assert t[|table|].p == x;
      } else {
        assert x in m' - {p};
        var k :| 0 <= k < |table| && table[k].p == x;
        assert t[k].p == x;
      }
    }
  }

  lemma ListDropped(table: seq<Entry>, m: map<nat, seq<byte>>, n: nat)
    requires Lists(table, m) && n < |table|
    ensures Lists(table[..n] + table[n + 1..], m - {table[n].p})
  {
    var t, p := table[..n] + table[n + 1..], table[n].p;
    var m' := m - {p};
    assert m' - {p} == m';
    forall k | 0 <= k < |t|
      ensures Held(t[k], m')
    {
      var j := if k < n then k else k + 1;
      assert t[k] == table[j];
      HeldElsewhere(table[j], m, m', p, p);
    }
    DropDistinct(table, n, t);
    forall x | x in m'
      ensures exists k | 0 <= k < |t| :: t[k].p == x
    {
      DropListed(table, n, t, x);
    }
  }

  lemma DropListed(table: seq<Entry>, n: nat, t: seq<Entry>, x: nat)
    requires n < |table| && t == table[..n] + table[n + 1..] && x != table[n].p
    requires exists k | 0 <= k < |table| :: table[k].p == x
    ensures exists k | 0 <= k < |t| :: t[k].p == x
  {
    var k :| 0 <= k < |table| && table[k].p == x;
    assert t[if k < n then k else k - 1].p == x;
  }

  lemma DropDistinct(table: seq<Entry>, n: nat, t: seq<Entry>)
    requires n < |table| && t == table[..n] + table[n + 1..]
    requires forall a, b | 0 <= a < b < |table| :: table[a].p != table[b].p
    ensures forall a, b | 0 <= a < b < |t| :: t[a].p != t[b].p
  {
    forall a, b | 0 <= a < b < |t|
      ensures t[a].p != t[b].p
    {
      assert t[a] == table[if a < n then a else a + 1] && t[b] == table[if b < n then b else b + 1];
    }
  }

  lemma HeldRegrown(e: Entry, m: map<nat, seq<byte>>, m': map<nat, seq<byte>>, q: nat, size: nat)
    requires Held(e, m) && Regrown(m, m', e.p, q, size)
    ensures Held(Entry(q, Refit(e.bytes, size)), m')
  {
    var bytes, n := Refit(e.bytes, size), Min(|m[e.p]|, size);
    forall k | 0 <= k < |bytes| && bytes[k].Some?
      ensures m'[q][k] == bytes[k].value
    {
      assert k < |e.bytes| && bytes[k] == e.bytes[k];
      assert m[e.p][..n][k] == m'[q][..n][k];
    }
  }

  /** A byte that the program stores into its block. */
  method StoreByte(h: Memory, p: u32, at: nat, b: byte)
    requires h.Valid() && p in h.Contents() && at < |h.Contents()[p]|
    modifies h.mem
    ensures h.Valid() && h.Contents() == old(h.Contents())[p as nat := Put(old(h.Contents())[p], at, b)]
    ensures Agree(old(h.mem[..]), h.mem[..], 0, HEAP_START)
  {
    ghost var d, cs, i := h.mem[..], h.cells, Index(h.cells, p);
    BlockIndex(d, cs, p, i);
    ChunkFacts(d, cs, i);
    h.mem[p + at] := b;
    assert h.mem[..] == Put(d, p + at, b);
    StoredByte(d, cs, i, p, at, b);
  }

  lemma StoredByte(d: seq<byte>, cs: seq<Cell>, i: nat, p: nat, at: nat, b: byte)
    requires Heap(d, cs) && i < |cs| && cs[i].used && p == cs[i].off + HEADER && at < cs[i].length && cs[i].End() <= |d|
    requires p in Blocks(d, cs) && Blocks(d, cs)[p] == Payload(d, cs[i])
    ensures var d' := Put(d, p + at, b);
      Heap(d', cs) && Blocks(d', cs) == Blocks(d, cs)[p := Put(Blocks(d, cs)[p], at, b)]
  {
    var d' := Put(d, p + at, b);
    Overwrite(d, d', cs, i, p, cs[i].End());
    assert Payload(d', cs[i]) == Put(Payload(d, cs[i]), at, b);
  }

  lemma HeldStored(e: Entry, m: map<nat, seq<byte>>, at: nat, b: byte)
    requires Held(e, m) && at < |e.bytes|
    ensures Held(e.(bytes := e.bytes[at := Some(b)]), m[e.p := Put(m[e.p], at, b)])
  {
  }

  /** Addresses are 32-bit. */
  lemma BlockRange(d: seq<byte>, cs: seq<Cell>, p: nat)
    requires Heap(d, cs) && p in Blocks(d, cs)
    ensures 0 < p < WORD && Index(cs, p) < |cs|
  {
    BlockIndex(d, cs, p, Index(cs, p));
    ChunkFacts(d, cs, Index(cs, p));
  }

  method DropEntry(h: Memory, table: seq<Entry>, n: nat) returns (table': seq<Entry>)
    requires h.Valid() && Lists(table, h.Contents()) && n < |table|
    modifies h.mem, h`cells
    ensures Now(h.mem[..], h.cells, table') == Next(Now(old(h.mem[..]), old(h.cells), table), Drop(n))
    ensures h.Valid() && Lists(table', h.Contents()) && LowKept(old(h.mem[..]), h.mem[..])
  {
    ghost var m := h.Contents();
    assert Held(table[n], m);
    BlockRange(h.mem[..], h.cells, table[n].p);
    h.Free(table[n].p);
    table' := table[..n] + table[n + 1..];
    ListDropped(table, m, n);
  }

  method ResizeEntry(h: Memory, table: seq<Entry>, n: nat, size: u32) returns (answer: Answer, table': seq<Entry>)
    requires h.Valid() && Lists(table, h.Contents()) && n < |table|
    modifies h.mem, h`cells
    ensures answer == AnswerTo(Now(old(h.mem[..]), old(h.cells), table), Resize(n, size))
    ensures answer.Served? ==>
      Now(h.mem[..], h.cells, table') == Next(Now(old(h.mem[..]), old(h.cells), table), Resize(n, size))
    ensures answer.RanAway? ==> Get32(h.mem[..], 4) == Get32(old(h.mem[..]), 4)
    ensures answer.NoMemory? ==> h.mem[..] == old(h.mem[..]) && h.cells == old(h.cells) && table' == table
    ensures !answer.RanAway? ==> h.Valid() && Lists(table', h.Contents())
    ensures LowKept(old(h.mem[..]), h.mem[..])
  {
    ghost var m := h.Contents();
    assert Held(table[n], m);
    BlockRange(h.mem[..], h.cells, table[n].p);
    var r := h.Realloc(table[n].p, size);
    table' := table;
    match r
    case Block(q) =>
      answer, table' := Served, table[n := Entry(q, Refit(table[n].bytes, size))];
      HeldRegrown(table[n], m, h.Contents(), q, size);
      ListChanged(table, m, h.Contents(), n, table'[n]);
    case OutOfMemory => answer := NoMemory;
    case Fault => answer := RanAway;
  }

  method WriteEntry(h: Memory, table: seq<Entry>, n: nat, at: nat, b: byte) returns (table': seq<Entry>)
    requires h.Valid() && Lists(table, h.Contents()) && Stores(table, n, at)
    modifies h.mem
    ensures Now(h.mem[..], h.cells, table') == Next(Now(old(h.mem[..]), h.cells, table), Write(n, at, b))
    ensures h.Valid() && Lists(table', h.Contents()) && LowKept(old(h.mem[..]), h.mem[..])
  {
    ghost var m := h.Contents();
    assert Held(table[n], m);
    BlockRange(h.mem[..], h.cells, table[n].p);
    ghost var d := h.mem[..];
    StoreByte(h, table[n].p, at, b);
    LowSame(d, h.mem[..]);
    table' := table[n := table[n].(bytes := table[n].bytes[at := Some(b)])];
    HeldStored(table[n], m, at, b);
    ListChanged(table, m, h.Contents(), n, table'[n]);
  }

  /** Serves one request, or says why it cannot. */
  method Serve(h: Memory, table: seq<Entry>, request: Request) returns (answer: Answer, table': seq<Entry>)
    requires h.Valid() && Lists(table, h.Contents())
    modifies h.mem, h`cells
    ensures answer == AnswerTo(Now(old(h.mem[..]), old(h.cells), table), request)
    ensures answer.Served? ==>
      Now(h.mem[..], h.cells, table') == Next(Now(old(h.mem[..]), old(h.cells), table), request)
    ensures answer.RanAway? ==> Get32(h.mem[..], 4) == Get32(old(h.mem[..]), 4)
    ensures answer.NoMemory? ==> h.mem[..] == old(h.mem[..]) && h.cells == old(h.cells) && table' == table
    ensures !answer.RanAway? ==> h.Valid() && Lists(table', h.Contents())
    ensures LowKept(old(h.mem[..]), h.mem[..])
  {
    answer, table' := Served, table;
    match request
    case Take(size) =>
      ghost var m := h.Contents();
      NotNull(h.mem[..], h.cells);
      ghost var d := h.mem[..];
      var p := h.Malloc(size);
      LowSame(d, h.mem[..]);
      if p == 0 {
        return NoMemory, table;
      }
      table' := table + [Entry(p, Blank(size))];
      ListTaken(table, m, h.Contents(), size, p);
    case Drop(n) =>
      if n < |table| {
        table' := DropEntry(h, table, n);
      }
    case Resize(n, size) =>
      if n < |table| {
        answer, table' := ResizeEntry(h, table, n, size);
      }
    case Write(n, at, b) =>
      if Stores(table, n, at) {
        table' := WriteEntry(h, table, n, at, b);
      }
  }

  /** Every request of the script is served from the state that the ones before it left. */
  ghost predicate AllServed(s: State, script: seq<Request>) {
    script != [] ==>
      var n := |script| - 1;
      AllServed(s, script[..n]) && AnswerTo(After(s, script[..n]), script[n]).Served?
  }

  lemma ServedMore(s: State, script: seq<Request>, k: nat)
    requires k < |script| && AllServed(s, script[..k]) && AnswerTo(After(s, script[..k]), script[k]).Served?
    ensures AllServed(s, script[..k + 1]) && After(s, script[..k + 1]) == Next(After(s, script[..k]), script[k])
  {
    assert script[..k + 1][..k] == script[..k];
  }

  /**
   Runs the script on a fresh memory until a request cannot be served.  Chunks, table and the word at address 4
   are what the script says, and the rest below the heap is untouched; every block is in the table, with all
   bytes written to it; no byte of the heap is lost.
   */
  method RunRequests(mem: array<byte>, pages: nat, script: seq<Request>)
    returns (h: Memory, table: seq<Entry>, done: nat, answer: Answer)
    requires 2 <= pages < 0x1_0000 && mem.Length == pages * 0x1_0000
    modifies mem
    ensures fresh(h) && h.mem == mem && done <= |script|
    ensures var s := Start(mem.Length, Get32(old(mem[..]), 4));
      && AllServed(s, script[..done])
      && (if done == |script| then answer.Served?
          else !answer.Served? && answer == AnswerTo(After(s, script[..done]), script[done]))
      && (!answer.RanAway? ==> Now(mem[..], h.cells, table) == After(s, script[..done]))
      && Get32(mem[..], 4) == After(s, script[..done]).word
    ensures !answer.RanAway? ==>
      h.Valid() && Lists(table, h.Contents()) && HEAP_START + TotalBytes(h.cells) == mem.Length
    ensures LowKept(old(mem[..]), mem[..])
  {
    ghost var d := mem[..];
    ghost var s := Start(mem.Length, Get32(d, 4));
    h := new Memory.InitHeap(mem, pages);
    LowSame(d, mem[..]);
    table, done, answer := [], 0, Served;
    while done < |script|
      invariant fresh(h) && h.mem == mem && 0 <= done <= |script| && answer.Served?
      invariant h.Valid() && Lists(table, h.Contents()) && LowKept(d, mem[..])
      invariant AllServed(s, script[..done]) && Now(mem[..], h.cells, table) == After(s, script[..done])
    {
      answer, table := Serve(h, table, script[done]);
      if !answer.Served? {
        if answer.NoMemory? {
          BytesConserved(mem[..], h.cells);
        }
        return;
      }
      ServedMore(s, script, done);
      done := done + 1;
    }
    BytesConserved(mem[..], h.cells);
  }

  // ---------------------------------------------------------------------------
  // Two runs that show what the conditions above are about

  /** Two blocks are taken and freed in that order. */
  const NULL_STORE := [Take(8), Take(8), Drop(0), Drop(0)]

  /** A block with another one behind it is resized to nothing. */
  const RUNAWAY := [Take(8), Take(8), Resize(0, 0)]

  lemma FirstPicked(cs: seq<Cell>, size: nat)
    requires |cs| > 0 && Suits(cs, 0, size)
    ensures Pick(cs, 0, size) == 0
  {
  }

  lemma SecondPicked(cs: seq<Cell>, size: nat)
    requires |cs| > 1 && !Suits(cs, 0, size) && Suits(cs, 1, size)
    ensures Pick(cs, 0, size) == 1
  {
    assert Pick(cs, 0, size) == Pick(cs, 1, size) == 1;
  }

  /** The chunks after a block of 8 bytes was taken from a memory of two pages. */
  lemma OneTaken(cs: seq<Cell>)
    requires cs == [Cell(0x1_0000, 0xFFF0, false)]
    ensures Pick(cs, 0, 8) == 0 && MallocAddress(cs, 8) == 0x1_0010
    ensures Malloced(cs, 8) == [Cell(0x1_0000, 8, true), Cell(0x1_0018, 0xFFD8, false)]
  {
    FirstPicked(cs, 8);
    CutTwo(0x1_0000, 0xFFF0, 8, Cell(0x1_0000, 8, true), Cell(0x1_0018, 0xFFD8, false));
  }

  /** The chunks after another one was taken. */
  lemma TwoTaken(cs: seq<Cell>)
    requires cs == [Cell(0x1_0000, 8, true), Cell(0x1_0018, 0xFFD8, false)]
    ensures Pick(cs, 0, 8) == 1 && MallocAddress(cs, 8) == 0x1_0028
    ensures Malloced(cs, 8) == [Cell(0x1_0000, 8, true), Cell(0x1_0018, 8, true), Cell(0x1_0030, 0xFFC0, false)]
  {
    SecondPicked(cs, 8);
    CutTwo(0x1_0018, 0xFFD8, 8, Cell(0x1_0018, 8, true), Cell(0x1_0030, 0xFFC0, false));
  }

  lemma TwoFreed(c2: seq<Cell>, c3: seq<Cell>)
    requires c2 == [Cell(0x1_0000, 8, true), Cell(0x1_0018, 8, true), Cell(0x1_0030, 0xFFC0, false)]
    requires c3 == FreedBlock(c2, 0x1_0010)
    ensures !StoresThroughNull(c2, Index(c2, 0x1_0010))
    ensures Index(c3, 0x1_0028) == 1 && StoresThroughNull(c3, 1) && c3[0].off == HEAP_START
  {
    assert c2[..2][..1] == [c2[0]];
    assert Index(c2, 0x1_0010) == 0;
    assert c3 == [Cell(0x1_0000, 8, false), c2[1], c2[2]];
  }

  /** The state after both blocks were taken. */
  lemma BothTaken(s: State, word: nat)
    requires s == After(Start(0x2_0000, word), [Take(8), Take(8)])
    ensures s.cells == [Cell(0x1_0000, 8, true), Cell(0x1_0018, 8, true), Cell(0x1_0030, 0xFFC0, false)]
    ensures s.table == [Entry(0x1_0010, Blank(8)), Entry(0x1_0028, Blank(8))] && s.word == word
    ensures AllServed(Start(0x2_0000, word), [Take(8), Take(8)])
  {
    var s0, script: seq<Request> := Start(0x2_0000, word), [Take(8), Take(8)];
    ServedMore(s0, script, 0);
    var s1 := Next(s0, Take(8));
    OneTaken(s0.cells);
    TwoTaken(s1.cells);
  }

  /** After the second block is given back the word at address 4 is where the heap starts, whatever it was. */
  lemma NullStored(word: nat)
    ensures AllServed(Start(0x2_0000, word), NULL_STORE)
    ensures After(Start(0x2_0000, word), NULL_STORE).word == HEAP_START
    ensures After(Start(0x2_0000, word), NULL_STORE).table == []
  {
    var s0, script := Start(0x2_0000, word), NULL_STORE;
    var s2 := After(s0, [Take(8), Take(8)]);
    BothTaken(s2, word);
    assert script[..2] == [Take(8), Take(8)];
    ServedMore(s0, script, 2);
    ServedMore(s0, script, 3);
    assert script[..4] == script;
    var s3 := Next(s2, Drop(0));
    TwoFreed(s2.cells, s3.cells);
  }

  /** The copy of a resize to nothing runs away. */
  lemma RanAwayCopying(word: nat)
    ensures AllServed(Start(0x2_0000, word), RUNAWAY[..2])
    ensures AnswerTo(After(Start(0x2_0000, word), RUNAWAY[..2]), RUNAWAY[2]) == RanAway
  {
    var s2 := After(Start(0x2_0000, word), [Take(8), Take(8)]);
    BothTaken(s2, word);
    assert RUNAWAY[..2] == [Take(8), Take(8)];
    var cs := s2.cells;
    assert cs[..2][..1] == [cs[0]];
    assert Index(cs, 0x1_0010) == 0;
    assert Suits(cs, 2, 0);
  }

  lemma {:induction false} ServedBefore(s: State, script: seq<Request>, n: nat, k: nat)
    requires n <= |script| && AllServed(s, script[..n]) && k < n
    ensures AnswerTo(After(s, script[..k]), script[k]).Served?
  {
    assert script[..n][..n - 1] == script[..n - 1];
    if k < n - 1 {
      ServedBefore(s, script, n - 1, k);
    }
  }

  /** The run of two blocks taken and freed in that order: the second free stores at address 4. */
  method NullStore(mem: array<byte>) returns (h: Memory, done: nat)
    requires mem.Length == 0x2_0000
    modifies mem
    ensures fresh(h) && h.mem == mem && h.Valid() && h.Contents() == map[] && done == |NULL_STORE|
    ensures h.cells == After(Start(0x2_0000, Get32(old(mem[..]), 4)), NULL_STORE).cells
    ensures Get32(mem[..], 4) == HEAP_START
  {
    ghost var word := Get32(mem[..], 4);
    var table, answer;
    h, table, done, answer := RunRequests(mem, 2, NULL_STORE);
    NullStored(word);
    assert NULL_STORE[..|NULL_STORE|] == NULL_STORE;
    if done < |NULL_STORE| {
      ServedBefore(Start(0x2_0000, word), NULL_STORE, |NULL_STORE|, done);
    }
  }

  /** The run that resizes a block to nothing: it stops in the copy. */
  method RunawayCopy(mem: array<byte>) returns (h: Memory, done: nat, answer: Answer)
    requires mem.Length == 0x2_0000
    modifies mem
    ensures done == 2 && answer.RanAway?
    ensures answer == AnswerTo(After(Start(0x2_0000, Get32(old(mem[..]), 4)), RUNAWAY[..done]), RUNAWAY[done])
  {
    ghost var s := Start(0x2_0000, Get32(mem[..], 4));
    var table;
    h, table, done, answer := RunRequests(mem, 2, RUNAWAY);
    RanAwayCopying(s.word);
    if done < 2 {
      ServedBefore(s, RUNAWAY, 2, done);
    } else if done == 3 {
      ServedBefore(s, RUNAWAY, 3, 2);
    }
  }
}
