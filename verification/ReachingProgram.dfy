/**
 The analysis as a whole, from the instructions of a program: what it finds is stated by looking back from
 a block for the last definition of each variable, without transfers and without the algorithm.
 */
module ReachingProgram {
  import opened Options
  import opened ReachingDefinitions
  import opened ReachingInstr
  import opened ReachingFind

  /** A basic block of the program, with its branch as the last instruction. */
  datatype Code = Code(instrs: seq<Instr>, successors: seq<nat>)

  function BlockTransfers(blockNo: nat, instrs: seq<Instr>): (r: seq<seq<Transfer>>)
    ensures |r| == |instrs|
    ensures forall k | 0 <= k < |r| :: Paired(r[k])
  {
    if instrs == [] then [] else
      var n := |instrs| - 1;
      InstrPaired(blockNo, n, instrs[n]);
      BlockTransfers(blockNo, instrs[..n]) + [InstrTransfers(blockNo, n, instrs[n])]
  }

  function BlockOf(blockNo: nat, code: Code): Block {
    Block(BlockTransfers(blockNo, code.instrs), code.successors)
  }

  function Graph(prog: seq<Code>): (g: seq<Block>)
    ensures |g| == |prog| && forall b | 0 <= b < |g| :: g[b] == BlockOf(b, prog[b])
  {
    seq(|prog|, b requires 0 <= b < |prog| => BlockOf(b, prog[b]))
  }

  /** There is a first block, and branches go to blocks. */
  ghost predicate Closed(prog: seq<Code>) {
    |prog| > 0 && forall b, k | 0 <= b < |prog| && 0 <= k < |prog[b].successors| :: prog[b].successors[k] < |prog|
  }

  lemma GraphWellFormed(prog: seq<Code>)
    requires Closed(prog)
    ensures WellFormed(Graph(prog))
  {
  }

  // ---------------------------------------------------------------------------
  // Looking back

  /** An instruction that was executed, and where it is. */
  datatype Spot = Spot(blockNo: nat, instrNo: nat, instr: Instr)

  /** The state after the instructions of a history. */
  ghost function RunFrom(h: seq<Spot>, s: VarDefs): VarDefs {
    if h == [] then s else
      var x := h[|h| - 1];
      ApplyAll(InstrTransfers(x.blockNo, x.instrNo, x.instr), RunFrom(h[..|h| - 1], s))
  }

  /** The last assignment that gave a variable its value: which one in the history, and to which variable. */
  datatype Source = NoSource | Source(at: nat, w: nat)

  /** The last assignment of variable v, followed through copies; a copy onto itself hides it. */
  function Last(h: seq<Spot>, v: nat): (r: Source)
    ensures r.Source? ==> r.at < |h| && r.w in Results(h[r.at].instr)
  {
    if h == [] then NoSource else
      var n := |h| - 1;
      var x := h[n].instr;
      if v in Results(x) then Source(n, v)
      else if x.SetFromVariable? && x.res == v then
        if x.src == v then NoSource else Last(h[..n], x.src)
      else Last(h[..n], v)
  }

  /** Variable v, or what it is a copy of, was modified in place since its last assignment. */
  ghost predicate Modified(h: seq<Spot>, v: nat) {
    h != [] &&
    var n := |h| - 1;
    var x := h[n].instr;
    if v in Results(x) then Changes(x, v)
    else if x.SetFromVariable? && x.res == v then x.src != v && Modified(h[..n], x.src)
    else Changes(x, v) || Modified(h[..n], v)
  }

  /** Definition d is one that the assignment gives. */
  ghost predicate Gives(h: seq<Spot>, r: Source, d: Def) {
    r.Source? && r.at < |h| && MadeBy(h[r.at].blockNo, h[r.at].instrNo, Results(h[r.at].instr), r.w, d)
  }

  /** The fact is what the last assignment of its variable and the modifications since then say. */
  ghost predicate Says(h: seq<Spot>, f: Fact) {
    Gives(h, Last(h, f.v), f.d) && (f.m ==> Modified(h, f.v))
  }

  /** Looking back over one instruction. */
  lemma SaysStep(h: seq<Spot>, n: nat, x: Spot, f: Fact)
    requires |h| == n + 1 && x == h[n]
    ensures Says(h, f) <==>
      if f.v in Results(x.instr)
      then MadeBy(x.blockNo, x.instrNo, Results(x.instr), f.v, f.d) && (f.m ==> Changes(x.instr, f.v))
      else if x.instr.SetFromVariable? && x.instr.res == f.v
      then x.instr.src != f.v && Says(h[..n], f.(v := x.instr.src))
      else Says(h[..n], f.(m := f.m && !Changes(x.instr, f.v)))
  {
  }

  /** Folding the transfers of any history and looking back through it come to the same facts. */
  lemma {:induction false} LastMeaning(h: seq<Spot>, f: Fact)
    ensures Holds(RunFrom(h, map[]), f) <==> Says(h, f)
  {
    if h != [] {
      var n := |h| - 1;
      var x := h[n];
      InstrMeaning(x.blockNo, x.instrNo, x.instr, RunFrom(h[..n], map[]), f);
      SaysStep(h, n, x, f);
      if f.v !in Results(x.instr) {
        if x.instr.SetFromVariable? && x.instr.res == f.v {
          LastMeaning(h[..n], f.(v := x.instr.src));
        } else {
          LastMeaning(h[..n], f.(m := f.m && !Changes(x.instr, f.v)));
        }
      }
    }
  }

  /** The variable occurs once in the list. */
  ghost predicate Once(vars: seq<nat>, v: nat) {
    forall i, j | 0 <= i < j < |vars| :: !(vars[i] == v && vars[j] == v)
  }

  /** The entry of a variable, definition by definition. */
  lemma EntryMeaning(h: seq<Spot>, v: nat, d: Def)
    ensures var s := RunFrom(h, map[]);
      && (v in s && d in s[v] <==> Gives(h, Last(h, v), d))
      && (v in s && d in s[v] ==> s[v][d] == Modified(h, v))
  {
    LastMeaning(h, Fact(v, d, false));
    LastMeaning(h, Fact(v, d, true));
  }

  /** A variable has an entry exactly if it was assigned. */
  lemma Assigned(h: seq<Spot>, v: nat)
    ensures v in RunFrom(h, map[]) <==> Last(h, v).Source?
  {
    var s, r := RunFrom(h, map[]), Last(h, v);
    if r.Source? {
      var k :| 0 <= k < |Results(h[r.at].instr)| && Results(h[r.at].instr)[k] == r.w;
      EntryMeaning(h, v, Def(h[r.at].blockNo, h[r.at].instrNo, k));
    }
    if v in s {
      RunProper(h);
      var d :| d in s[v];
      EntryMeaning(h, v, d);
    }
  }

  lemma {:induction false} RunProper(h: seq<Spot>)
    ensures Proper(RunFrom(h, map[]))
  {
    if h != [] {
      var x := h[|h| - 1];
      RunProper(h[..|h| - 1]);
      ApplyAllProper(InstrTransfers(x.blockNo, x.instrNo, x.instr), RunFrom(h[..|h| - 1], map[]));
    }
  }

  lemma OnlyDefinition(h: seq<Spot>, v: nat, d: Def)
    requires Gives(h, Last(h, v), d) && Once(Results(h[Last(h, v).at].instr), Last(h, v).w)
    ensures v in RunFrom(h, map[]) && RunFrom(h, map[])[v] == map[d := Modified(h, v)]
  {
    var s := RunFrom(h, map[]);
    EntryMeaning(h, v, d);
    forall e
      ensures e in s[v] <==> e == d
      ensures e in s[v] ==> s[v][e] == Modified(h, v)
    {
      EntryMeaning(h, v, e);
    }
  }

  /** A variable has one definition exactly if its last assignment names the variable it assigns once. */
  lemma OneDefinition(h: seq<Spot>, v: nat)
    requires Last(h, v).Source?
    ensures v in RunFrom(h, map[])
    ensures Once(Results(h[Last(h, v).at].instr), Last(h, v).w) <==>
      exists d :: RunFrom(h, map[])[v] == map[d := Modified(h, v)]
  {
    var r := Last(h, v);
    var x, vars := h[r.at], Results(h[r.at].instr);
    Assigned(h, v);
    if Once(vars, r.w) {
      var k :| 0 <= k < |vars| && vars[k] == r.w;
      OnlyDefinition(h, v, Def(x.blockNo, x.instrNo, k));
    } else {
      var i, j :| 0 <= i < j < |vars| && vars[i] == r.w && vars[j] == r.w;
      EntryMeaning(h, v, Def(x.blockNo, x.instrNo, i));
      EntryMeaning(h, v, Def(x.blockNo, x.instrNo, j));
    }
  }

  // ---------------------------------------------------------------------------
  // Paths

  function BlockHistory(blockNo: nat, instrs: seq<Instr>): (h: seq<Spot>) {
    if instrs == [] then [] else
      var n := |instrs| - 1;
      BlockHistory(blockNo, instrs[..n]) + [Spot(blockNo, n, instrs[n])]
  }

  /** The instructions executed along a path, up to the entry of its last block. */
  function PathHistory(prog: seq<Code>, p: seq<nat>): (h: seq<Spot>) {
    if |p| <= 1 || p[|p| - 2] >= |prog| then []
    else PathHistory(prog, p[..|p| - 1]) + BlockHistory(p[|p| - 2], prog[p[|p| - 2]].instrs)
  }

  lemma {:induction false} RunConcat(a: seq<Spot>, b: seq<Spot>, s: VarDefs)
    ensures RunFrom(a + b, s) == RunFrom(b, RunFrom(a, s))
  {
    if b == [] {
      assert a + b == a;
    } else {
      assert (a + b)[..|a + b| - 1] == a + b[..|b| - 1];
      RunConcat(a, b[..|b| - 1], s);
    }
  }

  lemma {:induction false} BlockRun(blockNo: nat, instrs: seq<Instr>, s: VarDefs)
    ensures Exit(BlockTransfers(blockNo, instrs), s) == RunFrom(BlockHistory(blockNo, instrs), s)
  {
    if instrs != [] {
      var n := |instrs| - 1;
      BlockRun(blockNo, instrs[..n], s);
      assert BlockTransfers(blockNo, instrs)[..n] == BlockTransfers(blockNo, instrs[..n]);
      assert BlockHistory(blockNo, instrs)[..|BlockHistory(blockNo, instrs)| - 1] == BlockHistory(blockNo, instrs[..n]);
    }
  }

  /** The state along a path is that of its history. */
  lemma {:induction false} PathRun(prog: seq<Code>, p: seq<nat>)
    ensures PathState(Graph(prog), p) == RunFrom(PathHistory(prog, p), map[])
    decreases |p|
  {
    if |p| > 1 && p[|p| - 2] < |prog| {
      var b := p[|p| - 2];
      PathRun(prog, p[..|p| - 1]);
      BlockRun(b, prog[b].instrs, PathState(Graph(prog), p[..|p| - 1]));
      RunConcat(PathHistory(prog, p[..|p| - 1]), BlockHistory(b, prog[b].instrs), map[]);
    }
  }

  /** Some variable is assigned in the history and not lost again. */
  ghost predicate Defines(h: seq<Spot>) {
    exists v :: Last(h, v).Source?
  }

  /** A path along the branches from block 0, with some variable defined at the exit of each block it leaves. */
  ghost predicate LiveRoute(prog: seq<Code>, p: seq<nat>) {
    && |p| > 0 && p[0] == 0
    && (|p| > 1 ==>
          && LiveRoute(prog, p[..|p| - 1])
          && p[|p| - 2] < |prog| && p[|p| - 1] in prog[p[|p| - 2]].successors
          && Defines(PathHistory(prog, p)))
  }

  lemma {:induction false} LiveRoutes(prog: seq<Code>, p: seq<nat>)
    ensures LivePath(Graph(prog), p) <==> LiveRoute(prog, p)
    decreases |p|
  {
    if |p| > 1 {
      LiveRoutes(prog, p[..|p| - 1]);
      PathRun(prog, p);
      SomethingDefined(PathHistory(prog, p));
    }
  }

  lemma SomethingDefined(h: seq<Spot>)
    ensures RunFrom(h, map[]) != map[] <==> Defines(h)
  {
    forall v
      ensures v in RunFrom(h, map[]) <==> Last(h, v).Source?
    {
      Assigned(h, v);
    }
    if RunFrom(h, map[]) != map[] {
      var v :| v in RunFrom(h, map[]);
    }
  }

  /** A live route to block b along which the history says the fact. */
  ghost predicate Evidence(prog: seq<Code>, b: nat, f: Fact, p: seq<nat>) {
    LiveRoute(prog, p) && p[|p| - 1] == b && Says(PathHistory(prog, p), f)
  }

  /** What is found at each block: exactly what the last definitions along its live routes say. */
  ghost predicate Found(prog: seq<Code>, defs: seq<VarDefs>) {
    && |defs| == |prog|
    && forall b, f | 0 <= b < |prog| :: Holds(defs[b], f) <==> exists p :: Evidence(prog, b, f, p)
  }

  lemma EvidenceWitness(prog: seq<Code>, b: nat, f: Fact, p: seq<nat>)
    ensures Evidence(prog, b, f, p) <==> Witness(Graph(prog), b, f, p)
  {
    LiveRoutes(prog, p);
    PathRun(prog, p);
    LastMeaning(PathHistory(prog, p), f);
  }

  /** The exact result on the transfers is what looking back through the program gives. */
  lemma ExactFound(prog: seq<Code>, defs: seq<VarDefs>)
    requires Exact(Graph(prog), defs)
    ensures Found(prog, defs)
  {
    forall b, f | 0 <= b < |prog|
      ensures Holds(defs[b], f) <==> exists p :: Evidence(prog, b, f, p)
    {
      forall p
        ensures Evidence(prog, b, f, p) <==> Witness(Graph(prog), b, f, p)
      {
        EvidenceWitness(prog, b, f, p);
      }
    }
  }

  // ---------------------------------------------------------------------------
  // The whole of find

  /** The transfers of one instruction, as it is matched. */
  method BuildInstr(blockNo: nat, instrNo: nat, instr: Instr) returns (transfer: seq<Transfer>)
    ensures transfer == InstrTransfers(blockNo, instrNo, instr)
  {
    match instr
    case SetFromVariable(res, src) => transfer := [Kill(res), Copy(res, src)];
    case Assign(results) => transfer := BuildSetVar(blockNo, instrNo, results);
    case PushMemory(a, res) =>
      transfer := BuildSetVar(blockNo, instrNo, [res]);
      transfer := transfer + [Mod(a)];
    case PopMemory(a) => transfer := [Mod(a)];
    case Store(dest) =>
      transfer := [];
      var v := ArrayVar(dest);
      if v.Some? {
        transfer := transfer + [Mod(v.value)];
      }
    case NoEffect => transfer := [];
  }

  method BuildBlock(blockNo: nat, instrs: seq<Instr>) returns (transfers: seq<seq<Transfer>>)
    ensures transfers == BlockTransfers(blockNo, instrs)
  {
    transfers := [];
    for k := 0 to |instrs|
      invariant transfers == BlockTransfers(blockNo, instrs[..k])
    {
      assert instrs[..k + 1][..k] == instrs[..k];
      var transfer := BuildInstr(blockNo, k, instrs[k]);
      transfers := transfers + [transfer];
    }
    assert instrs[..|instrs|] == instrs;
  }

  /** The reaching definitions of a program: the transfers of all instructions, and then the worklist. */
  method Analyse(prog: seq<Code>) returns (cfg: ControlFlowGraph)
    requires Closed(prog)
    ensures fresh(cfg) && cfg.blocks == Graph(prog)
    ensures Found(prog, cfg.defs) && |cfg.loops| == |prog|
    ensures forall e, v | 0 <= e < |prog| ::
      v in cfg.loops[e] <==> v in cfg.defs[e] && exists d | d in cfg.defs[e][v] :: d.blockNo >= e
  {
    var blocks: seq<Block> := [];
    for b := 0 to |prog|
      invariant |blocks| == b && forall k | 0 <= k < b :: blocks[k] == BlockOf(k, prog[k])
    {
      var transfers := BuildBlock(b, prog[b].instrs);
      blocks := blocks + [Block(transfers, prog[b].successors)];
    }
    assert blocks == Graph(prog);
    GraphWellFormed(prog);
    cfg := new ControlFlowGraph(blocks);
    cfg.Find();
    ExactFound(prog, cfg.defs);
  }

  // ---------------------------------------------------------------------------
  // A limit of the analysis, and when it does not matter

  /** A path along the branches from block 0, live or not. */
  ghost predicate Route(prog: seq<Code>, p: seq<nat>) {
    && |p| > 0 && p[0] == 0
    && (|p| > 1 ==> Route(prog, p[..|p| - 1]) && p[|p| - 2] < |prog| && p[|p| - 1] in prog[p[|p| - 2]].successors)
  }

  /** The instruction copies into variable v, which may lose its definitions that way. */
  predicate CopiesInto(instr: Instr, v: nat) {
    instr.SetFromVariable? && instr.res == v
  }

  /** Variable v is assigned in block 0, and nothing in the program copies into it. */
  ghost predicate DefinedFirst(prog: seq<Code>, v: nat) {
    && |prog| > 0
    && (exists k | 0 <= k < |prog[0].instrs| :: v in Results(prog[0].instrs[k]))
    && forall b, k | 0 <= b < |prog| && 0 <= k < |prog[b].instrs| :: !CopiesInto(prog[b].instrs[k], v)
  }

  ghost predicate NoCopyInto(h: seq<Spot>, v: nat) {
    forall j | 0 <= j < |h| :: !CopiesInto(h[j].instr, v)
  }

  lemma {:induction false} StaysDefined(h: seq<Spot>, k: nat, v: nat)
    requires k < |h| && v in Results(h[k].instr) && NoCopyInto(h, v)
    ensures Last(h, v).Source?
  {
    if k < |h| - 1 && v !in Results(h[|h| - 1].instr) {
      assert !CopiesInto(h[|h| - 1].instr, v);
      StaysDefined(h[..|h| - 1], k, v);
    }
  }

  lemma {:induction false} BlockSpots(blockNo: nat, instrs: seq<Instr>)
    ensures |BlockHistory(blockNo, instrs)| == |instrs|
    ensures forall k | 0 <= k < |instrs| :: BlockHistory(blockNo, instrs)[k] == Spot(blockNo, k, instrs[k])
  {
    if instrs != [] {
      BlockSpots(blockNo, instrs[..|instrs| - 1]);
    }
  }

  lemma {:induction false} RouteDefines(prog: seq<Code>, p: seq<nat>, v: nat, k: nat)
    requires Route(prog, p) && |p| > 1 && DefinedFirst(prog, v)
    requires k < |prog[0].instrs| && v in Results(prog[0].instrs[k])
    ensures var h := PathHistory(prog, p);
      k < |h| && v in Results(h[k].instr) && NoCopyInto(h, v)
    decreases |p|
  {
    var b, q := p[|p| - 2], p[..|p| - 1];
    BlockSpots(b, prog[b].instrs);
    BlockCopies(prog, b, v);
    if |p| > 2 {
      RouteDefines(prog, q, v, k);
      CopiesConcat(PathHistory(prog, q), BlockHistory(b, prog[b].instrs), v);
    } else {
      assert PathHistory(prog, p) == BlockHistory(b, prog[b].instrs);
    }
  }

  lemma BlockCopies(prog: seq<Code>, b: nat, v: nat)
    requires DefinedFirst(prog, v) && b < |prog|
    ensures NoCopyInto(BlockHistory(b, prog[b].instrs), v)
  {
    BlockSpots(b, prog[b].instrs);
  }

  lemma CopiesConcat(a: seq<Spot>, b: seq<Spot>, v: nat)
    requires NoCopyInto(a, v) && NoCopyInto(b, v)
    ensures NoCopyInto(a + b, v)
  {
  }

  lemma {:induction false} RoutesLive(prog: seq<Code>, p: seq<nat>, v: nat)
    requires Route(prog, p) && DefinedFirst(prog, v)
    ensures LiveRoute(prog, p)
    decreases |p|
  {
    if |p| > 1 {
      RoutesLive(prog, p[..|p| - 1], v);
      var k :| 0 <= k < |prog[0].instrs| && v in Results(prog[0].instrs[k]);
      RouteDefines(prog, p, v, k);
      StaysDefined(PathHistory(prog, p), k, v);
    }
  }

  /** If block 0 assigns a variable that is never copied into, what is found is what all routes say, live or not. */
  lemma NothingHidden(prog: seq<Code>, defs: seq<VarDefs>, v: nat, b: nat, f: Fact)
    requires Found(prog, defs) && DefinedFirst(prog, v) && b < |prog|
    ensures Holds(defs[b], f) <==> exists p :: RouteSays(prog, b, f, p)
  {
    if p :| RouteSays(prog, b, f, p) {
      RoutesLive(prog, p, v);
      assert Evidence(prog, b, f, p);
    }
    if p :| Evidence(prog, b, f, p) {
      LiveIsRoute(prog, p);
      assert RouteSays(prog, b, f, p);
    }
  }

  /** The same as evidence, along any route. */
  ghost predicate RouteSays(prog: seq<Code>, b: nat, f: Fact, p: seq<nat>) {
    Route(prog, p) && p[|p| - 1] == b && Says(PathHistory(prog, p), f)
  }

  lemma {:induction false} LiveIsRoute(prog: seq<Code>, p: seq<nat>)
    requires LiveRoute(prog, p)
    ensures Route(prog, p)
    decreases |p|
  {
    if |p| > 1 {
      LiveIsRoute(prog, p[..|p| - 1]);
    }
  }

  /** Block 0 defines nothing; block 1 defines variable 7; block 2 follows.  All end in a branch or return. */
  const EMPTY_EXIT := [Code([NoEffect], [1]), Code([Assign([7]), NoEffect], [2]), Code([NoEffect], [])]

  lemma {:induction false} EmptyExitStops(p: seq<nat>)
    ensures LiveRoute(EMPTY_EXIT, p) ==> p == [0]
    decreases |p|
  {
    if |p| > 1 {
      EmptyExitStops(p[..|p| - 1]);
      if p[..|p| - 1] == [0] {
        assert [NoEffect][..0] == [];
        assert PathHistory(EMPTY_EXIT, p) == [Spot(0, 0, NoEffect)];
        assert [Spot(0, 0, NoEffect)][..0] == [];
      }
    }
  }

  /**
   A block that leaves nothing defined hides what comes after it: the assignment in block 1 is the last one of
   variable 7 along 0, 1, 2, but the analysis does not find it at block 2.
   */
  lemma EmptyExitHidesDefinitions(defs: seq<VarDefs>)
    requires Found(EMPTY_EXIT, defs)
    ensures Route(EMPTY_EXIT, [0, 1, 2])
    ensures Says(PathHistory(EMPTY_EXIT, [0, 1, 2]), Fact(7, Def(1, 0, 0), false))
    ensures !Holds(defs[2], Fact(7, Def(1, 0, 0), false))
  {
    var f, h := Fact(7, Def(1, 0, 0), false), PathHistory(EMPTY_EXIT, [0, 1, 2]);
    EmptyExitHistory();
    assert [0, 1, 2][..2] == [0, 1] && [0, 1][..1] == [0];
    assert Route(EMPTY_EXIT, [0, 1]);
    assert h[..2] == [Spot(0, 0, NoEffect), Spot(1, 0, Assign([7]))];
    assert Last(h, 7) == Last(h[..2], 7) == Source(1, 7);
    assert [7][0] == 7;
    if Holds(defs[2], f) {
      var p :| Evidence(EMPTY_EXIT, 2, f, p);
      EmptyExitStops(p);
    }
  }

  lemma EmptyExitHistory()
    ensures PathHistory(EMPTY_EXIT, [0, 1, 2]) ==
      [Spot(0, 0, NoEffect), Spot(1, 0, Assign([7])), Spot(1, 1, NoEffect)]
  {
    var instrs: seq<Instr> := [Assign([7]), NoEffect];
    assert [NoEffect][..0] == [] && instrs[..1] == [Assign([7])] && instrs[..1][..0] == [];
    assert [0, 1, 2][..2] == [0, 1] && [0, 1][..1] == [0];
    assert BlockHistory(1, instrs[..1]) == [Spot(1, 0, Assign([7]))];
    assert BlockHistory(1, instrs) == [Spot(1, 0, Assign([7])), Spot(1, 1, NoEffect)];
    assert BlockHistory(0, [NoEffect]) == [Spot(0, 0, NoEffect)];
    assert PathHistory(EMPTY_EXIT, [0, 1]) == [Spot(0, 0, NoEffect)];
  }
}
