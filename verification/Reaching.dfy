/**
 Reaching definitions: which assignments of each variable may reach the entry of each basic
 block, and whether the variable was modified in place since.
 */
module ReachingDefinitions {

  datatype Def = Def(blockNo: nat, instrNo: nat, assignmentNo: nat)

  datatype Transfer =
    | Gen(def: Def, varNo: nat)
    | Mod(varNo: nat)
    | Copy(varNo: nat, src: nat)
    | Kill(varNo: nat)

  /** For each variable, the definitions that reach, each with its modified flag. */
  type VarDefs = map<nat, map<Def, bool>>

  datatype Block = Block(transfers: seq<seq<Transfer>>, successors: seq<nat>)

  // ---------------------------------------------------------------------------
  // Transfer functions

  function Apply(t: Transfer, s: VarDefs): (r: VarDefs) {
    match t
    case Kill(v) => s - {v}
    case Mod(v) => if v in s then s[v := map d | d in s[v] :: true] else s
    case Copy(v, src) => if src in s then s[v := s[src]] else s
    case Gen(d, v) => s[v := (if v in s then s[v] else map[])[d := false]]
  }

  function ApplyAll(ts: seq<Transfer>, s: VarDefs): (r: VarDefs) {
    if ts == [] then s else Apply(ts[|ts| - 1], ApplyAll(ts[..|ts| - 1], s))
  }

  /** The state at the exit of a block, from the state at its entry. */
  function Exit(tss: seq<seq<Transfer>>, s: VarDefs): (r: VarDefs) {
    if tss == [] then s else ApplyAll(tss[|tss| - 1], Exit(tss[..|tss| - 1], s))
  }

  /** The transfers of one instruction, applied one after the other to the map. */
  method ApplyTransfers(transfers: seq<Transfer>, s: VarDefs) returns (vars: VarDefs)
    ensures vars == ApplyAll(transfers, s)
  {
    vars := s;
    for k := 0 to |transfers|
      invariant vars == ApplyAll(transfers[..k], s)
    {
      assert transfers[..k + 1][..k] == transfers[..k];
      match transfers[k]
      case Kill(v) =>
        vars := vars - {v};
      case Mod(v) =>
        if v in vars {
          var entry := MarkModified(vars[v]);
          vars := vars[v := entry];
        }
      case Copy(v, src) =>
        if src in vars {
          vars := vars[v := vars[src]];
        }
      case Gen(d, v) =>
        if v in vars {
          vars := vars[v := vars[v][d := false]];
        } else {
          vars := vars[v := map[d := false]];
        }
    }
    assert transfers[..|transfers|] == transfers;
  }

  /** Sets every flag of an entry, in whatever order the map is walked. */
  method MarkModified(entry: map<Def, bool>) returns (r: map<Def, bool>)
    ensures r == map d | d in entry :: true
  {
    r := entry;
    var todo := entry.Keys;
    while todo != {}
      invariant todo <= entry.Keys == r.Keys
      invariant forall d | d in entry && d !in todo :: r[d]
      decreases todo
    {
      var d :| d in todo;
      r := r[d := true];
      todo := todo - {d};
    }
  }

  // ---------------------------------------------------------------------------
  // Facts

  /** Definition d of variable v reaches; with m, it reaches and v may have been modified since. */
  datatype Fact = Fact(v: nat, d: Def, m: bool)

  predicate Holds(s: VarDefs, f: Fact) {
    f.v in s && f.d in s[f.v] && (f.m ==> s[f.v][f.d])
  }

  /** Everything s says, s' says too. */
  ghost predicate Included(s: VarDefs, s': VarDefs) {
    forall f | Holds(s, f) :: Holds(s', f)
  }

  /** No variable is listed without a definition. */
  ghost predicate Proper(s: VarDefs) {
    forall v | v in s :: s[v] != map[]
  }

  lemma SameFacts(s: VarDefs, s': VarDefs)
    requires Proper(s) && Proper(s')
    requires Included(s, s') && Included(s', s)
    ensures s == s'
  {
    SameKeys(s, s');
    SameKeys(s', s);
    forall v | v in s
      ensures s[v] == s'[v]
    {
      forall d | d in s[v]
        ensures d in s'[v] && s'[v][d] == s[v][d]
      {
        assert Holds(s, Fact(v, d, s[v][d]));
        assert Holds(s', Fact(v, d, s[v][d]));
        assert Holds(s', Fact(v, d, s'[v][d])) ==> Holds(s, Fact(v, d, s'[v][d]));
      }
      forall d | d in s'[v]
        ensures d in s[v]
      {
        assert Holds(s', Fact(v, d, false));
        assert Holds(s, Fact(v, d, false));
      }
    }
  }

  lemma SameKeys(s: VarDefs, s': VarDefs)
    requires Proper(s) && Included(s, s')
    ensures forall v | v in s :: v in s'
  {
    forall v | v in s
      ensures v in s'
    {
      var d :| d in s[v];
      assert Holds(s, Fact(v, d, false));
    }
  }

  // ---------------------------------------------------------------------------
  // Where a fact comes from

  /** Why a fact holds after some transfers: it never does, it always does, or it comes from one fact before them. */
  datatype Origin = Never | Always | From(f: Fact)

  predicate Meets(o: Origin, s: VarDefs) {
    match o
    case Never => false
    case Always => true
    case From(f) => Holds(s, f)
  }

  /** A copy into a variable comes right after that variable was killed, as every instruction that copies does. */
  ghost predicate Paired(ts: seq<Transfer>) {
    forall k | 0 <= k < |ts| && ts[k].Copy? :: k > 0 && ts[k - 1] == Kill(ts[k].varNo)
  }

  /** The origin of a fact through a single transfer other than a copy. */
  function Origin1(t: Transfer, f: Fact): (o: Origin)
    requires !t.Copy?
  {
    match t
    case Kill(v) => if f.v == v then Never else From(f)
    case Mod(v) => if f.v == v then From(f.(m := false)) else From(f)
    case Gen(d, v) => if f.v == v && f.d == d then (if f.m then Never else Always) else From(f)
  }

  /** The origin of a fact through a list of transfers, followed back from the end. */
  function OriginOf(ts: seq<Transfer>, f: Fact): (o: Origin)
    requires Paired(ts)
  {
    if ts == [] then From(f) else
      var n := |ts| - 1;
      var t := ts[n];
      if t.Copy? then
        if f.v != t.varNo then OriginOf(ts[..n - 1], f)
        else if t.src == t.varNo then Never
        else OriginOf(ts[..n - 1], f.(v := t.src))
      else
        match Origin1(t, f)
        case Never => Never
        case Always => Always
        case From(g) => OriginOf(ts[..n], g)
  }

  lemma Origin1Exact(t: Transfer, s: VarDefs, f: Fact)
    requires !t.Copy?
    ensures Holds(Apply(t, s), f) <==> Meets(Origin1(t, f), s)
  {
  }

  lemma CopyExact(v: nat, src: nat, s: VarDefs, f: Fact)
    ensures Holds(Apply(Copy(v, src), Apply(Kill(v), s)), f) <==>
            if f.v != v then Holds(s, f) else src != v && Holds(s, f.(v := src))
  {
  }

  /** Each fact after the transfers is explained by exactly one thing before them. */
  lemma {:induction false} OriginExact(ts: seq<Transfer>, s: VarDefs, f: Fact)
    requires Paired(ts)
    ensures Holds(ApplyAll(ts, s), f) <==> Meets(OriginOf(ts, f), s)
  {
    if ts != [] {
      var n := |ts| - 1;
      var t := ts[n];
      if t.Copy? {
        var rest := ts[..n - 1];
        assert ts[..n][..n - 1] == rest && ts[n - 1] == Kill(t.varNo);
        assert ApplyAll(ts[..n], s) == Apply(Kill(t.varNo), ApplyAll(rest, s));
        CopyExact(t.varNo, t.src, ApplyAll(rest, s), f);
        OriginExact(rest, s, f);
        OriginExact(rest, s, f.(v := t.src));
      } else {
        Origin1Exact(t, ApplyAll(ts[..n], s), f);
        var o := Origin1(t, f);
        if o.From? {
          OriginExact(ts[..n], s, o.f);
        }
      }
    }
  }

  /** The origin of a fact at the exit of a block. */
  function BlockOrigin(tss: seq<seq<Transfer>>, f: Fact): (o: Origin)
    requires forall k | 0 <= k < |tss| :: Paired(tss[k])
  {
    if tss == [] then From(f) else
      match OriginOf(tss[|tss| - 1], f)
      case Never => Never
      case Always => Always
      case From(g) => BlockOrigin(tss[..|tss| - 1], g)
  }

  lemma {:induction false} BlockOriginExact(tss: seq<seq<Transfer>>, s: VarDefs, f: Fact)
    requires forall k | 0 <= k < |tss| :: Paired(tss[k])
    ensures Holds(Exit(tss, s), f) <==> Meets(BlockOrigin(tss, f), s)
  {
    if tss != [] {
      var n := |tss| - 1;
      OriginExact(tss[n], Exit(tss[..n], s), f);
      var o := OriginOf(tss[n], f);
      if o.From? {
        BlockOriginExact(tss[..n], s, o.f);
      }
    }
  }

  lemma ExitMonotone(tss: seq<seq<Transfer>>, s: VarDefs, s': VarDefs)
    requires forall k | 0 <= k < |tss| :: Paired(tss[k])
    requires Included(s, s')
    ensures Included(Exit(tss, s), Exit(tss, s'))
  {
    forall f | Holds(Exit(tss, s), f)
      ensures Holds(Exit(tss, s'), f)
    {
      BlockOriginExact(tss, s, f);
      BlockOriginExact(tss, s', f);
    }
  }

  lemma {:induction false} ApplyAllProper(ts: seq<Transfer>, s: VarDefs)
    requires Proper(s)
    ensures Proper(ApplyAll(ts, s))
  {
    if ts != [] {
      ApplyAllProper(ts[..|ts| - 1], s);
      ApplyProper(ts[|ts| - 1], ApplyAll(ts[..|ts| - 1], s));
    }
  }

  lemma ApplyProper(t: Transfer, s: VarDefs)
    requires Proper(s)
    ensures Proper(Apply(t, s))
  {
    if t.Mod? && t.varNo in s {
      var d :| d in s[t.varNo];
      assert d in Apply(t, s)[t.varNo];
    } else if t.Gen? {
      assert t.def in Apply(t, s)[t.varNo];
    }
  }

  lemma {:induction false} ExitProper(tss: seq<seq<Transfer>>, s: VarDefs)
    requires Proper(s)
    ensures Proper(Exit(tss, s))
  {
    if tss != [] {
      ExitProper(tss[..|tss| - 1], s);
      ApplyAllProper(tss[|tss| - 1], Exit(tss[..|tss| - 1], s));
    }
  }

  // ---------------------------------------------------------------------------
  // Paths

  /** Branch targets exist, and transfer lists have the shape the instructions give them. */
  ghost predicate WellFormed(g: seq<Block>) {
    && |g| > 0
    && (forall b, k | 0 <= b < |g| && 0 <= k < |g[b].successors| :: g[b].successors[k] < |g|)
    && (forall b, k | 0 <= b < |g| && 0 <= k < |g[b].transfers| :: Paired(g[b].transfers[k]))
  }

  /** The state at the entry of the last block of a path, from the empty state at the entry of its first. */
  ghost function PathState(g: seq<Block>, p: seq<nat>): VarDefs {
    if |p| <= 1 || p[|p| - 2] >= |g| then map[]
    else Exit(g[p[|p| - 2]].transfers, PathState(g, p[..|p| - 1]))
  }

  /** A path from block 0 along the edges that leaves some variable defined at the exit of each block it leaves. */
  ghost predicate LivePath(g: seq<Block>, p: seq<nat>) {
    && |p| > 0 && p[0] == 0
    && (|p| > 1 ==>
          && LivePath(g, p[..|p| - 1])
          && p[|p| - 2] < |g| && p[|p| - 1] in g[p[|p| - 2]].successors
          && PathState(g, p) != map[])
  }

  /** A live path to b along which f holds at the entry of b. */
  ghost predicate Witness(g: seq<Block>, b: nat, f: Fact, p: seq<nat>) {
    LivePath(g, p) && p[|p| - 1] == b && Holds(PathState(g, p), f)
  }

  ghost predicate LiveTo(g: seq<Block>, b: nat, p: seq<nat>) {
    LivePath(g, p) && p[|p| - 1] == b
  }

  lemma ExtendPath(g: seq<Block>, p: seq<nat>, e: nat)
    requires |p| > 0 && LivePath(g, p) && p[|p| - 1] < |g| && e in g[p[|p| - 1]].successors
    requires Exit(g[p[|p| - 1]].transfers, PathState(g, p)) != map[]
    ensures LiveTo(g, e, p + [e])
    ensures PathState(g, p + [e]) == Exit(g[p[|p| - 1]].transfers, PathState(g, p))
  {
    var q := p + [e];
    assert q[..|q| - 1] == p && q[|q| - 2] == p[|p| - 1] && q[0] == p[0];
  }

  // ---------------------------------------------------------------------------
  // The result, stated without the algorithm

  /** The facts at each block are exactly those that hold along some live path to it. */
  ghost predicate Exact(g: seq<Block>, defs: seq<VarDefs>) {
    && |defs| == |g|
    && (forall b | 0 <= b < |g| :: Proper(defs[b]))
    && (forall b, f | 0 <= b < |g| :: Holds(defs[b], f) <==> exists p :: Witness(g, b, f, p))
  }

  /** loops[e] holds the variables with a reaching definition from block e or a later one. */
  ghost predicate LoopsExact(defs: seq<VarDefs>, loops: seq<set<nat>>) {
    && |loops| == |defs|
    && (forall e, v | 0 <= e < |defs| :: v in loops[e] <==> LoopVar(defs[e], e, v))
  }

  ghost predicate LoopVar(s: VarDefs, e: nat, v: nat) {
    v in s && exists d | d in s[v] :: d.blockNo >= e
  }

  /** There is only one exact result, whatever order the blocks were taken in. */
  lemma ExactUnique(g: seq<Block>, defs: seq<VarDefs>, loops: seq<set<nat>>, defs': seq<VarDefs>, loops': seq<set<nat>>)
    requires Exact(g, defs) && Exact(g, defs')
    requires LoopsExact(defs, loops) && LoopsExact(defs', loops')
    ensures defs == defs' && loops == loops'
  {
    forall b | 0 <= b < |g|
      ensures defs[b] == defs'[b]
    {
      assert Included(defs[b], defs'[b]) by {
        forall f | Holds(defs[b], f)
          ensures Holds(defs'[b], f)
        {
          var p :| Witness(g, b, f, p);
        }
      }
      assert Included(defs'[b], defs[b]) by {
        forall f | Holds(defs'[b], f)
          ensures Holds(defs[b], f)
        {
          var p :| Witness(g, b, f, p);
        }
      }
      SameFacts(defs[b], defs'[b]);
    }
    assert defs == defs';
    forall e | 0 <= e < |loops|
      ensures loops[e] == loops'[e]
    {
      assert forall v :: v in loops[e] <==> LoopVar(defs[e], e, v);
    }
  }

  /** Soundness: folding the transfers along a live path gives nothing that the result does not have. */
  lemma PathIncluded(g: seq<Block>, defs: seq<VarDefs>, p: seq<nat>)
    requires Exact(g, defs) && LivePath(g, p) && p[|p| - 1] < |g|
    ensures Included(PathState(g, p), defs[p[|p| - 1]])
  {
    var b := p[|p| - 1];
    forall f | Holds(PathState(g, p), f)
      ensures Holds(defs[b], f)
    {
      assert Witness(g, b, f, p);
    }
  }
}
