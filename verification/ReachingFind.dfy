/**
 The worklist algorithm for reaching definitions, for any order in which blocks are taken.
 */
module ReachingFind {
  import opened ReachingDefinitions

  // ---------------------------------------------------------------------------
  // Merging the state that flows along an edge

  function JoinEntry(a: map<Def, bool>, b: map<Def, bool>): (r: map<Def, bool>) {
    map d | d in a.Keys + b.Keys :: (d in a && a[d]) || (d in b && b[d])
  }

  function Join(a: VarDefs, b: VarDefs): (r: VarDefs) {
    map v | v in a.Keys + b.Keys :: if v !in b then a[v] else if v !in a then b[v] else JoinEntry(a[v], b[v])
  }

  lemma JoinHolds(a: VarDefs, b: VarDefs, f: Fact)
    ensures Holds(Join(a, b), f) <==> Holds(a, f) || Holds(b, f)
  {
  }

  lemma JoinProper(a: VarDefs, b: VarDefs)
    requires Proper(a) && Proper(b)
    ensures Proper(Join(a, b))
  {
    forall v | v in Join(a, b)
      ensures Join(a, b)[v] != map[]
    {
      if v in a {
        var d :| d in a[v];
        assert d in Join(a, b)[v];
      }
    }
  }

  /** The entry so far: merged with all incoming definitions but those in todo. */
  ghost predicate EntrySoFar(entry: map<Def, bool>, incoming: map<Def, bool>, todo: set<Def>, r: map<Def, bool>) {
    && todo <= incoming.Keys && r.Keys == entry.Keys + (incoming.Keys - todo)
    && forall d | d in r :: r[d] == ((d in entry && entry[d]) || (d in incoming && d !in todo && incoming[d]))
  }

  lemma EntryStep(entry: map<Def, bool>, incoming: map<Def, bool>, todo: set<Def>, r: map<Def, bool>, d: Def)
    requires EntrySoFar(entry, incoming, todo, r) && d in todo
    ensures EntrySoFar(entry, incoming, todo - {d}, r[d := (d in r && r[d]) || incoming[d]])
    ensures d in r <==> d in entry
    ensures d in entry ==> r[d] == entry[d]
  {
  }

  lemma EntryDone(entry: map<Def, bool>, incoming: map<Def, bool>, r: map<Def, bool>)
    requires EntrySoFar(entry, incoming, {}, r)
    ensures r == JoinEntry(entry, incoming)
  {
  }

  /** Merges incoming definitions into an entry, in whatever order they come. */
  method MergeEntry(entry: map<Def, bool>, incoming: map<Def, bool>) returns (r: map<Def, bool>, changed: bool)
    ensures r == JoinEntry(entry, incoming)
    ensures changed <==> r != entry
  {
    r, changed := entry, false;
    var todo := incoming.Keys;
    while todo != {}
      invariant EntrySoFar(entry, incoming, todo, r)
      invariant changed <==> r != entry
      decreases todo
    {
      var d :| d in todo;
      EntryStep(entry, incoming, todo, r, d);
      var c;
      r, c := MergeDef(r, d, incoming[d]);
      changed := changed || c;
      todo := todo - {d};
    }
    EntryDone(entry, incoming, r);
  }

  /** One incoming definition: new, or already there and perhaps modified now. */
  method MergeDef(entry: map<Def, bool>, d: Def, modified: bool) returns (r: map<Def, bool>, changed: bool)
    ensures r == entry[d := (d in entry && entry[d]) || modified]
    ensures changed <==> !(d in entry && r[d] == entry[d])
    ensures changed <==> r != entry
  {
    r, changed := entry, false;
    if d in entry {
      if !entry[d] && modified {
        r, changed := entry[d := true], true;
      }
    } else {
      r, changed := entry[d := modified], true;
    }
    assert r != entry <==> !(d in entry && r[d] == entry[d]);
  }

  /** Records the variable as reaching through a loop if one of its definitions is from this block or a later one. */
  method NoteLoop(loops: set<nat>, v: nat, entry: map<Def, bool>, edge: nat) returns (r: set<nat>, changed: bool)
    ensures r == if exists d | d in entry :: d.blockNo >= edge then loops + {v} else loops
    ensures changed <==> r != loops
  {
    r, changed := loops, false;
    var todo := entry.Keys;
    while todo != {}
      invariant todo <= entry.Keys
      invariant r == if exists d | d in entry && d !in todo :: d.blockNo >= edge then loops + {v} else loops
      invariant changed <==> r != loops
      decreases todo
    {
      var d :| d in todo;
      todo := todo - {d};
      if d.blockNo >= edge {
        changed := changed || v !in r;
        r := r + {v};
      }
    }
  }

  /** The state so far: merged with the incoming variables but those in todo. */
  ghost predicate StateSoFar(current: VarDefs, vars: VarDefs, todo: set<nat>, r: VarDefs) {
    && todo <= vars.Keys && r.Keys == current.Keys + (vars.Keys - todo)
    && forall v | v in r :: r[v] == if v in todo then current[v] else Join(current, vars)[v]
  }

  lemma StateStep(current: VarDefs, vars: VarDefs, todo: set<nat>, r: VarDefs, v: nat)
    requires StateSoFar(current, vars, todo, r) && v in todo
    ensures v in r <==> v in current
    ensures v in r ==> r[v] == current[v]
    ensures StateSoFar(current, vars, todo - {v}, r[v := if v in r then JoinEntry(r[v], vars[v]) else vars[v]])
  {
  }

  lemma StateDone(current: VarDefs, vars: VarDefs, r: VarDefs)
    requires StateSoFar(current, vars, {}, r)
    ensures r == Join(current, vars)
  {
  }

  /** What flows along one edge is merged into the state of its target. */
  method MergeEdge(current: VarDefs, loops: set<nat>, edge: nat, vars: VarDefs)
    returns (merged: VarDefs, loops': set<nat>, changed: bool)
    ensures merged == Join(current, vars)
    ensures forall v :: v in loops' <==> v in loops || LoopVar(vars, edge, v)
    ensures changed <==> merged != current || loops' != loops
  {
    merged, loops', changed := current, loops, false;
    var todo := vars.Keys;
    while todo != {}
      invariant StateSoFar(current, vars, todo, merged)
      invariant forall v :: v in loops' <==> v in loops || (v !in todo && LoopVar(vars, edge, v))
      invariant changed <==> merged != current || loops' != loops
      decreases todo
    {
      var v :| v in todo;
      StateStep(current, vars, todo, merged, v);
      var c;
      merged, c := MergeVar(merged, v, vars[v]);
      assert c ==> !(v in current && merged[v] == current[v]);
      var l, noted := NoteLoop(loops', v, vars[v], edge);
      assert loops <= loops' <= l;
      loops' := l;
      changed := changed || c || noted;
      todo := todo - {v};
    }
    StateDone(current, vars, merged);
  }

  /** One variable of the incoming state. */
  method MergeVar(s: VarDefs, v: nat, incoming: map<Def, bool>) returns (r: VarDefs, changed: bool)
    ensures r == s[v := if v in s then JoinEntry(s[v], incoming) else incoming]
    ensures changed <==> r != s
    ensures changed ==> !(v in s && r[v] == s[v])
  {
    if v in s {
      var entry;
      entry, changed := MergeEntry(s[v], incoming);
      r := s[v := entry];
    } else {
      r, changed := s[v := incoming], true;
    }
    assert r != s <==> !(v in s && r[v] == s[v]);
  }

  // ---------------------------------------------------------------------------
  // The facts there can be at all

  ghost function AllVars(g: seq<Block>): set<nat> {
    set b, k, i | 0 <= b < |g| && 0 <= k < |g[b].transfers| && 0 <= i < |g[b].transfers[k]| ::
      g[b].transfers[k][i].varNo
  }

  ghost function AllDefs(g: seq<Block>): set<Def> {
    set b, k, i |
      && 0 <= b < |g| && 0 <= k < |g[b].transfers| && 0 <= i < |g[b].transfers[k]|
      && g[b].transfers[k][i].Gen? ::
      g[b].transfers[k][i].def
  }

  ghost predicate Bounded(s: VarDefs, vs: set<nat>, ds: set<Def>) {
    forall f | Holds(s, f) :: f.v in vs && f.d in ds
  }

  lemma {:induction false} OriginBounded(ts: seq<Transfer>, f: Fact, vs: set<nat>, ds: set<Def>)
    requires Paired(ts)
    requires forall i | 0 <= i < |ts| :: ts[i].varNo in vs && (ts[i].Gen? ==> ts[i].def in ds)
    ensures OriginOf(ts, f).Always? ==> f.v in vs && f.d in ds
    ensures OriginOf(ts, f).From? ==> OriginOf(ts, f).f.d == f.d && (f.v in vs || OriginOf(ts, f).f.v == f.v)
  {
    if ts != [] {
      var n := |ts| - 1;
      var t := ts[n];
      if t.Copy? {
        OriginBounded(ts[..n - 1], f, vs, ds);
        OriginBounded(ts[..n - 1], f.(v := t.src), vs, ds);
      } else {
        var o := Origin1(t, f);
        if o.From? {
          OriginBounded(ts[..n], o.f, vs, ds);
        }
      }
    }
  }

  lemma {:induction false} ExitBounded(tss: seq<seq<Transfer>>, s: VarDefs, vs: set<nat>, ds: set<Def>)
    requires forall k | 0 <= k < |tss| :: Paired(tss[k])
    requires forall k, i | 0 <= k < |tss| && 0 <= i < |tss[k]| ::
      tss[k][i].varNo in vs && (tss[k][i].Gen? ==> tss[k][i].def in ds)
    requires Bounded(s, vs, ds)
    ensures Bounded(Exit(tss, s), vs, ds)
  {
    if tss != [] {
      var n := |tss| - 1;
      ExitBounded(tss[..n], s, vs, ds);
      forall f | Holds(Exit(tss, s), f)
        ensures f.v in vs && f.d in ds
      {
        OriginExact(tss[n], Exit(tss[..n], s), f);
        OriginBounded(tss[n], f, vs, ds);
      }
    }
  }

  /** Facts that could still be added somewhere: what the worklist runs out of. */
  ghost function Missing(g: seq<Block>, defs: seq<VarDefs>): set<(nat, Fact)>
    requires |defs| == |g|
  {
    set b, v, d, m |
      && 0 <= b < |g| && v in AllVars(g) && d in AllDefs(g) && m in {false, true}
      && !Holds(defs[b], Fact(v, d, m)) ::
      (b, Fact(v, d, m))
  }

  lemma MissingShrinks(g: seq<Block>, defs: seq<VarDefs>, e: nat, s: VarDefs)
    requires |defs| == |g| && e < |g|
    requires Proper(defs[e]) && Proper(s) && Included(defs[e], s) && s != defs[e]
    requires Bounded(s, AllVars(g), AllDefs(g))
    ensures Missing(g, defs[e := s]) < Missing(g, defs)
  {
    var defs' := defs[e := s];
    if Included(s, defs[e]) {
      SameFacts(s, defs[e]);
    }
    var f :| Holds(s, f) && !Holds(defs[e], f);
    assert f == Fact(f.v, f.d, f.m) && f.m in {false, true};
    assert (e, f) in Missing(g, defs) && (e, f) !in Missing(g, defs');
    forall x | x in Missing(g, defs')
      ensures x in Missing(g, defs)
    {
      assert !Holds(defs[x.0], x.1);
    }
  }

  // ---------------------------------------------------------------------------
  // The invariant of the worklist

  /** The state of e covers what leaves b, and if anything leaves b then e has been seen. */
  ghost predicate Flows(vars: VarDefs, defs: seq<VarDefs>, seen: set<nat>, e: nat) {
    e < |defs| && Included(vars, defs[e]) && (vars != map[] ==> e in seen)
  }

  /** What leaves b flows into all its successors. */
  ghost predicate Settled(g: seq<Block>, defs: seq<VarDefs>, seen: set<nat>, b: nat)
    requires b < |g| == |defs|
  {
    forall e | e in g[b].successors :: Flows(Exit(g[b].transfers, defs[b]), defs, seen, e)
  }

  /** All facts are along live paths, and all seen blocks are at the end of one. */
  ghost predicate Justified(g: seq<Block>, defs: seq<VarDefs>, seen: set<nat>)
    requires |defs| == |g|
  {
    && (forall b, f | 0 <= b < |g| && Holds(defs[b], f) :: exists p :: Witness(g, b, f, p))
    && (forall b | b in seen :: b < |g| && exists p :: LiveTo(g, b, p))
  }

  ghost predicate Sane(g: seq<Block>, defs: seq<VarDefs>, loops: seq<set<nat>>, seen: set<nat>, todo: set<nat>) {
    && |defs| == |g| && LoopsExact(defs, loops)
    && 0 in seen && todo <= seen
    && Justified(g, defs, seen)
    && (forall b | 0 <= b < |g| :: Proper(defs[b]) && Bounded(defs[b], AllVars(g), AllDefs(g)))
    && (forall b | 0 <= b < |g| && defs[b] != map[] :: b in seen)
  }

  /** What leaves b is witnessed by live paths to its successors. */
  ghost predicate Outgoing(g: seq<Block>, b: nat, vars: VarDefs)
    requires b < |g|
  {
    forall e, f | e in g[b].successors && Holds(vars, f) :: exists p :: Witness(g, e, f, p)
  }

  lemma OutgoingHolds(g: seq<Block>, defs: seq<VarDefs>, seen: set<nat>, b: nat)
    requires WellFormed(g) && |defs| == |g| && Justified(g, defs, seen) && b in seen && b < |g|
    ensures Outgoing(g, b, Exit(g[b].transfers, defs[b]))
  {
    var tss := g[b].transfers;
    forall e, f | e in g[b].successors && Holds(Exit(tss, defs[b]), f)
      ensures exists p :: Witness(g, e, f, p)
    {
      BlockOriginExact(tss, defs[b], f);
      var o := BlockOrigin(tss, f);
      var p;
      if o.From? {
        p :| Witness(g, b, o.f, p);
      } else {
        p :| LiveTo(g, b, p);
      }
      BlockOriginExact(tss, PathState(g, p), f);
      ExtendPath(g, p, e);
      assert Witness(g, e, f, p + [e]);
    }
  }

  lemma NonemptyFact(s: VarDefs) returns (f: Fact)
    requires Proper(s) && s != map[]
    ensures Holds(s, f)
  {
    var v :| v in s;
    var d :| d in s[v];
    f := Fact(v, d, false);
  }

  /** When nothing is left to do, the states cover every live path. */
  lemma {:induction false} Covers(g: seq<Block>, defs: seq<VarDefs>, seen: set<nat>, p: seq<nat>)
    requires WellFormed(g) && |defs| == |g| && 0 in seen
    requires forall b | b in seen :: b < |g| && Settled(g, defs, seen, b)
    requires LivePath(g, p)
    ensures p[|p| - 1] in seen && Included(PathState(g, p), defs[p[|p| - 1]])
    decreases |p|
  {
    if |p| > 1 {
      var q := p[..|p| - 1];
      var b, e := q[|q| - 1], p[|p| - 1];
      Covers(g, defs, seen, q);
      assert Settled(g, defs, seen, b);
      assert Flows(Exit(g[b].transfers, defs[b]), defs, seen, e);
      ExitMonotone(g[b].transfers, PathState(g, q), defs[b]);
      ExitProperPath(g, p);
      var f := NonemptyFact(PathState(g, p));
      assert Holds(Exit(g[b].transfers, defs[b]), f);
    }
  }

  lemma {:induction false} ExitProperPath(g: seq<Block>, p: seq<nat>)
    ensures Proper(PathState(g, p))
  {
    if !(|p| <= 1 || p[|p| - 2] >= |g|) {
      ExitProperPath(g, p[..|p| - 1]);
      ExitProper(g[p[|p| - 2]].transfers, PathState(g, p[..|p| - 1]));
    }
  }

  lemma FinishedIsExact(g: seq<Block>, defs: seq<VarDefs>, loops: seq<set<nat>>, seen: set<nat>)
    requires WellFormed(g) && Sane(g, defs, loops, seen, {})
    requires forall b | b in seen :: Settled(g, defs, seen, b)
    ensures Exact(g, defs) && LoopsExact(defs, loops)
  {
    forall b, f, p | 0 <= b < |g| && Witness(g, b, f, p)
      ensures Holds(defs[b], f)
    {
      Covers(g, defs, seen, p);
    }
  }

  lemma JoinSelf(s: VarDefs)
    ensures Join(s, s) == s
  {
    assert forall v | v in s :: JoinEntry(s[v], s[v]) == s[v];
  }

  lemma JoinEmpty(s: VarDefs)
    ensures Join(s, map[]) == s
  {
  }

  /** defs' is defs with more facts, and only blocks in todo have more. */
  ghost predicate Grown(defs: seq<VarDefs>, defs': seq<VarDefs>, todo: set<nat>) {
    && |defs'| == |defs|
    && (forall c | 0 <= c < |defs| :: Included(defs[c], defs'[c]))
    && (forall c | 0 <= c < |defs| && defs'[c] != defs[c] :: c in todo)
  }

  lemma FlowsGrow(vars: VarDefs, defs: seq<VarDefs>, seen: set<nat>, defs': seq<VarDefs>, seen': set<nat>,
                  todo: set<nat>, e: nat)
    requires Flows(vars, defs, seen, e) && Grown(defs, defs', todo) && seen <= seen'
    ensures Flows(vars, defs', seen', e)
  {
  }

  lemma SettledGrow(g: seq<Block>, defs: seq<VarDefs>, seen: set<nat>, defs': seq<VarDefs>, seen': set<nat>,
                    todo: set<nat>, c: nat)
    requires c < |g| == |defs| && Settled(g, defs, seen, c)
    requires Grown(defs, defs', todo) && seen <= seen' && c !in todo
    ensures Settled(g, defs', seen', c)
  {
    forall e | e in g[c].successors
      ensures Flows(Exit(g[c].transfers, defs'[c]), defs', seen', e)
    {
      FlowsGrow(Exit(g[c].transfers, defs[c]), defs, seen, defs', seen', todo, e);
    }
  }

  lemma EdgeIdle(g: seq<Block>, defs: seq<VarDefs>, loops: seq<set<nat>>, seen: set<nat>, todo: set<nat>,
                 vars: VarDefs, e: nat)
    requires Sane(g, defs, loops, seen, todo) && e < |g| && Proper(vars)
    requires Join(defs[e], vars) == defs[e]
    ensures Flows(vars, defs, seen, e)
  {
    forall f | Holds(vars, f)
      ensures Holds(defs[e], f)
    {
      JoinHolds(defs[e], vars, f);
    }
    if vars != map[] {
      var f := NonemptyFact(vars);
    }
  }

  lemma EdgeLoops(cur: VarDefs, vars: VarDefs, e: nat, v: nat)
    ensures LoopVar(Join(cur, vars), e, v) <==> LoopVar(cur, e, v) || LoopVar(vars, e, v)
  {
    if LoopVar(cur, e, v) {
      var d :| d in cur[v] && d.blockNo >= e;
      assert d in Join(cur, vars)[v];
    } else if LoopVar(vars, e, v) {
      var d :| d in vars[v] && d.blockNo >= e;
      assert d in Join(cur, vars)[v];
    }
  }

  /** Merging along an edge with something new keeps the invariant, with the target back on the worklist. */
  lemma EdgeMerged(g: seq<Block>, defs: seq<VarDefs>, loops: seq<set<nat>>, seen: set<nat>, todo: set<nat>,
                   b: nat, vars: VarDefs, e: nat, l: set<nat>)
    requires WellFormed(g) && Sane(g, defs, loops, seen, todo) && b < |g| && e in g[b].successors && e < |g|
    requires Proper(vars) && Bounded(vars, AllVars(g), AllDefs(g)) && Outgoing(g, b, vars)
    requires forall v :: v in l <==> v in loops[e] || LoopVar(vars, e, v)
    requires Join(defs[e], vars) != defs[e]
    ensures var defs' := defs[e := Join(defs[e], vars)];
      && Sane(g, defs', loops[e := l], seen + {e}, todo + {e})
      && Grown(defs, defs', {e}) && Missing(g, defs') < Missing(g, defs) && Flows(vars, defs', seen + {e}, e)
  {
    var s := Join(defs[e], vars);
    forall f
      ensures Holds(s, f) <==> Holds(defs[e], f) || Holds(vars, f)
    {
      JoinHolds(defs[e], vars, f);
    }
    JoinProper(defs[e], vars);
    MissingShrinks(g, defs, e, s);
    LoopsMerged(defs, loops, e, vars, l);
    EdgeJustified(g, defs, seen, b, vars, e);
  }

  lemma LoopsMerged(defs: seq<VarDefs>, loops: seq<set<nat>>, e: nat, vars: VarDefs, l: set<nat>)
    requires LoopsExact(defs, loops) && e < |defs| && forall v :: v in l <==> v in loops[e] || LoopVar(vars, e, v)
    ensures LoopsExact(defs[e := Join(defs[e], vars)], loops[e := l])
  {
    forall v
      ensures v in l <==> LoopVar(Join(defs[e], vars), e, v)
    {
      EdgeLoops(defs[e], vars, e, v);
    }
  }

  lemma EdgeJustified(g: seq<Block>, defs: seq<VarDefs>, seen: set<nat>, b: nat, vars: VarDefs, e: nat)
    requires |defs| == |g| && Justified(g, defs, seen) && b < |g| && e in g[b].successors && e < |g|
    requires Proper(vars) && Outgoing(g, b, vars) && Proper(defs[e]) && Join(defs[e], vars) != defs[e]
    ensures Justified(g, defs[e := Join(defs[e], vars)], seen + {e})
  {
    var defs' := defs[e := Join(defs[e], vars)];
    forall c, f | 0 <= c < |g| && Holds(defs'[c], f)
      ensures exists p :: Witness(g, c, f, p)
    {
      if c == e {
        JoinHolds(defs[e], vars, f);
      }
    }
    JoinEmpty(defs[e]);
    var f := NonemptyFact(vars);
    var p :| Witness(g, e, f, p);
    assert LiveTo(g, e, p);
  }

  // ---------------------------------------------------------------------------
  // The algorithm

  /** Applies the transfers of all instructions of a block. */
  method ExitState(tss: seq<seq<Transfer>>, entry: VarDefs) returns (vars: VarDefs)
    ensures vars == Exit(tss, entry)
  {
    vars := entry;
    for k := 0 to |tss|
      invariant vars == Exit(tss[..k], entry)
    {
      assert tss[..k + 1][..k] == tss[..k];
      vars := ApplyTransfers(tss[k], vars);
    }
    assert tss[..|tss|] == tss;
  }

  /** In the middle of block b: its first k edges are done, and all other blocks not to be visited are settled. */
  ghost predicate Walked(g: seq<Block>, defs: seq<VarDefs>, seen: set<nat>, todo: set<nat>, b: nat, entry: VarDefs,
                         vars: VarDefs, k: nat) {
    && |defs| == |g| && b < |g| && b in seen && k <= |g[b].successors|
    && (forall c | c in seen && c !in todo && c != b :: c < |g| && Settled(g, defs, seen, c))
    && (b !in todo ==> defs[b] == entry)
    && (forall i | 0 <= i < k :: Flows(vars, defs, seen, g[b].successors[i]))
  }

  lemma WalkedMore(g: seq<Block>, defs: seq<VarDefs>, defs': seq<VarDefs>, seen: set<nat>, seen': set<nat>,
                   todo: set<nat>, todo': set<nat>, b: nat, entry: VarDefs, vars: VarDefs, k: nat)
    requires Walked(g, defs, seen, todo, b, entry, vars, k) && k < |g[b].successors|
    requires Grown(defs, defs', todo') && todo <= todo' && seen <= seen' && seen' - seen <= todo'
    requires Flows(vars, defs', seen', g[b].successors[k])
    ensures Walked(g, defs', seen', todo', b, entry, vars, k + 1)
  {
    forall c | c in seen' && c !in todo' && c != b
      ensures c < |g| && Settled(g, defs', seen', c)
    {
      SettledGrow(g, defs, seen, defs', seen', todo', c);
    }
    forall i | 0 <= i < k
      ensures Flows(vars, defs', seen', g[b].successors[i])
    {
      FlowsGrow(vars, defs, seen, defs', seen', todo', g[b].successors[i]);
    }
  }

  lemma WalkedAll(g: seq<Block>, defs: seq<VarDefs>, seen: set<nat>, todo: set<nat>, b: nat, entry: VarDefs,
                  vars: VarDefs)
    requires b < |g| && Walked(g, defs, seen, todo, b, entry, vars, |g[b].successors|)
    requires vars == Exit(g[b].transfers, entry)
    ensures forall c | c in seen && c !in todo :: Settled(g, defs, seen, c)
  {
  }

  class ControlFlowGraph {
    const blocks: seq<Block>
    var defs: seq<VarDefs>
    var loops: seq<set<nat>>

    constructor (blocks: seq<Block>)
      ensures this.blocks == blocks && |defs| == |loops| == |blocks|
      ensures forall b | 0 <= b < |blocks| :: defs[b] == map[] && loops[b] == {}
    {
      this.blocks := blocks;
      defs := seq(|blocks|, _ => map[]);
      loops := seq(|blocks|, _ => {});
    }

    /** Merges what leaves block b into one successor, and puts it back on the worklist if that added anything. */
    method ProcessEdge(ghost b: nat, vars: VarDefs, edge: nat, todo: set<nat>, ghost seen: set<nat>)
      returns (todo': set<nat>, ghost seen': set<nat>)
      requires WellFormed(blocks) && Sane(blocks, defs, loops, seen, todo)
      requires b < |blocks| && edge in blocks[b].successors && edge < |blocks|
      requires Proper(vars) && Bounded(vars, AllVars(blocks), AllDefs(blocks)) && Outgoing(blocks, b, vars)
      modifies this
      ensures Sane(blocks, defs, loops, seen', todo') && Flows(vars, defs, seen', edge)
      ensures Grown(old(defs), defs, todo') && todo <= todo' && seen <= seen' && seen' - seen <= todo'
      ensures
        || (defs == old(defs) && todo' == todo && seen' == seen)
        || Missing(blocks, defs) < Missing(blocks, old(defs))
    {
      todo', seen' := todo, seen;
      if defs[edge] != vars {
        var merged, l, changed := MergeEdge(defs[edge], loops[edge], edge, vars);
        if merged != defs[edge] {
          EdgeMerged(blocks, defs, loops, seen, todo, b, vars, edge, l);
        } else {
          EdgeIdle(blocks, defs, loops, seen, todo, vars, edge);
          assert l == loops[edge] by {
            forall v
              ensures v in l <==> v in loops[edge]
            {
              EdgeLoops(defs[edge], vars, edge, v);
            }
          }
        }
        defs, loops := defs[edge := merged], loops[edge := l];
        if changed {
          todo', seen' := todo + {edge}, seen + {edge};
        }
      } else {
        JoinSelf(vars);
        EdgeIdle(blocks, defs, loops, seen, todo, vars, edge);
      }
    }

    /** Takes block b off the worklist and passes what leaves it on to its successors. */
    method ProcessBlock(b: nat, todo0: set<nat>, ghost seen0: set<nat>) returns (todo: set<nat>, ghost seen: set<nat>)
      requires WellFormed(blocks) && Sane(blocks, defs, loops, seen0, todo0)
      requires b in seen0 && b !in todo0
      requires forall c | c in seen0 && c !in todo0 && c != b :: Settled(blocks, defs, seen0, c)
      modifies this
      ensures Sane(blocks, defs, loops, seen, todo)
      ensures forall c | c in seen && c !in todo :: Settled(blocks, defs, seen, c)
      ensures (defs == old(defs) && todo == todo0) || Missing(blocks, defs) < Missing(blocks, old(defs))
    {
      ghost var entry := defs[b];
      var vars := ExitState(blocks[b].transfers, defs[b]);
      OutgoingHolds(blocks, defs, seen0, b);
      ExitProper(blocks[b].transfers, entry);
      ExitBounded(blocks[b].transfers, entry, AllVars(blocks), AllDefs(blocks));
      todo, seen := todo0, seen0;
      var edges := blocks[b].successors;
      for k := 0 to |edges|
        invariant Sane(blocks, defs, loops, seen, todo) && Walked(blocks, defs, seen, todo, b, entry, vars, k)
        invariant (defs == old(defs) && todo == todo0) || Missing(blocks, defs) < Missing(blocks, old(defs))
      {
        ghost var defs1, seen1, todo1 := defs, seen, todo;
        todo, seen := ProcessEdge(b, vars, edges[k], todo, seen);
        WalkedMore(blocks, defs1, defs, seen1, seen, todo1, todo, b, entry, vars, k);
      }
      WalkedAll(blocks, defs, seen, todo, b, entry, vars);
    }

    /** Computes the reaching definitions of every block, taking blocks off the worklist in any order. */
    method Find()
      requires WellFormed(blocks) && |defs| == |loops| == |blocks|
      requires forall b | 0 <= b < |blocks| :: defs[b] == map[] && loops[b] == {}
      modifies this
      ensures Exact(blocks, defs) && LoopsExact(defs, loops)
    {
      var todo := {0};
      ghost var seen: set<nat> := {0};
      assert LiveTo(blocks, 0, [0]);
      while todo != {}
        invariant Sane(blocks, defs, loops, seen, todo)
        invariant forall c | c in seen && c !in todo :: Settled(blocks, defs, seen, c)
        decreases Missing(blocks, defs), todo
      {
        var b :| b in todo;
        todo, seen := ProcessBlock(b, todo - {b}, seen);
      }
      FinishedIsExact(blocks, defs, loops, seen);
    }
  }
}
