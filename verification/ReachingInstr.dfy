/**
 The transfers of single instructions, what they mean, and two limits of the analysis.
 */
module ReachingInstr {
  import opened Options
  import opened ReachingDefinitions

  /** The destination of a store, as far as the analysis looks into it. */
  datatype Dest = Variable(varNo: nat) | Subscript(dest: Dest) | StructMember(dest: Dest) | Elsewhere

  /** Instructions by the transfers they cause. */
  datatype Instr =
    | SetFromVariable(res: nat, src: nat)  // Set with a plain variable on the right
    // Set, Call, LoadStorage, PopStorage, ExternalCall, Constructor and ValueTransfer
    | Assign(results: seq<nat>)
    | PushMemory(array_: nat, res: nat)
    | PopMemory(array_: nat)
    | Store(dest: Dest)                    // Store, SetStorage, SetStorageBytes, ClearStorage
    | NoEffect

  function ArrayVar(dest: Dest): (r: Option<nat>) {
    match dest
    case Variable(v) => Some(v)
    case Subscript(d) => ArrayVar(d)
    case StructMember(d) => ArrayVar(d)
    case Elsewhere => None
  }

  function Kills(vars: seq<nat>): (r: seq<Transfer>) {
    if vars == [] then [] else [Kill(vars[|vars| - 1])] + Kills(vars[..|vars| - 1])
  }

  function Gens(blockNo: nat, instrNo: nat, vars: seq<nat>): (r: seq<Transfer>) {
    if vars == [] then [] else
      Gens(blockNo, instrNo, vars[..|vars| - 1]) + [Gen(Def(blockNo, instrNo, |vars| - 1), vars[|vars| - 1])]
  }

  /** The list set_var builds: each result adds a kill in front and a definition behind. */
  method BuildSetVar(blockNo: nat, instrNo: nat, vars: seq<nat>) returns (transfer: seq<Transfer>)
    ensures transfer == Kills(vars) + Gens(blockNo, instrNo, vars)
  {
    transfer := [];
    for k := 0 to |vars|
      invariant transfer == Kills(vars[..k]) + Gens(blockNo, instrNo, vars[..k])
    {
      assert vars[..k + 1][..k] == vars[..k];
      transfer := [Kill(vars[k])] + transfer;
      transfer := transfer + [Gen(Def(blockNo, instrNo, k), vars[k])];
    }
    assert vars[..|vars|] == vars;
  }

  function InstrTransfers(blockNo: nat, instrNo: nat, instr: Instr): (r: seq<Transfer>) {
    match instr
    case SetFromVariable(res, src) => [Kill(res), Copy(res, src)]
    case Assign(results) => Kills(results) + Gens(blockNo, instrNo, results)
    case PushMemory(a, res) => Kills([res]) + Gens(blockNo, instrNo, [res]) + [Mod(a)]
    case PopMemory(a) => [Mod(a)]
    case Store(dest) => (match ArrayVar(dest) case Some(v) => [Mod(v)] case None => [])
    case NoEffect => []
  }

  lemma {:induction false} NoCopies(blockNo: nat, instrNo: nat, vars: seq<nat>)
    ensures forall k | 0 <= k < |Kills(vars)| :: !Kills(vars)[k].Copy?
    ensures forall k | 0 <= k < |Gens(blockNo, instrNo, vars)| :: !Gens(blockNo, instrNo, vars)[k].Copy?
  {
    if vars != [] {
      NoCopies(blockNo, instrNo, vars[..|vars| - 1]);
    }
  }

  /** Every instruction copies into a variable only right after killing it. */
  lemma InstrPaired(blockNo: nat, instrNo: nat, instr: Instr)
    ensures Paired(InstrTransfers(blockNo, instrNo, instr))
  {
    match instr
    case Assign(results) => NoCopies(blockNo, instrNo, results);
    case PushMemory(a, res) => NoCopies(blockNo, instrNo, [res]);
    case _ =>
  }

  lemma {:induction false} ApplyConcat(a: seq<Transfer>, b: seq<Transfer>, s: VarDefs)
    ensures ApplyAll(a + b, s) == ApplyAll(b, ApplyAll(a, s))
  {
    if b == [] {
      assert a + b == a;
    } else {
      assert (a + b)[..|a + b| - 1] == a + b[..|b| - 1];
      ApplyConcat(a, b[..|b| - 1], s);
    }
  }

  lemma {:induction false} KillsMeaning(vars: seq<nat>, s: VarDefs, f: Fact)
    ensures Holds(ApplyAll(Kills(vars), s), f) <==> f.v !in vars && Holds(s, f)
    decreases |vars|
  {
    if vars != [] {
      var n := |vars| - 1;
      var s1 := Apply(Kill(vars[n]), s);
      assert [Kill(vars[n])][..0] == [];
      assert ApplyAll([Kill(vars[n])], s) == s1;
      ApplyConcat([Kill(vars[n])], Kills(vars[..n]), s);
      KillsMeaning(vars[..n], s1, f);
    }
  }

  /** The definition is the one the instruction gives that variable. */
  predicate MadeBy(blockNo: nat, instrNo: nat, results: seq<nat>, v: nat, d: Def) {
    d.blockNo == blockNo && d.instrNo == instrNo && d.assignmentNo < |results| && results[d.assignmentNo] == v
  }

  lemma {:induction false} GensMeaning(blockNo: nat, instrNo: nat, vars: seq<nat>, s: VarDefs, f: Fact)
    requires forall v | v in vars :: v !in s
    ensures Holds(ApplyAll(Gens(blockNo, instrNo, vars), s), f) <==>
      if f.v in vars then !f.m && MadeBy(blockNo, instrNo, vars, f.v, f.d)
      else Holds(s, f)
    decreases |vars|
  {
    if vars != [] {
      var n := |vars| - 1;
      var t := Gen(Def(blockNo, instrNo, n), vars[n]);
      var gs := Gens(blockNo, instrNo, vars[..n]);
      assert Gens(blockNo, instrNo, vars)[..|gs|] == gs;
      GensMeaning(blockNo, instrNo, vars[..n], s, f);
      Origin1Exact(t, ApplyAll(gs, s), f);
      MadeByMore(blockNo, instrNo, vars, f.v, f.d);
    }
  }

  lemma MadeByMore(blockNo: nat, instrNo: nat, vars: seq<nat>, v: nat, d: Def)
    requires vars != []
    ensures var n := |vars| - 1;
      && (MadeBy(blockNo, instrNo, vars, v, d) <==>
            MadeBy(blockNo, instrNo, vars[..n], v, d) || (d == Def(blockNo, instrNo, n) && vars[n] == v))
      && (v in vars <==> v in vars[..n] || v == vars[n])
  {
  }

  /**
   After an assignment, the definitions of the assigned variables that reach are exactly those the
   instruction makes, unmodified; other variables keep theirs.
   */
  lemma AssignMeaning(blockNo: nat, instrNo: nat, results: seq<nat>, s: VarDefs, f: Fact)
    ensures Holds(ApplyAll(InstrTransfers(blockNo, instrNo, Assign(results)), s), f) <==>
      if f.v in results then !f.m && MadeBy(blockNo, instrNo, results, f.v, f.d)
      else Holds(s, f)
  {
    var s1 := ApplyAll(Kills(results), s);
    ApplyConcat(Kills(results), Gens(blockNo, instrNo, results), s);
    KillsGone(results, s);
    GensMeaning(blockNo, instrNo, results, s1, f);
    KillsMeaning(results, s, f);
  }

  lemma {:induction false} KillsGone(vars: seq<nat>, s: VarDefs)
    ensures forall v | v in vars :: v !in ApplyAll(Kills(vars), s)
    ensures ApplyAll(Kills(vars), s).Keys <= s.Keys
    decreases |vars|
  {
    if vars != [] {
      var n := |vars| - 1;
      var s1 := Apply(Kill(vars[n]), s);
      assert [Kill(vars[n])][..0] == [];
      assert ApplyAll([Kill(vars[n])], s) == s1;
      ApplyConcat([Kill(vars[n])], Kills(vars[..n]), s);
      KillsGone(vars[..n], s1);
      forall v | v in vars
        ensures v !in ApplyAll(Kills(vars), s)
      {
        var k :| 0 <= k < |vars| && vars[k] == v;
        assert k < n ==> vars[..n][k] == v;
      }
    }
  }

  /** The variables an instruction assigns itself, in the order of their definitions. */
  function Results(instr: Instr): (r: seq<nat>) {
    match instr
    case Assign(results) => results
    case PushMemory(_, res) => [res]
    case _ => []
  }

  /** One level of a destination: an element of an array, or a member of a struct. */
  datatype Level = Element | Member

  /** The destination inside d, with the outermost level last. */
  ghost function Nested(d: Dest, levels: seq<Level>): Dest {
    if levels == [] then d else
      var inner := Nested(d, levels[..|levels| - 1]);
      match levels[|levels| - 1]
      case Element => Subscript(inner)
      case Member => StructMember(inner)
  }

  /** The destination is variable v or a place anywhere inside it. */
  ghost predicate Inside(dest: Dest, v: nat) {
    exists levels :: dest == Nested(Variable(v), levels)
  }

  /** A store into a variable, however deep, is put down to that variable, and a store elsewhere to none. */
  lemma {:induction false} ArrayVarNested(d: Dest, levels: seq<Level>)
    requires d.Variable? || d.Elsewhere?
    ensures ArrayVar(Nested(d, levels)) == if d.Variable? then Some(d.varNo) else None
  {
    if levels != [] {
      ArrayVarNested(d, levels[..|levels| - 1]);
    }
  }

  /** Every destination is a nest of levels around a variable, or around something else. */
  lemma {:induction false} DestNested(dest: Dest) returns (d: Dest, levels: seq<Level>)
    ensures (d.Variable? || d.Elsewhere?) && dest == Nested(d, levels)
  {
    match dest
    case Subscript(inner) =>
      d, levels := DestNested(inner);
      assert (levels + [Element])[..|levels|] == levels;
      levels := levels + [Element];
    case StructMember(inner) =>
      d, levels := DestNested(inner);
      assert (levels + [Member])[..|levels|] == levels;
      levels := levels + [Member];
    case _ => d, levels := dest, [];
  }

  /** The variable found for a destination is the one it lies in. */
  lemma ArrayVarInside(dest: Dest, v: nat)
    ensures ArrayVar(dest) == Some(v) <==> Inside(dest, v)
  {
    var d, levels := DestNested(dest);
    ArrayVarNested(d, levels);
    if Inside(dest, v) {
      var ls :| dest == Nested(Variable(v), ls);
      ArrayVarNested(Variable(v), ls);
    }
  }

  /** The instruction modifies variable v in place. */
  ghost predicate Changes(instr: Instr, v: nat) {
    match instr
    case PushMemory(a, _) => a == v
    case PopMemory(a) => a == v
    case Store(dest) => Inside(dest, v)
    case _ => false
  }

  /** What the fact was before the instruction, if that did not assign its variable; a copy onto itself loses it. */
  ghost predicate HeldBefore(instr: Instr, s: VarDefs, f: Fact) {
    if instr.SetFromVariable? && instr.res == f.v then instr.src != f.v && Holds(s, f.(v := instr.src))
    else Holds(s, f.(m := f.m && !Changes(instr, f.v)))
  }

  /**
   What every instruction does to facts: a variable it assigns has the definitions made here, modified if the
   instruction also changes that variable; a copied variable has what its source had; and what it changes in
   place may be modified from now on.
   */
  lemma InstrMeaning(blockNo: nat, instrNo: nat, instr: Instr, s: VarDefs, f: Fact)
    ensures Holds(ApplyAll(InstrTransfers(blockNo, instrNo, instr), s), f) <==>
      if f.v in Results(instr)
      then MadeBy(blockNo, instrNo, Results(instr), f.v, f.d) && (f.m ==> Changes(instr, f.v))
      else HeldBefore(instr, s, f)
  {
    match instr
    case SetFromVariable(res, src) => CopyMeaning(res, src, s, f);
    case Assign(results) => AssignMeaning(blockNo, instrNo, results, s, f);
    case PushMemory(a, res) => PushMeaning(blockNo, instrNo, a, res, s, f);
    case PopMemory(a) => ModAlone([Mod(a)], a, s, f);
    case Store(dest) =>
      ArrayVarInside(dest, f.v);
      if ArrayVar(dest).Some? {
        ModAlone([Mod(ArrayVar(dest).value)], ArrayVar(dest).value, s, f);
      } else {
        assert InstrTransfers(blockNo, instrNo, instr) == [];
      }
    case NoEffect => assert InstrTransfers(blockNo, instrNo, instr) == [];
  }

  lemma ModAlone(ts: seq<Transfer>, a: nat, s: VarDefs, f: Fact)
    requires ts == [Mod(a)]
    ensures Holds(ApplyAll(ts, s), f) <==> Holds(s, f.(m := f.m && a != f.v))
  {
    assert ts == [] + [Mod(a)];
    ModMeaning([], a, s, f);
  }

  lemma PushMeaning(blockNo: nat, instrNo: nat, a: nat, res: nat, s: VarDefs, f: Fact)
    ensures Holds(ApplyAll(InstrTransfers(blockNo, instrNo, PushMemory(a, res)), s), f) <==>
      if f.v == res then MadeBy(blockNo, instrNo, [res], f.v, f.d) && (f.m ==> a == f.v)
      else Holds(s, f.(m := f.m && a != f.v))
  {
    var ts := InstrTransfers(blockNo, instrNo, Assign([res]));
    assert InstrTransfers(blockNo, instrNo, PushMemory(a, res)) == ts + [Mod(a)];
    ModMeaning(ts, a, s, f);
    AssignMeaning(blockNo, instrNo, [res], s, f.(m := f.m && a != f.v));
  }

  lemma CopyMeaning(res: nat, src: nat, s: VarDefs, f: Fact)
    ensures Holds(ApplyAll([Kill(res), Copy(res, src)], s), f) <==>
      if f.v == res then src != res && Holds(s, f.(v := src)) else Holds(s, f)
  {
    var ts := [Kill(res), Copy(res, src)];
    assert ts[..1] == [Kill(res)] && ts[..1][..0] == [];
    assert ApplyAll(ts[..1], s) == Apply(Kill(res), s);
    CopyExact(res, src, s, f);
  }

  lemma ModMeaning(ts: seq<Transfer>, a: nat, s: VarDefs, f: Fact)
    ensures Holds(ApplyAll(ts + [Mod(a)], s), f) <==> Holds(ApplyAll(ts, s), f.(m := f.m && a != f.v))
  {
    assert (ts + [Mod(a)])[..|ts|] == ts;
    Origin1Exact(Mod(a), ApplyAll(ts, s), f);
  }

  /** A copy that is not preceded by the kill would not be monotone: more facts before it can mean fewer after it. */
  lemma LoneCopyNotMonotone()
    ensures exists s: VarDefs, s': VarDefs ::
      Included(s, s') && !Included(ApplyAll([Copy(1, 2)], s), ApplyAll([Copy(1, 2)], s'))
  {
    var a, b := Def(0, 0, 0), Def(0, 1, 0);
    var s: VarDefs, s': VarDefs := map[1 := map[a := false]], map[1 := map[a := false], 2 := map[b := false]];
    var ts := [Copy(1, 2)];
    assert ts[..0] == [];
    assert ApplyAll(ts, s) == s;
    assert ApplyAll(ts, s') == Apply(ts[0], s') == s'[1 := s'[2]];
    assert Holds(ApplyAll(ts, s), Fact(1, a, false)) && !Holds(ApplyAll(ts, s'), Fact(1, a, false));
    assert Included(s, s');
  }
}
