/**
 Recovering, for each predecessor, the argument a phi takes
 (miasm/analysis/ssa.py, get_phi_sources_parent_block), and what it means for whole runs.
 */
module SsaSources {
  import opened Paths
  import opened Dominators
  import opened Ir
  import opened SsaForm
  import opened SsaMeaning

  // ----- every predecessor has a source -----

  /** An argument assigned by a block, when a version of the same variable leaves it, is that version. */
  lemma AssignedIsLeaving(g: Conversion, n: Loc, v: Var, p: Loc, k: nat, y: Loc, x: Ident)
    requires IsSsa(g) && n in g.final && v in Phis(g.t.phi, n) && Edge(g.c.flow, p, n) && HasTraces(g.c, g.irdst, g.t)
    requires y in g.final && Leaves(g, y, v, k) && x in Sources(g.c, g.t, n, v) && Assigns(g.final[y], x)
    ensures x == Ssa(v, k)
  {
    hide IsSsa, Sources;
    var k0, q, k' := SourceVersions(g, n, v, p, x);
    AssignedAndLeaving(g, y, q, v, k');
  }

  /** Going backwards from a block a version leaves, some path reaches the block that assigns it. */
  lemma {:induction false} SourceExists(g: Conversion, n: Loc, v: Var, p: Loc, y: Loc, k: nat, q: seq<Loc>)
      returns (w: seq<Loc>)
    requires IsSsa(g) && n in g.final && v in Phis(g.t.phi, n) && Edge(g.c.flow, p, n) && HasTraces(g.c, g.irdst, g.t)
    requires y in g.final && Leaves(g, y, v, k) && Ssa(v, k) in Sources(g.c, g.t, n, v)
    requires Between(g.c.flow, q, g.c.head, y)
    ensures BackwardTo(g.c.flow, g.final, Sources(g.c, g.t, n, v), y, Ssa(v, k), w)
    decreases |q|
  {
    hide IsSsa, Leaves, Sources, Assigns;
    var args := Sources(g.c, g.t, n, v);
    if x :| x in args && Assigns(g.final[y], x) {
      AssignedIsLeaving(g, n, v, p, k, y, x);
      w := [y];
    } else {
      BackwardStep(g, y, y, v, k);
      assert |q| > 1;
      var z := q[|q| - 2];
      assert Edge(g.c.flow, z, y);
      BackwardStep(g, y, z, v, k);
      PrefixPath(g.c.flow, q, |q| - 2);
      var w0 := SourceExists(g, n, v, p, z, k, q[..|q| - 1]);
      w := w0 + [y];
      ExtendPath(g.c.flow, w0, w0[0], z, y);
    }
  }

  /** The version leaving predecessor p is the source found from p, and the only one. */
  lemma SourceOfPredecessor(g: Conversion, n: Loc, v: Var, p: Loc, s: Ident)
    requires IsSsa(g) && n in g.final && v in Phis(g.t.phi, n) && Edge(g.c.flow, p, n) && HasTraces(g.c, g.irdst, g.t)
    ensures p in g.t.trace && |g.t.trace[p]| > 0
    ensures PhiSource(g.c.flow, g.final, Sources(g.c, g.t, n, v), p, s) <==> s == Current(Exit(g.t, p), v)
  {
    hide Sources, SingleAssignment, PhiClosed, FinalBlocks, ImmediateDominators;
    var k := PredecessorVersion(g, n, v, p);
    var q :| Between(g.c.flow, q, g.c.head, p);
    var w := SourceExists(g, n, v, p, p, k, q);
    assert PhiSource(g.c.flow, g.final, Sources(g.c, g.t, n, v), p, Ssa(v, k));
    if PhiSource(g.c.flow, g.final, Sources(g.c, g.t, n, v), p, s) {
      PhiSourceIsExit(g, n, v, p, s);
    }
  }

  lemma PredecessorVersion(g: Conversion, n: Loc, v: Var, p: Loc) returns (k: nat)
    requires IsSsa(g) && n in g.final && v in Phis(g.t.phi, n) && Edge(g.c.flow, p, n) && HasTraces(g.c, g.irdst, g.t)
    ensures p in g.final && Reach(g.c.flow, g.c.head, p) && Leaves(g, p, v, k) && Ssa(v, k) in Sources(g.c, g.t, n, v)
  {
    hide SingleAssignment, PhiClosed, ImmediateDominators, SsaBlock;
    assert p in Prev(g.c.flow, n) && p in g.c.blocks;
    k := Exit(g.t, p)[v];
    assert Current(Exit(g.t, p), v) in Sources(g.c, g.t, n, v);
  }

  // ----- the search -----

  /** No assignment block of b assigns two of the variables. */
  ghost predicate OneAtATime(b: Block, variables: set<Ident>) {
    forall i, x, y :: 0 <= i < |b| && x in variables && y in variables && Id(x) in b[i] && Id(y) in b[i] ==> x == y
  }

  datatype Found = NotFound | Found(id: Ident)

  method GetVarAssignmentSrc(b: Block, variables: set<Ident>) returns (r: Found)
    requires OneAtATime(b, variables)
    ensures r.Found? ==> r.id in variables && Assigns(b, r.id)
    ensures r.NotFound? ==> forall x :: x in variables ==> !Assigns(b, x)
  {
    for i := 0 to |b|
      invariant forall j, x :: 0 <= j < i && x in variables ==> Id(x) !in b[j]
    {
      var result := set x | x in variables && Id(x) in b[i];
      assert forall x :: x in variables && Id(x) in b[i] ==> x in result;
      if result == {} {
        continue;
      }
      var id :| id in result;
      // a single variable of the set is assigned
      assert result == {id};
      return Found(id);
    }
    return NotFound;
  }

  lemma {:induction false} SourcesOneAtATime(g: Conversion, n: Loc, v: Var, p: Loc, y: Loc)
    requires IsSsa(g) && n in g.final && v in Phis(g.t.phi, n) && Edge(g.c.flow, p, n) && HasTraces(g.c, g.irdst, g.t)
    requires y in g.final
    ensures OneAtATime(g.final[y], Sources(g.c, g.t, n, v))
  {
    hide IsSsa, Sources;
    var b, args := g.final[y], Sources(g.c, g.t, n, v);
    forall i, x, x' | 0 <= i < |b| && x in args && x' in args && Id(x) in b[i] && Id(x') in b[i]
      ensures x == x'
    {
      var k0, q, k := SourceVersions(g, n, v, p, x);
      var k1, q', k' := SourceVersions(g, n, v, p, x');
      WriteIsGiven(g, y, i, v, k);
      WriteIsGiven(g, y, i, v, k');
    }
  }

  /** What the backward search keeps. */
  ghost predicate SearchState(
    f: Flow<Loc>, blocks: map<Loc, Block>, args: set<Ident>, p: Loc, done: set<Loc>, todo: set<Loc>)
  {
    && (p in done || p in todo)
    && (forall y :: y in done || y in todo ==> BackwardClear(f, blocks, args, p, y))
    && (forall y :: y in done ==> y in blocks && ClearOf(blocks[y], args))
    && (forall y, z :: y in done && z in Prev(f, y) ==> z in done || z in todo)
  }

  ghost predicate ClearOf(b: Block, args: set<Ident>) {
    forall x :: x in args ==> !Assigns(b, x)
  }

  /** Some path leads from y to p and, past y, assigns no argument. */
  ghost predicate BackwardClear(f: Flow<Loc>, blocks: map<Loc, Block>, args: set<Ident>, p: Loc, y: Loc) {
    exists w :: ClearPath(f, blocks, args, p, y, w)
  }

  ghost predicate ClearPath(f: Flow<Loc>, blocks: map<Loc, Block>, args: set<Ident>, p: Loc, y: Loc, w: seq<Loc>) {
    && Between(f, w, y, p)
    && (forall i :: 0 <= i < |w| ==> w[i] in blocks)
    && (forall i :: 0 < i < |w| ==> ClearOf(blocks[w[i]], args))
  }

  lemma ClearExtends(f: Flow<Loc>, blocks: map<Loc, Block>, args: set<Ident>, p: Loc, y: Loc, z: Loc)
    requires BackwardClear(f, blocks, args, p, y) && y in blocks && ClearOf(blocks[y], args)
    requires Edge(f, z, y) && z in blocks
    ensures BackwardClear(f, blocks, args, p, z)
  {
    var w :| ClearPath(f, blocks, args, p, y, w);
    var w' := [z] + w;
    forall i | 0 <= i < |w'| - 1
      ensures Edge(f, w'[i], w'[i + 1])
    {
      if i > 0 { assert Edge(f, w[i - 1], w[i]); }
    }
    assert ClearPath(f, blocks, args, p, z, w');
  }

  lemma SearchStep(
    f: Flow<Loc>, blocks: map<Loc, Block>, args: set<Ident>, p: Loc, done: set<Loc>, todo: set<Loc>, y: Loc)
    requires Coherent(f) && (forall a, b :: Edge(f, a, b) ==> a in blocks)
    requires SearchState(f, blocks, args, p, done, todo) && y in todo && y in blocks && ClearOf(blocks[y], args)
    ensures SearchState(f, blocks, args, p, done + {y}, todo - {y} + set z | z in Prev(f, y))
  {
    hide ClearOf;
    forall z | z in Prev(f, y)
      ensures BackwardClear(f, blocks, args, p, z)
    {
      assert Edge(f, z, y);
      ClearExtends(f, blocks, args, p, y, z);
    }
    hide BackwardClear;
  }

  lemma SearchFound(f: Flow<Loc>, blocks: map<Loc, Block>, final: map<Loc, Block>, args: set<Ident>, p: Loc, y: Loc, s: Ident)
    requires BackwardClear(f, blocks, args, p, y) && y in blocks && Assigns(blocks[y], s) && s in args
    requires forall z :: z in blocks ==> z in final && final[z] == blocks[z]
    ensures PhiSource(f, final, args, p, s)
  {
    var w :| ClearPath(f, blocks, args, p, y, w);
    assert BackwardTo(f, final, args, p, s, w);
  }

  /** A search that ends without a source would have gone back to the head. */
  lemma {:induction false} SearchEnds(g: Conversion, done: set<Loc>, v: Var, k: nat, q: seq<Loc>)
    requires IsSsa(g) && IsPath(g.c.flow, q) && q[0] == g.c.head && Coherent(g.c.flow)
    requires q[|q| - 1] in done && q[|q| - 1] in g.final && Leaves(g, q[|q| - 1], v, k)
    requires forall y :: y in done ==> y in g.final && !Assigns(g.final[y], Ssa(v, k))
    requires forall y, z :: y in done && z in Prev(g.c.flow, y) ==> z in done
    ensures false
    decreases |q|
  {
    hide IsSsa, Leaves, Assigns;
    var y := q[|q| - 1];
    BackwardStep(g, y, if |q| > 1 then q[|q| - 2] else y, v, k);
    var z := q[|q| - 2];
    assert Edge(g.c.flow, z, y) && z in Prev(g.c.flow, y);
    PrefixPath(g.c.flow, q, |q| - 2);
    SearchEnds(g, done, v, k, q[..|q| - 1]);
  }

  /** s is the version of v leaving block p. */
  ghost predicate IsLeaving(g: Conversion, p: Loc, v: Var, s: Ident) {
    p in g.t.trace && |g.t.trace[p]| > 0 && s == Current(Exit(g.t, p), v)
  }

  /** The parents of each argument. */
  function ParentsOf(parents: map<Ident, set<Loc>>, s: Ident): (r: set<Loc>) {
    if s in parents then parents[s] else {}
  }

  /** The blocks are those of g (missing ones left out). */
  ghost predicate BlocksOf(g: Conversion, blocks: map<Loc, Block>) {
    && (forall z :: z in blocks ==> z in g.final && g.final[z] == blocks[z])
    && (forall a, b :: Edge(g.c.flow, a, b) ==> a in blocks)
  }

  /** One predecessor: the search always finds a source, the version leaving that predecessor. */
  method FindSource(f: Flow<Loc>, blocks: map<Loc, Block>, sources: set<Ident>, parent: Loc, ghost g: Conversion, ghost n: Loc, ghost v: Var)
      returns (r: Found)
    requires IsSsa(g) && f == g.c.flow && BlocksOf(g, blocks) && HasTraces(g.c, g.irdst, g.t)
    requires n in g.final && v in Phis(g.t.phi, n) && Edge(f, parent, n) && sources == Sources(g.c, g.t, n, v)
    ensures parent in g.t.trace && |g.t.trace[parent]| > 0 && r == Found(Current(Exit(g.t, parent), v))
  {
    hide IsSsa, Sources, OneAtATime, BackwardClear, ClearOf, HasTraces, PhiSource, Leaves;
    SourceOfPredecessor(g, n, v, parent, Plain(v));
    var done: set<Loc> := {};
    var todo := {parent};
    SearchStart(g, blocks, sources, parent);
    r := NotFound;
    while todo != {} && r.NotFound?
      invariant r.Found? ==> r.id == Current(Exit(g.t, parent), v)
      invariant r.NotFound? ==> SearchState(f, blocks, sources, parent, done, todo)
      invariant forall y :: y in done || y in todo ==> y in blocks
      decreases r.NotFound?, blocks.Keys - done, todo
    {
      var node :| node in todo;
      if node in done {
        SkipDone(f, blocks, sources, parent, done, todo, node);
        todo := todo - {node};
        continue;
      }
      SourcesOneAtATime(g, n, v, parent, node);
      r := GetVarAssignmentSrc(blocks[node], sources);
      if r.Found? {
        SearchFound(f, blocks, g.final, sources, parent, node, r.id);
        SourceOfPredecessor(g, n, v, parent, r.id);
        break;
      }
      NothingFound(blocks[node], sources);
      CoherentOf(g);
      SearchStep(f, blocks, sources, parent, done, todo, node);
      PredecessorsExist(g, blocks, node);
      todo := todo - {node} + set z | z in Prev(f, node);
      done := done + {node};
    }
    // a source is always found
    if r.NotFound? { SearchNeverEmpty(g, blocks, n, v, parent, done); }
  }

  lemma NothingFound(b: Block, args: set<Ident>)
    requires forall x :: x in args ==> !Assigns(b, x)
    ensures ClearOf(b, args)
  {}

  lemma CoherentOf(g: Conversion)
    requires IsSsa(g)
    ensures Coherent(g.c.flow)
  {
    hide VersionTables, SingleAssignment, FinalBlocks, PhiArgumentsVersioned;
  }

  lemma PredecessorsExist(g: Conversion, blocks: map<Loc, Block>, y: Loc)
    requires Coherent(g.c.flow) && BlocksOf(g, blocks)
    ensures forall z :: z in Prev(g.c.flow, y) ==> z in blocks
  {
    forall z | z in Prev(g.c.flow, y)
      ensures z in blocks
    {
      assert Edge(g.c.flow, z, y);
    }
  }

  lemma SearchStart(g: Conversion, blocks: map<Loc, Block>, args: set<Ident>, p: Loc)
    requires p in blocks
    ensures SearchState(g.c.flow, blocks, args, p, {}, {p})
  {
    assert ClearPath(g.c.flow, blocks, args, p, p, [p]);
  }

  lemma SkipDone(f: Flow<Loc>, blocks: map<Loc, Block>, args: set<Ident>, p: Loc, done: set<Loc>, todo: set<Loc>, y: Loc)
    requires SearchState(f, blocks, args, p, done, todo) && y in done
    ensures SearchState(f, blocks, args, p, done, todo - {y})
  {
    hide BackwardClear, ClearOf;
  }

  lemma SearchNeverEmpty(g: Conversion, blocks: map<Loc, Block>, n: Loc, v: Var, p: Loc, done: set<Loc>)
    requires IsSsa(g) && BlocksOf(g, blocks) && HasTraces(g.c, g.irdst, g.t)
    requires n in g.final && v in Phis(g.t.phi, n) && Edge(g.c.flow, p, n)
    requires SearchState(g.c.flow, blocks, Sources(g.c, g.t, n, v), p, done, {})
    ensures false
  {
    hide IsSsa, Sources, Assigns, Leaves, HasTraces, BackwardClear;
    var k := PredecessorVersion(g, n, v, p);
    CoherentOf(g);
    var q :| Between(g.c.flow, q, g.c.head, p);
    SearchEnds(g, done, v, k, q);
  }

  /** For a phi: each argument with the predecessors it comes from; every predecessor is
      resolved, to the version leaving it. */
  method GetPhiSourcesParentBlock(
    f: Flow<Loc>, blocks: map<Loc, Block>, loc: Loc, sources: set<Ident>, ghost g: Conversion, ghost v: Var)
      returns (parents: map<Ident, set<Loc>>)
    requires IsSsa(g) && f == g.c.flow && BlocksOf(g, blocks) && HasTraces(g.c, g.irdst, g.t)
    requires loc in g.final && v in Phis(g.t.phi, loc) && sources == Sources(g.c, g.t, loc, v)
    ensures forall s, p :: p in ParentsOf(parents, s) <==> p in Prev(f, loc) && IsLeaving(g, p, v, s)
  {
    hide IsSsa, Sources, HasTraces, Leaves;
    CoherentOf(g);
    parents := map[];
    var preds := Prev(f, loc);
    for i := 0 to |preds|
      invariant forall s, p :: p in ParentsOf(parents, s) <==> p in preds[..i] && IsLeaving(g, p, v, s)
    {
      assert preds[i] in Prev(f, loc) && Edge(f, preds[i], loc);
      assert preds[..i + 1] == preds[..i] + [preds[i]];
      var r := FindSource(f, blocks, sources, preds[i], g, loc, v);
      ghost var before := parents;
      parents := parents[r.id := ParentsOf(parents, r.id) + {preds[i]}];
      forall s, p
        ensures p in ParentsOf(parents, s) <==> p in preds[..i + 1] && IsLeaving(g, p, v, s)
      {
        assert IsLeaving(g, preds[i], v, s) <==> s == r.id;
        assert p in ParentsOf(before, s) <==> p in preds[..i] && IsLeaving(g, p, v, s);
      }
    }
    assert preds[..|preds|] == preds;
  }

  // ----- the meaning of whole runs -----

  /** The arguments can be resolved, in one way only. */
  lemma ResolvingChoice(g: Conversion) returns (choice: Choice)
    requires IsSsa(g)
    ensures Resolves(g.c.flow, g.final, choice)
  {
    hide IsSsa, PhiSource, HasTraces, Sources, PhiBlock, BlockRenamed, IsPhiOp, VersionTables, SingleAssignment,
         FinalBlocks, PhiArgumentsVersioned, CompleteCfg, PhiArgs;
    FinalTraces(g);
    choice := (n, id: Ident, p) => if p in g.t.trace && |g.t.trace[p]| > 0 then Current(Exit(g.t, p), id.v) else id;
    forall n, id, p | n in g.final && HasPhi(g.final[n]) && Id(id) in g.final[n][0] && Edge(g.c.flow, p, n)
      ensures PhiSource(g.c.flow, g.final, PhiArgs(g.final[n][0][Id(id)]), p, choice(n, id, p))
    {
      var v := PhiVariable(g, n, id, p);
      SourceOfPredecessor(g, n, v, p, choice(n, id, p));
    }
  }

  lemma PhiVariable(g: Conversion, n: Loc, id: Ident, p: Loc) returns (v: Var)
    requires IsSsa(g) && n in g.final && HasPhi(g.final[n]) && Id(id) in g.final[n][0] && Edge(g.c.flow, p, n)
    ensures HasTraces(g.c, g.irdst, g.t) && v == id.v && v in Phis(g.t.phi, n)
    ensures PhiArgs(g.final[n][0][Id(id)]) == Sources(g.c, g.t, n, v)
  {
    CoherentOf(g);
    assert p in Prev(g.c.flow, n);
    assert n != g.c.head by { hide VersionTables, SingleAssignment, FinalBlocks, PhiArgumentsVersioned; }
    hide IsSsa;
    BlockShape(g, n);
    v :| v in Phis(g.t.phi, n) && Id(id) == Id(Current(Entry(g.t, n), v));
    ArgsOfPhi(g.final[n][0][Id(id)], Sources(g.c, g.t, n, v));
  }

  /** Both programs start from the same values. */
  ghost predicate SameStart<M>(s: State<M>, t: State<M>) {
    s.mem == t.mem && forall v :: s.env(Plain(v)) == t.env(Plain(v))
  }

  /** SSA conversion preserves meaning: along every path from the head, both programs make the
      same memory and the same next destination, and every variable has the value of its version. */
  lemma SamePrograms<M>(m: Machine<M>, g: Conversion, choice: Choice, q: seq<Loc>, s: State<M>, t: State<M>)
    requires IsSsa(g) && Resolves(g.c.flow, g.final, choice) && SameStart(s, t)
    requires IsPath(g.c.flow, q) && q[0] == g.c.head
    ensures OnBlocks(g, q)
    ensures Run(m, g.c.blocks, q, s).mem == RunSsa(m, g.final, choice, q, t).mem
    ensures g.c.blocks[q[|q| - 1]] != [] ==>
      Run(m, g.c.blocks, q, s).env(Plain(g.irdst)) == RunSsa(m, g.final, choice, q, t).env(Plain(g.irdst))
    ensures forall v ::
      Run(m, g.c.blocks, q, s).env(Plain(v)) == RunSsa(m, g.final, choice, q, t).env(Current(Exit(g.t, q[|q| - 1]), v))
  {
    hide IsSsa, Resolves, HasTraces;
    FinalTraces(g);
    PathOnBlocks(g, q);
    assert Related(s, t, map[]);
    MeaningPreserved(m, g, choice, q, s, t);
    var n := q[|q| - 1];
    if g.c.blocks[n] != [] {
      NoVersionOfDst(g.c, g.irdst, g.t, n);
      assert Current(Exit(g.t, n), g.irdst) == Plain(g.irdst);
    }
  }

  lemma NoVersionOfDst(c: Cfg, irdst: Var, t: Tables, n: Loc)
    requires HasTraces(c, irdst, t) && n in c.blocks && c.blocks[n] != []
    ensures n in t.trace && |t.trace[n]| > 0 && irdst !in Exit(t, n)
  {
    var k := |c.blocks[n]| - 1;
    assert StepVersions(irdst, c.blocks[n][k], t.trace[n][k], t.trace[n][k + 1]);
  }
}
