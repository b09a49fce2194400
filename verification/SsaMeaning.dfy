/**
 The meaning of a program in SSA form along a path, and the theorem that it is the
 meaning of the program it was built from.
 */
module SsaMeaning {
  import opened Paths
  import opened Ir
  import opened SsaForm

  /** Does the block open with phis? */
  predicate HasPhi(b: Block) {
    b != [] && exists d :: d in b[0] && IsPhiOp(b[0][d])
  }

  function PhiArgs(e: Expr): (r: set<Ident>) {
    if IsPhiOp(e) then set i | 0 <= i < |e.args| && e.args[i].Id? :: e.args[i].id else {}
  }

  /** For a phi of block n entered from p: the argument it takes. */
  type Choice = (Loc, Ident, Loc) -> Ident

  /** The choice takes, for each phi and predecessor, the argument found going backwards
      from that predecessor: the association get_phi_sources_parent_block recovers. */
  ghost predicate Resolves(f: Flow<Loc>, final: map<Loc, Block>, choice: Choice) {
    forall n, id, p :: n in final && HasPhi(final[n]) && Id(id) in final[n][0] && Edge(f, p, n) ==>
      PhiSource(f, final, PhiArgs(final[n][0][Id(id)]), p, choice(n, id, p))
  }

  /** Entering block n from p: all its phis take their argument in parallel. */
  function Enter<M>(b: Block, n: Loc, p: Loc, choice: Choice, t: State<M>): (r: State<M>) {
    if HasPhi(b) then State(id => if Id(id) in b[0] then t.env(choice(n, id, p)) else t.env(id), t.mem) else t
  }

  function Body(b: Block): (r: Block) {
    if HasPhi(b) then b[1..] else b
  }

  function RunSsa<M>(m: Machine<M>, final: map<Loc, Block>, choice: Choice, q: seq<Loc>, t: State<M>): (r: State<M>)
    requires |q| > 0 && forall i :: 0 <= i < |q| ==> q[i] in final
  {
    var n := q[|q| - 1];
    if |q| == 1 then ExecBlock(m, final[n], t)
    else
      var u := RunSsa(m, final, choice, q[..|q| - 1], t);
      ExecBlock(m, Body(final[n]), Enter(final[n], n, q[|q| - 2], choice, u))
  }

  /** A renamed body never opens with a phi. */
  lemma RenamedNotPhi(irdst: Var, orig: Block, body: Block, trace: seq<Versions>)
    requires PlainBlock(orig) && BlockRenamed(irdst, orig, body, trace)
    ensures !HasPhi(body)
  {
    if body != [] {
      assert AssignRenamed(irdst, orig[0], body[0], trace[0], trace[1]) && PlainAssign(orig[0]);
      forall k | k in body[0]
        ensures !IsPhiOp(body[0][k])
      {
        var d :| d in orig[0] && k == RenamedDst(irdst, d, trace[0], trace[1]);
        assert body[0][k] == Rename(orig[0][d], trace[0]);
      }
    }
  }

  lemma ArgsOfPhi(e: Expr, sources: set<Ident>)
    requires IsPhi(e, sources)
    ensures PhiArgs(e) == sources
  {
    forall id | id in sources
      ensures id in PhiArgs(e)
    {
      var i :| 0 <= i < |e.args| && e.args[i] == Id(id);
    }
  }

  /** What a block other than the head looks like: phis when the tables say so, then its body. */
  lemma BlockShape(g: Conversion, n: Loc)
    requires IsSsa(g) && n in g.final && n != g.c.head
    ensures n in g.c.blocks && n in g.t.trace && PlainBlock(g.c.blocks[n])
    ensures BlockRenamed(g.irdst, g.c.blocks[n], Body(g.final[n]), g.t.trace[n])
    ensures HasPhi(g.final[n]) <==> n in g.t.phi
    ensures HasPhi(g.final[n]) ==> HasTraces(g.c, g.irdst, g.t) && PhiBlock(g.c, g.irdst, g.t, n, g.final[n][0])
  {
    hide SingleAssignment, PhiClosed, IsImmediateDominator, PhiArgumentsVersioned;
    var b, pre := g.final[n], PrefixLength(g.c, g.t, n);
    assert SsaBlock(g.c, g.irdst, g.t, n, b);
    hide BlockRenamed;
    RenamedNotPhi(g.irdst, g.c.blocks[n], b[pre..], g.t.trace[n]);
    if pre == 1 {
      var v :| v in Phis(g.t.phi, n);
      var d := Id(Current(Entry(g.t, n), v));
      assert d in b[0] && IsPhi(b[0][d], Sources(g.c, g.t, n, v));
    }
    assert pre == 0 ==> b[pre..] == b;
  }

  /** Entering a block puts every variable in its entry version. */
  lemma EnterRelated<M>(g: Conversion, choice: Choice, n: Loc, p: Loc, s: State<M>, t: State<M>)
    requires IsSsa(g) && Resolves(g.c.flow, g.final, choice)
    requires n in g.final && p in g.final && Edge(g.c.flow, p, n) && n != g.c.head
    requires HasTraces(g.c, g.irdst, g.t) && Related(s, t, Exit(g.t, p))
    ensures Related(s, Enter(g.final[n], n, p, choice, t), Entry(g.t, n))
  {
    BlockShape(g, n);
    var u := Enter(g.final[n], n, p, choice, t);
    forall v: Var
      ensures s.env(Plain(v)) == u.env(Current(Entry(g.t, n), v))
    {
      if v in Phis(g.t.phi, n) {
        EnterPhi(g, choice, n, p, v, t);
      } else {
        EnterKept(g, choice, n, p, v, t);
      }
    }
  }

  lemma EnterPhi<M>(g: Conversion, choice: Choice, n: Loc, p: Loc, v: Var, t: State<M>)
    requires IsSsa(g) && Resolves(g.c.flow, g.final, choice)
    requires n in g.final && p in g.final && Edge(g.c.flow, p, n) && n != g.c.head
    requires HasTraces(g.c, g.irdst, g.t) && v in Phis(g.t.phi, n)
    ensures Enter(g.final[n], n, p, choice, t).env(Current(Entry(g.t, n), v)) == t.env(Current(Exit(g.t, p), v))
  {
    hide IsSsa;
    BlockShape(g, n);
    var id := Current(Entry(g.t, n), v);
    var a := g.final[n][0];
    assert Id(id) in a;
    ArgsOfPhi(a[Id(id)], Sources(g.c, g.t, n, v));
    PhiSourceIsExit(g, n, v, p, choice(n, id, p));
  }

  lemma EnterKept<M>(g: Conversion, choice: Choice, n: Loc, p: Loc, v: Var, t: State<M>)
    requires IsSsa(g) && n in g.final && p in g.final && Edge(g.c.flow, p, n) && n != g.c.head
    requires HasTraces(g.c, g.irdst, g.t) && v !in Phis(g.t.phi, n)
    ensures Enter(g.final[n], n, p, choice, t).env(Current(Entry(g.t, n), v)) == t.env(Current(Exit(g.t, p), v))
  {
    hide SingleAssignment, FinalBlocks, PhiArgumentsVersioned;
    BlockShape(g, n);
    PredecessorsAgree(g.c, g.irdst, g.idoms, g.t, n, p, v);
  }

  /** The head gives its first version to every variable that reaches a phi unassigned. */
  lemma HeadRelated<M>(m: Machine<M>, g: Conversion, s: State<M>, t: State<M>)
    requires IsSsa(g) && g.c.head in g.final && HasTraces(g.c, g.irdst, g.t) && Related(s, t, map[])
    ensures Related(ExecBlock(m, g.c.blocks[g.c.head], s), ExecBlock(m, g.final[g.c.head], t), Exit(g.t, g.c.head))
  {
    hide SingleAssignment, PhiClosed, IsImmediateDominator, PhiArgumentsVersioned;
    var n := g.c.head;
    var b, pre, entry := g.final[n], PrefixLength(g.c, g.t, n), Entry(g.t, n);
    assert SsaBlock(g.c, g.irdst, g.t, n, b);
    var t' := if pre == 1 then Exec(m, b[0], t) else t;
    InitRelated(m, entry, s, t);
    assert Related(s, t', entry);
    ExecBlockRenamed(m, g.irdst, g.c.blocks[n], b[pre..], g.t.trace[n], s, t');
    assert pre == 0 ==> b[pre..] == b;
  }

  lemma InitContents(ver: Versions)
    ensures forall d :: d in InitBlock(ver) ==> d.Id? && d.id.Ssa?
    ensures forall v :: v in ver ==> Id(Ssa(v, ver[v])) in InitBlock(ver) && InitBlock(ver)[Id(Ssa(v, ver[v]))] == Id(Plain(v))
  {}

  lemma InitRelated<M>(m: Machine<M>, ver: Versions, s: State<M>, t: State<M>)
    requires Related(s, t, map[])
    ensures Related(s, Exec(m, InitBlock(ver), t), ver)
  {
    hide InitBlock;
    InitContents(ver);
    var a := InitBlock(ver);
    assert Writes(m, a, t) == {};
    forall v: Var
      ensures s.env(Plain(v)) == Exec(m, a, t).env(Current(ver, v))
    {
      assert s.env(Plain(v)) == t.env(Current(map[], v)) == t.env(Plain(v));
      if v in ver {
        ExecVariable(m, a, t, Ssa(v, ver[v]));
        assert a[Id(Ssa(v, ver[v]))] == Id(Plain(v));
      } else {
        assert Id(Plain(v)) !in a;
        ExecVariable(m, a, t, Plain(v));
      }
    }
  }

  /** SSA conversion preserves meaning: along every path from the head, every variable holds
      the value of its current version, and the memories are equal. */
  lemma {:induction false} MeaningPreserved<M>(
    m: Machine<M>, g: Conversion, choice: Choice, q: seq<Loc>, s: State<M>, t: State<M>)
    requires IsSsa(g) && Resolves(g.c.flow, g.final, choice)
    requires IsPath(g.c.flow, q) && q[0] == g.c.head && OnBlocks(g, q)
    requires Related(s, t, map[])
    ensures Related(Run(m, g.c.blocks, q, s), RunSsa(m, g.final, choice, q, t), Exit(g.t, q[|q| - 1]))
    decreases |q|
  {
    hide IsSsa, Resolves, Related, HasTraces, CompleteCfg, VersionTables, SingleAssignment, FinalBlocks,
         PhiArgumentsVersioned;
    FinalTraces(g);
    if |q| == 1 {
      HeadRelated(m, g, s, t);
    } else {
      var r, n, p := q[..|q| - 1], q[|q| - 1], q[|q| - 2];
      PrefixPath(g.c.flow, q, |q| - 2);
      MeaningPreserved(m, g, choice, r, s, t);
      assert Edge(g.c.flow, p, n);
      MeaningStep(m, g, choice, n, p, Run(m, g.c.blocks, r, s), RunSsa(m, g.final, choice, r, t));
    }
  }

  ghost predicate OnBlocks(g: Conversion, q: seq<Loc>) {
    forall i :: 0 <= i < |q| ==>
      q[i] in g.c.blocks && q[i] in g.final && q[i] in g.t.trace && |g.t.trace[q[i]]| > 0
  }

  lemma PathOnBlocks(g: Conversion, q: seq<Loc>)
    requires IsSsa(g) && IsPath(g.c.flow, q) && q[0] == g.c.head
    ensures OnBlocks(g, q)
  {
    forall i | 0 <= i < |q|
      ensures q[i] in g.c.blocks && q[i] in g.final && q[i] in g.t.trace && |g.t.trace[q[i]]| > 0
    {
      PrefixPath(g.c.flow, q, i);
      FinalLength(g, q[i]);
    }
  }

  lemma MeaningStep<M>(m: Machine<M>, g: Conversion, choice: Choice, n: Loc, p: Loc, s: State<M>, t: State<M>)
    requires IsSsa(g) && Resolves(g.c.flow, g.final, choice) && HasTraces(g.c, g.irdst, g.t)
    requires n in g.final && p in g.final && n in g.c.blocks && Edge(g.c.flow, p, n)
    requires p in g.t.trace && |g.t.trace[p]| > 0 && Related(s, t, Exit(g.t, p))
    ensures n in g.t.trace && |g.t.trace[n]| > 0
    ensures Related(
      ExecBlock(m, g.c.blocks[n], s),
      ExecBlock(m, Body(g.final[n]), Enter(g.final[n], n, p, choice, t)),
      Exit(g.t, n))
  {
    hide Related, Resolves;
    assert n != g.c.head by { assert p in Prev(g.c.flow, n); }
    hide IsSsa;
    EnterRelated(g, choice, n, p, s, t);
    BlockShape(g, n);
    ExecBlockRenamed(m, g.irdst, g.c.blocks[n], Body(g.final[n]), g.t.trace[n], s, Enter(g.final[n], n, p, choice, t));
  }
}
