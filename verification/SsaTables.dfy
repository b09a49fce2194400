/**
 How the version tables of a conversion grow while blocks are renamed, and how they are
 completed at the end for the variables that reach a phi unassigned.
 */
module SsaTables {
  import opened Paths
  import opened Dominators
  import opened Ir
  import opened SsaForm

  // ----- counters -----

  /** The next version of v. */
  function Count(lhs: Versions, v: Var): (r: nat) {
    if v in lhs then lhs[v] else 0
  }

  /** Each variable of vs takes its next version. */
  function NextVersions(rhs: Versions, lhs: Versions, vs: set<Var>): (r: Versions) {
    rhs + map v | v in vs :: Count(lhs, v)
  }

  function NextCounters(lhs: Versions, vs: set<Var>): (r: Versions) {
    lhs + map v | v in vs :: Count(lhs, v) + 1
  }

  /** Every version given so far is below the counter of its variable. */
  ghost predicate Fresh(c: Cfg, irdst: Var, t: Tables, lhs: Versions) {
    forall n, j: nat, v, k: nat :: GivenAt(c, irdst, t, n, j, v, k) ==> k < Count(lhs, v)
  }

  ghost function Prefix(t: Tables, n: Loc): (r: seq<Versions>) {
    if n in t.trace then t.trace[n] else []
  }

  /** The tables with one more entry for block n. */
  ghost function Extended(t: Tables, n: Loc, after: Versions): (r: Tables) {
    t.(trace := t.trace[n := Prefix(t, n) + [after]])
  }

  lemma OldPlace(c: Cfg, irdst: Var, t: Tables, n: Loc, after: Versions, n': Loc, j: nat, v: Var, k: nat)
    requires GivenAt(c, irdst, Extended(t, n, after), n', j, v, k)
    requires n' != n || j < |Prefix(t, n)|
    ensures GivenAt(c, irdst, t, n', j, v, k)
  {}

  /** Giving next versions at a new place keeps versions fresh and singly assigned. */
  lemma NewPlace(c: Cfg, irdst: Var, t: Tables, n: Loc, rhs: Versions, lhs: Versions, vs: set<Var>)
    requires SingleAssignment(c, irdst, t) && Fresh(c, irdst, t, lhs)
    requires forall v :: IsSite(c, irdst, Extended(t, n, NextVersions(rhs, lhs, vs)), n, |Prefix(t, n)|, v) ==> v in vs
    ensures SingleAssignment(c, irdst, Extended(t, n, NextVersions(rhs, lhs, vs)))
    ensures Fresh(c, irdst, Extended(t, n, NextVersions(rhs, lhs, vs)), NextCounters(lhs, vs))
  {
    var after := NextVersions(rhs, lhs, vs);
    var t' := Extended(t, n, after);
    var j0 := |Prefix(t, n)|;
    forall n', j: nat, v, k: nat | GivenAt(c, irdst, t', n', j, v, k)
      ensures k < Count(NextCounters(lhs, vs), v)
      ensures (n' != n || j != j0) ==> k < Count(lhs, v) && GivenAt(c, irdst, t, n', j, v, k)
      ensures (n' == n && j == j0) ==> k == Count(lhs, v)
    {
      if n' != n || j < j0 {
        OldPlace(c, irdst, t, n, after, n', j, v, k);
      }
    }
    hide GivenAt, Extended;
    forall n1, j1: nat, n2, j2: nat, v, k: nat |
      GivenAt(c, irdst, t', n1, j1, v, k) && GivenAt(c, irdst, t', n2, j2, v, k)
      ensures n1 == n2 && j1 == j2
    {
    }
  }

  // ----- completing the versions with initial ones -----

  /** b with r applied to its destinations and sources, assignments of a cell to itself dropped. */
  ghost predicate Simplified(b: AssignBlk, r: map<Ident, Ident>, b': AssignBlk) {
    && (forall d :: d in b && d != b[d] ==> Replace(d, r) in b')
    && (forall k :: k in b' ==> SimplifiedFrom(b, r, k, b'[k]))
  }

  ghost predicate SimplifiedFrom(b: AssignBlk, r: map<Ident, Ident>, k: Expr, e: Expr) {
    exists d :: d in b && d != b[d] && k == Replace(d, r) && e == Replace(b[d], r)
  }

  lemma RenameCompleted(e: Expr, ver: Versions, fix: Versions)
    requires PlainExpr(e)
    ensures Replace(Rename(e, ver), Renaming(fix)) == Rename(e, fix + ver)
  {
    ReplaceCompose(e, Renaming(ver), Renaming(fix), Renaming(fix + ver));
  }

  lemma DstCompleted(irdst: Var, a: AssignBlk, d: Expr, before: Versions, after: Versions, fix: Versions)
    requires PlainAssign(a) && StepVersions(irdst, a, before, after) && d in a && irdst !in fix
    ensures Replace(RenamedDst(irdst, d, before, after), Renaming(fix)) == RenamedDst(irdst, d, fix + before, fix + after)
  {
    assert PlainExpr(d);
    if d.Id? {
      assert d.id in Ids(d);
      if d.id.v != irdst { assert d.id.v in Defined(irdst, a); }
    } else {
      RenameCompleted(d, before, fix);
    }
  }

  lemma DstInjective(irdst: Var, a: AssignBlk, d: Expr, d': Expr, before: Versions, after: Versions)
    requires PlainAssign(a) && irdst !in after && d in a && d' in a
    requires RenamedDst(irdst, d, before, after) == RenamedDst(irdst, d', before, after)
    ensures d == d'
  {
    assert PlainExpr(d) && PlainExpr(d');
    if d.Id? && d'.Id? {
      assert d.id in Ids(d) && d'.id in Ids(d');
    } else if d.Mem? && d'.Mem? {
      RenameInjective(d, d', before);
    }
  }

  /** The version a variable gets is above the one it had. */
  ghost predicate StepIncreasing(irdst: Var, a: AssignBlk, before: Versions, after: Versions) {
    forall v :: v in Defined(irdst, a) && v in before && v in after ==> before[v] < after[v]
  }

  /** Only an assignment of a cell to itself is renamed to one. */
  lemma IdentityRenamed(irdst: Var, a: AssignBlk, d: Expr, before: Versions, after: Versions)
    requires PlainAssign(a) && StepVersions(irdst, a, before, after) && StepIncreasing(irdst, a, before, after) && d in a
    requires RenamedDst(irdst, d, before, after) == Rename(a[d], before)
    ensures d == a[d] && (d.Mem? || d == Id(Plain(irdst)))
  {
    assert PlainExpr(d) && PlainExpr(a[d]);
    if d.Id? {
      assert d.id in Ids(d);
      assert a[d].Id? && a[d].id in Ids(a[d]);
    } else {
      RenameInjective(d, a[d], before);
    }
  }

  /** e is what the assignment of d becomes, versions completed. */
  ghost predicate Becomes(irdst: Var, a: AssignBlk, B: Versions, A: Versions, d: Expr, k: Expr, e: Expr) {
    d in a && k == RenamedDst(irdst, d, B, A) && e == Rename(a[d], B)
  }

  lemma SimplifiedOrigin(
    irdst: Var, a: AssignBlk, b: AssignBlk, b': AssignBlk, before: Versions, after: Versions, fix: Versions, k: Expr)
      returns (d: Expr)
    requires PlainAssign(a) && AssignRenamed(irdst, a, b, before, after) && StepVersions(irdst, a, before, after)
    requires Simplified(b, Renaming(fix), b') && irdst !in fix && k in b'
    ensures Becomes(irdst, a, fix + before, fix + after, d, k, b'[k])
  {
    var r := Renaming(fix);
    assert SimplifiedFrom(b, r, k, b'[k]);
    var e :| e in b && e != b[e] && k == Replace(e, r) && b'[k] == Replace(b[e], r);
    d :| d in a && e == RenamedDst(irdst, d, before, after);
    DstCompleted(irdst, a, d, before, after, fix);
    RenameCompleted(a[d], before, fix);
  }

  lemma SimplifiedMissing(
    irdst: Var, a: AssignBlk, b: AssignBlk, b': AssignBlk, before: Versions, after: Versions, fix: Versions, d: Expr)
    requires PlainAssign(a) && AssignRenamed(irdst, a, b, before, after) && StepVersions(irdst, a, before, after)
    requires StepIncreasing(irdst, a, before, after) && Simplified(b, Renaming(fix), b') && irdst !in fix
    requires d in a && RenamedDst(irdst, d, fix + before, fix + after) !in b'
    ensures d == a[d] && (d.Mem? || d == Id(Plain(irdst)))
  {
    var e := RenamedDst(irdst, d, before, after);
    DstCompleted(irdst, a, d, before, after, fix);
    if e in b {
      assert e == b[e] && b[e] == Rename(a[d], before);
      IdentityRenamed(irdst, a, d, before, after);
    }
  }

  lemma AssignCompleted(
    irdst: Var, a: AssignBlk, b: AssignBlk, b': AssignBlk, before: Versions, after: Versions, fix: Versions)
    requires PlainAssign(a) && AssignRenamed(irdst, a, b, before, after) && StepVersions(irdst, a, before, after)
    requires StepIncreasing(irdst, a, before, after) && Simplified(b, Renaming(fix), b') && irdst !in fix
    ensures AssignRenamed(irdst, a, b', fix + before, fix + after)
  {
    var B, A := fix + before, fix + after;
    assert irdst !in A;
    hide AssignRenamed, Becomes, RenamedDst, Simplified, StepVersions, StepIncreasing, PlainAssign;
    forall k | k in b'
      ensures exists d :: Becomes(irdst, a, B, A, d, k, b'[k])
    {
      var d := SimplifiedOrigin(irdst, a, b, b', before, after, fix, k);
    }
    forall d | d in a && RenamedDst(irdst, d, B, A) in b'
      ensures b'[RenamedDst(irdst, d, B, A)] == Rename(a[d], B)
    {
      var k := RenamedDst(irdst, d, B, A);
      var d' :| Becomes(irdst, a, B, A, d', k, b'[k]);
      BecomesOnce(irdst, a, B, A, d, d', k, b'[k]);
    }
    forall d | d in a && RenamedDst(irdst, d, B, A) !in b'
      ensures d == a[d] && (d.Mem? || d == Id(Plain(irdst)))
    {
      SimplifiedMissing(irdst, a, b, b', before, after, fix, d);
    }
    RenamedFromParts(irdst, a, b', B, A);
  }

  lemma BecomesOnce(irdst: Var, a: AssignBlk, B: Versions, A: Versions, d: Expr, d': Expr, k: Expr, e: Expr)
    requires PlainAssign(a) && irdst !in A && d in a && RenamedDst(irdst, d, B, A) == k && Becomes(irdst, a, B, A, d', k, e)
    ensures e == Rename(a[d], B)
  {
    DstInjective(irdst, a, d, d', B, A);
  }

  lemma RenamedFromParts(irdst: Var, a: AssignBlk, b: AssignBlk, B: Versions, A: Versions)
    requires forall d :: d in a && RenamedDst(irdst, d, B, A) in b ==> b[RenamedDst(irdst, d, B, A)] == Rename(a[d], B)
    requires forall d :: d in a && RenamedDst(irdst, d, B, A) !in b ==> d == a[d] && (d.Mem? || d == Id(Plain(irdst)))
    requires forall k :: k in b ==> exists d :: Becomes(irdst, a, B, A, d, k, b[k])
    ensures AssignRenamed(irdst, a, b, B, A)
  {
    hide RenamedDst;
    forall k | k in b
      ensures exists d :: d in a && k == RenamedDst(irdst, d, B, A)
    {
      var d :| Becomes(irdst, a, B, A, d, k, b[k]);
      assert d in a;
    }
  }

  ghost function CompleteTrace(trace: seq<Versions>, fix: Versions): (r: seq<Versions>) {
    seq(|trace|, i requires 0 <= i < |trace| => fix + trace[i])
  }

  /** The tables once every variable of fix has an initial version. */
  ghost function Complete(t: Tables, fix: Versions): (r: Tables) {
    t.(trace := map n | n in t.trace :: CompleteTrace(t.trace[n], fix))
  }

  lemma SameCompleted(a: Versions, b: Versions, fix: Versions, v: Var)
    requires Same(a, b, v)
    ensures Same(fix + a, fix + b, v)
  {}

  lemma StepCompleted(irdst: Var, a: AssignBlk, before: Versions, after: Versions, fix: Versions)
    requires StepVersions(irdst, a, before, after) && irdst !in fix
    ensures StepVersions(irdst, a, fix + before, fix + after)
  {
    forall v | v !in Defined(irdst, a)
      ensures Same(fix + before, fix + after, v)
    {
      SameCompleted(before, after, fix, v);
    }
  }

  lemma TraceCompleted(irdst: Var, b: Block, trace: seq<Versions>, fix: Versions)
    requires BlockVersions(irdst, b, trace) && irdst !in fix
    ensures BlockVersions(irdst, b, CompleteTrace(trace, fix))
  {
    var trace' := CompleteTrace(trace, fix);
    forall i, j | 0 <= i < |b| && j == i + 1
      ensures StepVersions(irdst, b[i], trace'[i], trace'[j])
    {
      StepCompleted(irdst, b[i], trace[i], trace[j], fix);
    }
  }

  ghost predicate Increasing(irdst: Var, b: Block, trace: seq<Versions>) {
    && |trace| == |b| + 1
    && (forall i, j :: 0 <= i < |b| && j == i + 1 ==> StepIncreasing(irdst, b[i], trace[i], trace[j]))
  }

  ghost predicate SimplifiedBlock(b: Block, r: map<Ident, Ident>, b': Block) {
    |b'| == |b| && forall i :: 0 <= i < |b| ==> Simplified(b[i], r, b'[i])
  }

  lemma BodyCompleted(irdst: Var, orig: Block, body: Block, body': Block, trace: seq<Versions>, fix: Versions)
    requires PlainBlock(orig) && BlockRenamed(irdst, orig, body, trace) && Increasing(irdst, orig, trace)
    requires SimplifiedBlock(body, Renaming(fix), body') && irdst !in fix
    ensures BlockRenamed(irdst, orig, body', CompleteTrace(trace, fix))
  {
    var trace' := CompleteTrace(trace, fix);
    TraceCompleted(irdst, orig, trace, fix);
    forall i, j | 0 <= i < |orig| && j == i + 1
      ensures AssignRenamed(irdst, orig[i], body'[i], trace'[i], trace'[j])
    {
      AssignCompleted(irdst, orig[i], body[i], body'[i], trace[i], trace[j], fix);
    }
  }

  /** The program once renamed and given its phis, before initial versions exist. */
  ghost predicate Renamed(g: Conversion, lhs: Versions) {
    && CompleteCfg(g.c)
    && VersionTables(g.c, g.irdst, g.idoms, g.t)
    && SingleAssignment(g.c, g.irdst, g.t)
    && Fresh(g.c, g.irdst, g.t, lhs)
    && FinalBlocks(g)
    && g.c.head in g.t.trace && |g.t.trace[g.c.head]| > 0 && Entry(g.t, g.c.head) == map[]
    && (forall n :: n in g.c.blocks ==> Increasing(g.irdst, g.c.blocks[n], g.t.trace[n]))
  }

  /** fix gives their next version to the variables that some phi receives unversioned. */
  ghost predicate Fixes(g: Conversion, lhs: Versions, fix: Versions)
    requires HasTraces(g.c, g.irdst, g.t)
  {
    && g.irdst !in fix
    && (forall v :: v in fix ==> fix[v] == Count(lhs, v))
    && (forall n, v, p :: v in Phis(g.t.phi, n) && Edge(g.c.flow, p, n) && p in g.c.blocks ==>
          v in fix || v in Exit(g.t, p))
  }

  lemma CompletedExit(t: Tables, fix: Versions, n: Loc)
    requires n in t.trace && |t.trace[n]| > 0
    ensures n in Complete(t, fix).trace && |Complete(t, fix).trace[n]| == |t.trace[n]|
    ensures Exit(Complete(t, fix), n) == fix + Exit(t, n)
    ensures Entry(Complete(t, fix), n) == fix + Entry(t, n)
  {}

  lemma TablesCompleted(c: Cfg, irdst: Var, idoms: map<Loc, Loc>, t: Tables, fix: Versions)
    requires VersionTables(c, irdst, idoms, t) && irdst !in fix
    ensures VersionTables(c, irdst, idoms, Complete(t, fix))
  {
    var t' := Complete(t, fix);
    hide BlockVersions, ImmediateDominators, PhiClosed;
    forall n | n in c.blocks
      ensures n in t'.trace && BlockVersions(irdst, c.blocks[n], t'.trace[n])
    {
      TraceCompleted(irdst, c.blocks[n], t.trace[n], fix);
    }
    assert HasTraces(c, irdst, t');
    EntriesCompleted(c, irdst, idoms, t, fix);
  }

  lemma EntriesCompleted(c: Cfg, irdst: Var, idoms: map<Loc, Loc>, t: Tables, fix: Versions)
    requires VersionTables(c, irdst, idoms, t) && irdst !in fix && HasTraces(c, irdst, Complete(t, fix))
    ensures forall n :: n in idoms ==>
      EntryVersions(Phis(t.phi, n), Exit(Complete(t, fix), idoms[n]), Entry(Complete(t, fix), n))
  {
    var t' := Complete(t, fix);
    forall n | n in idoms
      ensures EntryVersions(Phis(t.phi, n), Exit(t', idoms[n]), Entry(t', n))
    {
      CompletedExit(t, fix, n);
      CompletedExit(t, fix, idoms[n]);
      forall v | v !in Phis(t.phi, n)
        ensures Same(Exit(t', idoms[n]), Entry(t', n), v)
      {
        SameCompleted(Exit(t, idoms[n]), Entry(t, n), fix, v);
      }
    }
  }

  /** A phi gives a version to its variable. */
  ghost predicate PhisVersioned(c: Cfg, irdst: Var, t: Tables)
    requires HasTraces(c, irdst, t)
  {
    forall n, v :: n in c.blocks && v in Phis(t.phi, n) ==> v in Entry(t, n)
  }

  lemma TablesPhisVersioned(c: Cfg, irdst: Var, idoms: map<Loc, Loc>, t: Tables)
    requires CompleteCfg(c) && VersionTables(c, irdst, idoms, t)
    ensures PhisVersioned(c, irdst, t)
  {
    forall n, v | n in c.blocks && v in Phis(t.phi, n)
      ensures v in Entry(t, n)
    {
      assert n in idoms && EntryVersions(Phis(t.phi, n), Exit(t, idoms[n]), Entry(t, n));
    }
  }

  /** A place of the completed tables is a place of the tables, or an initial version. */
  lemma PlaceCompleted(c: Cfg, irdst: Var, t: Tables, fix: Versions, n: Loc, j: nat, v: Var, k: nat)
    requires HasTraces(c, irdst, t)
    requires c.head in t.trace && |t.trace[c.head]| > 0 && Entry(t, c.head) == map[]
    requires PhisVersioned(c, irdst, t)
    requires GivenAt(c, irdst, Complete(t, fix), n, j, v, k)
    ensures (n == c.head && j == 0 && v in fix && k == fix[v]) || GivenAt(c, irdst, t, n, j, v, k)
  {
    var t' := Complete(t, fix);
    assert t'.trace[n][j] == fix + t.trace[n][j];
    if j == 0 {
      CompletedExit(t, fix, n);
    } else {
      assert StepVersions(irdst, c.blocks[n][j - 1], t.trace[n][j - 1], t.trace[n][j]);
    }
  }

  lemma SingleCompleted(c: Cfg, irdst: Var, t: Tables, lhs: Versions, fix: Versions)
    requires HasTraces(c, irdst, t) && SingleAssignment(c, irdst, t) && Fresh(c, irdst, t, lhs)
    requires c.head in t.trace && |t.trace[c.head]| > 0 && Entry(t, c.head) == map[]
    requires PhisVersioned(c, irdst, t)
    requires forall v :: v in fix ==> fix[v] == Count(lhs, v)
    ensures SingleAssignment(c, irdst, Complete(t, fix))
  {
    var t' := Complete(t, fix);
    forall n, j: nat, n', j': nat, v, k: nat |
      GivenAt(c, irdst, t', n, j, v, k) && GivenAt(c, irdst, t', n', j', v, k)
      ensures n == n' && j == j'
    {
      PlaceCompleted(c, irdst, t, fix, n, j, v, k);
      PlaceCompleted(c, irdst, t, fix, n', j', v, k);
      hide GivenAt, Complete;
    }
  }

  lemma SourcesCompleted(c: Cfg, irdst: Var, t: Tables, fix: Versions, n: Loc, v: Var)
    requires HasTraces(c, irdst, t) && HasTraces(c, irdst, Complete(t, fix))
    ensures Sources(c, Complete(t, fix), n, v) == set id | id in Sources(c, t, n, v) :: Image(Renaming(fix), id)
  {
    var t' := Complete(t, fix);
    forall p | p in c.blocks
      ensures Current(Exit(t', p), v) == Image(Renaming(fix), Current(Exit(t, p), v))
    {
      CompletedExit(t, fix, p);
    }
    var images := set id | id in Sources(c, t, n, v) :: Image(Renaming(fix), id);
    forall id | id in Sources(c, t', n, v)
      ensures id in images
    {
      var p :| p in c.blocks && p in Prev(c.flow, n) && id == Current(Exit(t', p), v);
      assert Current(Exit(t, p), v) in Sources(c, t, n, v);
    }
    forall id | id in images
      ensures id in Sources(c, t', n, v)
    {
      var id0 :| id0 in Sources(c, t, n, v) && id == Image(Renaming(fix), id0);
      var p :| p in c.blocks && p in Prev(c.flow, n) && id0 == Current(Exit(t, p), v);
      assert id == Current(Exit(t', p), v);
    }
  }

  lemma PhiReplaced(e: Expr, sources: set<Ident>, r: map<Ident, Ident>)
    requires IsPhi(e, sources)
    ensures IsPhi(Replace(e, r), set id | id in sources :: Image(r, id))
  {
    var e' := Replace(e, r);
    forall id | id in sources
      ensures Id(Image(r, id)) in e'.args
    {
      var i :| 0 <= i < |e.args| && e.args[i] == Id(id);
      assert e'.args[i] == Id(Image(r, id));
    }
  }

  lemma PhiIsOp(e: Expr, sources: set<Ident>)
    requires IsPhi(e, sources)
    ensures e.Op?
  {}

  /** A phi of the simplified block comes from the phi of the same variable. */
  lemma PhiKeyCompleted(
    c: Cfg, irdst: Var, t: Tables, fix: Versions, n: Loc, b: AssignBlk, b': AssignBlk, k: Expr) returns (v: Var)
    requires HasTraces(c, irdst, t) && n in c.blocks
    requires PhiBlock(c, irdst, t, n, b) && Simplified(b, Renaming(fix), b') && k in b'
    requires forall v :: v in Phis(t.phi, n) ==> v in Entry(t, n)
    ensures v in Phis(t.phi, n) && k == Id(Current(Entry(t, n), v)) && k in b
    ensures b'[k] == Replace(b[k], Renaming(fix)) && IsPhi(b[k], Sources(c, t, n, v))
  {
    var r := Renaming(fix);
    assert SimplifiedFrom(b, r, k, b'[k]);
    var d :| d in b && d != b[d] && k == Replace(d, r) && b'[k] == Replace(b[d], r);
    v :| v in Phis(t.phi, n) && d == Id(Current(Entry(t, n), v));
    assert d == k;
  }

  /** Completing the versions changes the sources of a phi, not its destination. */
  lemma PhiCompleted(c: Cfg, irdst: Var, t: Tables, fix: Versions, n: Loc, b: AssignBlk, b': AssignBlk, v: Var)
    requires HasTraces(c, irdst, t) && HasTraces(c, irdst, Complete(t, fix)) && n in c.blocks
    requires PhiBlock(c, irdst, t, n, b) && Simplified(b, Renaming(fix), b')
    requires forall v :: v in Phis(t.phi, n) ==> v in Entry(t, n)
    requires v in Phis(t.phi, n)
    ensures Current(Entry(Complete(t, fix), n), v) == Current(Entry(t, n), v)
    ensures Id(Current(Entry(t, n), v)) in b'
    ensures IsPhi(b'[Id(Current(Entry(t, n), v))], Sources(c, Complete(t, fix), n, v))
  {
    hide StepVersions, IsPhi;
    var k, r := Id(Current(Entry(t, n), v)), Renaming(fix);
    CompletedExit(t, fix, n);
    assert k in b && Replace(k, r) == k && IsPhi(b[k], Sources(c, t, n, v));
    PhiIsOp(b[k], Sources(c, t, n, v));
    var v' := PhiKeyCompleted(c, irdst, t, fix, n, b, b', k);
    PhiReplaced(b[k], Sources(c, t, n, v), r);
    SourcesCompleted(c, irdst, t, fix, n, v);
  }

  lemma PhiBlockCompleted(c: Cfg, irdst: Var, t: Tables, fix: Versions, n: Loc, b: AssignBlk, b': AssignBlk)
    requires HasTraces(c, irdst, t) && HasTraces(c, irdst, Complete(t, fix)) && n in c.blocks
    requires PhiBlock(c, irdst, t, n, b) && Simplified(b, Renaming(fix), b')
    requires forall v :: v in Phis(t.phi, n) ==> v in Entry(t, n)
    ensures PhiBlock(c, irdst, Complete(t, fix), n, b')
  {
    hide IsPhi, Simplified, StepVersions, PhiBlock;
    var t' := Complete(t, fix);
    forall v | v in Phis(t'.phi, n)
      ensures Id(Current(Entry(t', n), v)) in b'
      ensures Current(Entry(t', n), v) == Current(Entry(t, n), v)
      ensures IsPhi(b'[Id(Current(Entry(t', n), v))], Sources(c, t', n, v))
    {
      PhiCompleted(c, irdst, t, fix, n, b, b', v);
    }
    forall k | k in b'
      ensures exists v :: v in Phis(t'.phi, n) && k == Id(Current(Entry(t', n), v))
    {
      var v := PhiKeyCompleted(c, irdst, t, fix, n, b, b', k);
      assert k == Id(Current(Entry(t', n), v));
    }
    PhiBlockIntro(c, irdst, t', n, b');
  }

  lemma PhiBlockIntro(c: Cfg, irdst: Var, t: Tables, n: Loc, a: AssignBlk)
    requires HasTraces(c, irdst, t) && n in c.blocks
    requires forall v :: v in Phis(t.phi, n) ==> Id(Current(Entry(t, n), v)) in a
    requires forall v :: v in Phis(t.phi, n) ==> IsPhi(a[Id(Current(Entry(t, n), v))], Sources(c, t, n, v))
    requires forall k :: k in a ==> exists v :: v in Phis(t.phi, n) && k == Id(Current(Entry(t, n), v))
    ensures PhiBlock(c, irdst, t, n, a)
  {
    hide IsPhi, HasTraces, Sources;
  }

  /** What the last step makes of the block of n. */
  ghost predicate FixedBlock(head: Loc, fix: Versions, n: Loc, b: Block, b': Block) {
    if n == head && fix != map[] then
      |b'| == |b| + 1 && b'[0] == InitBlock(fix) && SimplifiedBlock(b, Renaming(fix), b'[1..])
    else SimplifiedBlock(b, Renaming(fix), b')
  }

  lemma RenamedBlock(g: Conversion, lhs: Versions, n: Loc)
    requires Renamed(g, lhs) && n in g.c.blocks
    ensures n in g.final && HasTraces(g.c, g.irdst, g.t) && SsaBlock(g.c, g.irdst, g.t, n, g.final[n])
    ensures PlainBlock(g.c.blocks[n]) && Increasing(g.irdst, g.c.blocks[n], g.t.trace[n])
    ensures n == g.c.head ==> Entry(g.t, n) == map[]
    ensures forall v :: v in Phis(g.t.phi, n) ==> v in Entry(g.t, n)
  {
    hide SsaBlock, PhiClosed, SingleAssignment, Fresh, Increasing;
    TablesPhisVersioned(g.c, g.irdst, g.idoms, g.t);
  }

  lemma SsaBlockCompleted(g: Conversion, lhs: Versions, fix: Versions, n: Loc, b': Block)
    requires Renamed(g, lhs) && n in g.c.blocks && n in g.final && g.irdst !in fix
    requires HasTraces(g.c, g.irdst, Complete(g.t, fix))
    requires FixedBlock(g.c.head, fix, n, g.final[n], b')
    ensures SsaBlock(g.c, g.irdst, Complete(g.t, fix), n, b')
  {
    hide Renamed, BlockRenamed, Increasing, Simplified, PhiBlock, InitBlock, PlainBlock;
    RenamedBlock(g, lhs, n);
    var t' := Complete(g.t, fix);
    var b, pre, pre' := g.final[n], PrefixLength(g.c, g.t, n), PrefixLength(g.c, t', n);
    CompletedExit(g.t, fix, n);
    assert pre == 0 ==> b[pre..] == b;
    assert SimplifiedBlock(b[pre..], Renaming(fix), b'[pre'..]);
    BodyCompleted(g.irdst, g.c.blocks[n], b[pre..], b'[pre'..], g.t.trace[n], fix);
    if n == g.c.head {
      assert fix + map[] == fix;
    } else if pre == 1 {
      PhiBlockCompleted(g.c, g.irdst, g.t, fix, n, b[0], b'[0]);
    }
  }

  /** Renaming, phis and initial versions together make the SSA form. */
  lemma CompletedIsSsa(g: Conversion, lhs: Versions, fix: Versions, final': map<Loc, Block>)
    requires Renamed(g, lhs) && HasTraces(g.c, g.irdst, g.t) && Fixes(g, lhs, fix)
    requires final'.Keys == g.final.Keys
    requires forall n :: n in g.final ==> FixedBlock(g.c.head, fix, n, g.final[n], final'[n])
    ensures IsSsa(g.(t := Complete(g.t, fix), final := final'))
  {
    hide SsaBlock, PhiClosed, ImmediateDominators, StepVersions;
    var g' := g.(t := Complete(g.t, fix), final := final');
    TablesCompleted(g.c, g.irdst, g.idoms, g.t, fix);
    TablesPhisVersioned(g.c, g.irdst, g.idoms, g.t);
    SingleCompleted(g.c, g.irdst, g.t, lhs, fix);
    forall n | n in final'
      ensures SsaBlock(g.c, g.irdst, g'.t, n, final'[n])
    {
      SsaBlockCompleted(g, lhs, fix, n, final'[n]);
    }
    forall n, v, p | v in Phis(g.t.phi, n) && Edge(g.c.flow, p, n) && p in g.c.blocks
      ensures v in Exit(g'.t, p)
    {
      CompletedExit(g.t, fix, p);
    }
    assert PhiArgumentsVersioned(g') && FinalBlocks(g');
    hide CompleteCfg, VersionTables, SingleAssignment, FinalBlocks, PhiArgumentsVersioned, HasTraces;
  }
}
