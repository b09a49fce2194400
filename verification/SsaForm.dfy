/**
 What a program in SSA form is, relative to the program it was built from, and what
 that form guarantees: the meaning of every path, single assignment, and that the
 unordered arguments of a phi still determine one source per predecessor
 (miasm/analysis/ssa.py).
 */
module SsaForm {
  import opened Paths
  import opened Dominators
  import opened Ir

  /** The current version of each variable that has one. */
  type Versions = map<Var, nat>

  function Current(ver: Versions, v: Var): (r: Ident) {
    if v in ver then Ssa(v, ver[v]) else Plain(v)
  }

  function Renaming(ver: Versions): (r: map<Ident, Ident>) {
    map v | v in ver :: Plain(v) := Ssa(v, ver[v])
  }

  function Rename(e: Expr, ver: Versions): (r: Expr) {
    Replace(e, Renaming(ver))
  }

  ghost predicate Same(a: Versions, b: Versions, v: Var) {
    Current(a, v) == Current(b, v)
  }

  /** A first transform starts from identifiers that are no SSA version. */
  ghost predicate PlainExpr(e: Expr) {
    forall id :: id in Ids(e) ==> id.Plain?
  }

  ghost predicate PlainAssign(a: AssignBlk) {
    && WellFormedAssign(a)
    && forall d :: d in a ==> PlainExpr(d) && PlainExpr(a[d]) && !IsPhiOp(a[d])
  }

  const PHI := "Phi"

  predicate IsPhiOp(e: Expr) {
    e.Op? && e.op == PHI
  }

  // ----- one assignment block -----

  /** The variables an assignment block gives a new version to. */
  function Defined(irdst: Var, a: AssignBlk): (r: set<Var>) {
    set d | d in a && d.Id? && d.id.Plain? && d.id.v != irdst :: d.id.v
  }

  function RenamedDst(irdst: Var, d: Expr, before: Versions, after: Versions): (r: Expr) {
    if d.Id? && d.id.v != irdst then Id(Current(after, d.id.v))
    else if d.Id? then d
    else Rename(d, before)
  }

  ghost predicate StepVersions(irdst: Var, a: AssignBlk, before: Versions, after: Versions) {
    && irdst !in before && irdst !in after
    && (forall v :: v in Defined(irdst, a) ==> v in after)
    && (forall v :: v !in Defined(irdst, a) ==> Same(before, after, v))
  }

  /** b is a with its sources read before and its destinations written after;
      only assignments of a cell to itself may be missing. */
  ghost predicate AssignRenamed(irdst: Var, a: AssignBlk, b: AssignBlk, before: Versions, after: Versions) {
    && (forall d :: d in a && RenamedDst(irdst, d, before, after) in b ==>
          b[RenamedDst(irdst, d, before, after)] == Rename(a[d], before))
    && (forall d :: d in a && RenamedDst(irdst, d, before, after) !in b ==>
          d == a[d] && (d.Mem? || d == Id(Plain(irdst))))
    && (forall k :: k in b ==> exists d :: d in a && k == RenamedDst(irdst, d, before, after))
  }

  /** The SSA state holds, under its current version, the value of every variable. */
  ghost predicate Related<M>(s: State<M>, t: State<M>, ver: Versions) {
    s.mem == t.mem && forall v :: s.env(Plain(v)) == t.env(Current(ver, v))
  }

  lemma EvalRename<M>(m: Machine<M>, e: Expr, ver: Versions, s: State<M>, t: State<M>)
    requires PlainExpr(e) && Related(s, t, ver)
    ensures Eval(m, Rename(e, ver), t) == Eval(m, e, s)
  {
    EvalReplace(m, e, Renaming(ver), s, t);
  }

  lemma RenameInjective(a: Expr, b: Expr, ver: Versions)
    requires PlainExpr(a) && PlainExpr(b) && Rename(a, ver) == Rename(b, ver)
    ensures a == b
  {
    ReplaceInjective(a, b, Renaming(ver));
  }

  lemma RenamedWrites<M>(
    m: Machine<M>, irdst: Var, a: AssignBlk, b: AssignBlk, before: Versions, after: Versions, s: State<M>, t: State<M>)
    requires PlainAssign(a) && AssignRenamed(irdst, a, b, before, after) && Related(s, t, before)
    ensures Writes(m, a, s) == Writes(m, b, t)
  {
    hide AssignRenamed, PlainAssign, Related;
    forall d | d in a && d.Mem? && d != a[d]
      ensures Write(Eval(m, d.ptr, s), d.size, Eval(m, a[d], s)) in Writes(m, b, t)
    {
      WriteRenamed(m, irdst, a, b, before, after, s, t, d);
    }
    forall k | k in b && k.Mem? && k != b[k]
      ensures Write(Eval(m, k.ptr, t), k.size, Eval(m, b[k], t)) in Writes(m, a, s)
    {
      WriteOrigin(m, irdst, a, b, before, after, s, t, k);
    }
  }

  lemma WriteRenamed<M>(
    m: Machine<M>, irdst: Var, a: AssignBlk, b: AssignBlk, before: Versions, after: Versions, s: State<M>, t: State<M>, d: Expr)
    requires PlainAssign(a) && AssignRenamed(irdst, a, b, before, after) && Related(s, t, before)
    requires d in a && d.Mem? && d != a[d]
    ensures Write(Eval(m, d.ptr, s), d.size, Eval(m, a[d], s)) in Writes(m, b, t)
  {
    var k := RenamedDst(irdst, d, before, after);
    assert k in b && b[k] == Rename(a[d], before);
    if k == b[k] { RenameInjective(d, a[d], before); }
    EvalRename(m, d.ptr, before, s, t);
    EvalRename(m, a[d], before, s, t);
  }

  lemma WriteOrigin<M>(
    m: Machine<M>, irdst: Var, a: AssignBlk, b: AssignBlk, before: Versions, after: Versions, s: State<M>, t: State<M>, k: Expr)
    requires PlainAssign(a) && AssignRenamed(irdst, a, b, before, after) && Related(s, t, before)
    requires k in b && k.Mem? && k != b[k]
    ensures Write(Eval(m, k.ptr, t), k.size, Eval(m, b[k], t)) in Writes(m, a, s)
  {
    var d :| d in a && k == RenamedDst(irdst, d, before, after);
    EvalRename(m, d.ptr, before, s, t);
    EvalRename(m, a[d], before, s, t);
  }

  /** The version written by the renamed block holds what the block assigns. */
  lemma RenamedAssigned<M>(
    m: Machine<M>, irdst: Var, a: AssignBlk, b: AssignBlk, before: Versions, after: Versions, s: State<M>, t: State<M>, v: Var)
    requires PlainAssign(a) && AssignRenamed(irdst, a, b, before, after)
    requires StepVersions(irdst, a, before, after) && Related(s, t, before) && Id(Plain(v)) in a
    ensures Exec(m, a, s).env(Plain(v)) == Exec(m, b, t).env(Current(after, v))
  {
    var d, k := Id(Plain(v)), Id(Current(after, v));
    assert k == RenamedDst(irdst, d, before, after);
    EvalRename(m, a[d], before, s, t);
  }

  /** The renamed block leaves alone the version of a variable the block does not assign. */
  lemma NotWritten(irdst: Var, a: AssignBlk, b: AssignBlk, before: Versions, after: Versions, v: Var)
    requires PlainAssign(a) && AssignRenamed(irdst, a, b, before, after) && StepVersions(irdst, a, before, after)
    requires Id(Plain(v)) !in a
    ensures Id(Current(after, v)) !in b && Same(before, after, v)
  {
    assert v !in Defined(irdst, a);
    forall d | d in a
      ensures RenamedDst(irdst, d, before, after) != Id(Current(after, v))
    {
      assert PlainExpr(d);
      if d.Id? { assert d.id in Ids(d); }
    }
  }

  /** Parallel semantics survives renaming, memory destinations included. */
  lemma ExecRenamed<M>(
    m: Machine<M>, irdst: Var, a: AssignBlk, b: AssignBlk, before: Versions, after: Versions, s: State<M>, t: State<M>)
    requires PlainAssign(a) && AssignRenamed(irdst, a, b, before, after)
    requires StepVersions(irdst, a, before, after) && Related(s, t, before)
    ensures Related(Exec(m, a, s), Exec(m, b, t), after)
  {
    RenamedWrites(m, irdst, a, b, before, after, s, t);
    hide AssignRenamed, StepVersions, PlainAssign;
    forall v: Var
      ensures Exec(m, a, s).env(Plain(v)) == Exec(m, b, t).env(Current(after, v))
    {
      if Id(Plain(v)) in a {
        RenamedAssigned(m, irdst, a, b, before, after, s, t, v);
      } else {
        NotWritten(irdst, a, b, before, after, v);
      }
    }
  }

  /** The versions a renamed block writes are the current ones of the variables it defines. */
  lemma RenamedKey(irdst: Var, a: AssignBlk, b: AssignBlk, before: Versions, after: Versions, v: Var, k: nat)
    requires PlainAssign(a) && AssignRenamed(irdst, a, b, before, after) && StepVersions(irdst, a, before, after)
    ensures Id(Ssa(v, k)) in b <==> v in Defined(irdst, a) && Current(after, v) == Ssa(v, k)
  {
    if Id(Ssa(v, k)) in b {
      var d :| d in a && Id(Ssa(v, k)) == RenamedDst(irdst, d, before, after);
      if d.Id? { assert d.id in Ids(d); }
    }
    if v in Defined(irdst, a) && Current(after, v) == Ssa(v, k) {
      assert RenamedDst(irdst, Id(Plain(v)), before, after) == Id(Ssa(v, k));
    }
  }

  // ----- one block -----

  /** trace[i] holds the versions current before the i-th assignment block. */
  ghost predicate BlockRenamed(irdst: Var, orig: Block, body: Block, trace: seq<Versions>) {
    && |body| == |orig| && |trace| == |orig| + 1
    && (forall i, j :: 0 <= i < |orig| && j == i + 1 ==> AssignRenamed(irdst, orig[i], body[i], trace[i], trace[j]))
    && BlockVersions(irdst, orig, trace)
  }

  ghost predicate BlockVersions(irdst: Var, orig: Block, trace: seq<Versions>) {
    && |trace| == |orig| + 1
    && (forall i, j :: 0 <= i < |orig| && j == i + 1 ==> StepVersions(irdst, orig[i], trace[i], trace[j]))
  }

  ghost predicate PlainBlock(orig: Block) {
    forall i :: 0 <= i < |orig| ==> PlainAssign(orig[i])
  }

  lemma {:induction false} ExecBlockRenamed<M>(
    m: Machine<M>, irdst: Var, orig: Block, body: Block, trace: seq<Versions>, s: State<M>, t: State<M>)
    requires PlainBlock(orig) && BlockRenamed(irdst, orig, body, trace) && Related(s, t, trace[0])
    ensures Related(ExecBlock(m, orig, s), ExecBlock(m, body, t), trace[|orig|])
    decreases |orig|
  {
    if orig != [] {
      ExecRenamed(m, irdst, orig[0], body[0], trace[0], trace[1], s, t);
      ExecBlockRenamed(m, irdst, orig[1..], body[1..], trace[1..], Exec(m, orig[0], s), Exec(m, body[0], t));
    }
  }

  // ----- the whole graph -----

  datatype Cfg = Cfg(flow: Flow<Loc>, head: Loc, blocks: map<Loc, Block>)

  /** A complete graph, all of it reachable from a head without predecessor, not yet in SSA. */
  ghost predicate CompleteCfg(c: Cfg) {
    && Coherent(c.flow) && Prev(c.flow, c.head) == []
    && (forall n :: n in c.blocks <==> Reach(c.flow, c.head, n))
    && (forall a, b :: Edge(c.flow, a, b) ==> a in c.blocks)
    && (forall n :: n in c.blocks ==> PlainBlock(c.blocks[n]))
  }

  /** Where phis are, and the versions current before each assignment block. */
  datatype Tables = Tables(phi: map<Loc, set<Var>>, trace: map<Loc, seq<Versions>>)

  function Phis(phi: map<Loc, set<Var>>, n: Loc): (r: set<Var>) {
    if n in phi then phi[n] else {}
  }

  ghost predicate DefinedInBlock(irdst: Var, b: Block, v: Var) {
    exists i :: 0 <= i < |b| && v in Defined(irdst, b[i])
  }

  /** Block x writes v, by an assignment or by a phi. */
  ghost predicate WritesVar(c: Cfg, irdst: Var, phi: map<Loc, set<Var>>, x: Loc, v: Var)
    requires x in c.blocks
  {
    v in Phis(phi, x) || DefinedInBlock(irdst, c.blocks[x], v)
  }

  /** Blocks that write v put phis for v on their dominance frontier. */
  ghost predicate PhiClosed(c: Cfg, irdst: Var, phi: map<Loc, set<Var>>) {
    forall x, y, v :: x in c.blocks && InFrontier(c.flow, c.head, x, y) && WritesVar(c, irdst, phi, x, v) ==>
      v in Phis(phi, y)
  }

  function Entry(t: Tables, n: Loc): (r: Versions)
    requires n in t.trace && |t.trace[n]| > 0
  {
    t.trace[n][0]
  }

  function Exit(t: Tables, n: Loc): (r: Versions)
    requires n in t.trace && |t.trace[n]| > 0
  {
    t.trace[n][|t.trace[n]| - 1]
  }

  /** A place where v gets a version: the opening of a block (a phi, or the initial
      values at the head), or one of its assignment blocks. */
  ghost predicate IsSite(c: Cfg, irdst: Var, t: Tables, n: Loc, j: nat, v: Var) {
    && n in c.blocks && n in t.trace && j < |t.trace[n]|
    && if j == 0 then (if n == c.head then v in Entry(t, n) else v in Phis(t.phi, n))
       else j <= |c.blocks[n]| && v in Defined(irdst, c.blocks[n][j - 1])
  }

  /** Version k of v is given at that place. */
  ghost predicate GivenAt(c: Cfg, irdst: Var, t: Tables, n: Loc, j: nat, v: Var, k: nat) {
    IsSite(c, irdst, t, n, j, v) && Current(t.trace[n][j], v) == Ssa(v, k)
  }

  /** A block starts from the versions leaving its immediate dominator, its phis excepted. */
  ghost predicate EntryVersions(phis: set<Var>, above: Versions, entry: Versions) {
    && (forall v :: v in phis ==> v in entry)
    && (forall v :: v !in phis ==> Same(above, entry, v))
  }

  ghost predicate HasTraces(c: Cfg, irdst: Var, t: Tables) {
    forall n :: n in c.blocks ==> n in t.trace && BlockVersions(irdst, c.blocks[n], t.trace[n])
  }

  ghost predicate VersionTables(c: Cfg, irdst: Var, idoms: map<Loc, Loc>, t: Tables) {
    && ImmediateDominators(c.flow, c.head, idoms)
    && HasTraces(c, irdst, t)
    && (forall n :: n in idoms ==> n in c.blocks && idoms[n] in c.blocks)
    && (forall n :: n in idoms ==> EntryVersions(Phis(t.phi, n), Exit(t, idoms[n]), Entry(t, n)))
    && PhiClosed(c, irdst, t.phi)
    && c.head !in t.phi && (forall n :: n in t.phi ==> t.phi[n] != {})
  }

  /** No version is given at two places. */
  ghost predicate SingleAssignment(c: Cfg, irdst: Var, t: Tables) {
    forall n, j: nat, n', j': nat, v, k: nat ::
      GivenAt(c, irdst, t, n, j, v, k) && GivenAt(c, irdst, t, n', j', v, k) ==> n == n' && j == j'
  }

  // ----- versions along the dominator tree -----

  /** Without a definition in the block, the version of v is kept. */
  lemma {:induction false} KeptInBlock(irdst: Var, b: Block, trace: seq<Versions>, v: Var, i: nat)
    requires BlockVersions(irdst, b, trace) && i <= |b|
    requires forall k :: 0 <= k < i ==> v !in Defined(irdst, b[k])
    ensures Same(trace[0], trace[i], v)
  {
    if i > 0 {
      KeptInBlock(irdst, b, trace, v, i - 1);
      assert StepVersions(irdst, b[i - 1], trace[i - 1], trace[i]);
    }
  }

  /** A block on the way from a predecessor of n up to the immediate dominator of n
      has n in its frontier. */
  lemma ChainInFrontier(f: Flow<Loc>, head: Loc, i: Loc, x: Loc, p: Loc, n: Loc)
    requires IsImmediateDominator(f, head, i, n) && Reach(f, head, p) && Edge(f, p, n)
    requires Dominates(f, head, x, p) && StrictlyDominates(f, head, i, x) && Reach(f, head, x)
    ensures InFrontier(f, head, x, n)
  {
    if StrictlyDominates(f, head, x, n) {
      DominatesAntisym(f, head, i, x);
    }
    assert FrontierVia(f, head, x, p, n);
  }

  /** Without a phi for v at n, whatever lies between a predecessor of n and the immediate
      dominator of n leaves v alone. */
  lemma {:induction false} CarriedFrom(
    c: Cfg, irdst: Var, idoms: map<Loc, Loc>, t: Tables, n: Loc, p: Loc, x: Loc, v: Var)
    requires CompleteCfg(c) && VersionTables(c, irdst, idoms, t)
    requires n in idoms && v !in Phis(t.phi, n) && p in c.blocks && x in c.blocks && Edge(c.flow, p, n)
    requires Dominates(c.flow, c.head, x, p) && Dominates(c.flow, c.head, idoms[n], x)
    ensures Same(Exit(t, x), Exit(t, idoms[n]), v)
    decreases StrictSet(c.flow, c.head, c.blocks.Keys, x)
  {
    var f, head, i := c.flow, c.head, idoms[n];
    if x != i {
      ChainInFrontier(f, head, i, x, p, n);
      if x == head { HeadDominators(f, head, i); }
      var up := idoms[x];
      assert !WritesVar(c, irdst, t.phi, x, v);
      KeptInBlock(irdst, c.blocks[x], t.trace[x], v, |c.blocks[x]|);
      StrictDominatorsStep(f, head, up, x);
      DominatesTrans(f, head, up, x, p);
      StrictSetShrinks(f, head, c.blocks.Keys, up, x);
      CarriedFrom(c, irdst, idoms, t, n, p, up, v);
    }
  }

  /** Without a phi for v at n, every predecessor of n carries the version n starts from. */
  lemma PredecessorsAgree(c: Cfg, irdst: Var, idoms: map<Loc, Loc>, t: Tables, n: Loc, p: Loc, v: Var)
    requires CompleteCfg(c) && VersionTables(c, irdst, idoms, t)
    requires n in idoms && v !in Phis(t.phi, n) && p in c.blocks && Edge(c.flow, p, n)
    ensures Same(Exit(t, p), Entry(t, n), v)
    ensures Same(Exit(t, p), Exit(t, idoms[n]), v)
  {
    DominatesSelf(c.flow, c.head, p);
    DominatesPredecessor(c.flow, c.head, idoms[n], p, n);
    CarriedFrom(c, irdst, idoms, t, n, p, p, v);
  }

  // ----- where a version comes from -----

  /** The last place of block n, up to i, that gives v a version. */
  lemma {:induction false} LastSite(c: Cfg, irdst: Var, t: Tables, n: Loc, v: Var, i: nat) returns (j: nat)
    requires HasTraces(c, irdst, t) && n in c.blocks && i <= |c.blocks[n]|
    requires exists j: nat :: j <= i && IsSite(c, irdst, t, n, j, v)
    ensures j <= i && IsSite(c, irdst, t, n, j, v) && Same(t.trace[n][j], t.trace[n][i], v)
  {
    if IsSite(c, irdst, t, n, i, v) {
      j := i;
    } else {
      j := LastSite(c, irdst, t, n, v, i - 1);
      assert StepVersions(irdst, c.blocks[n][i - 1], t.trace[n][i - 1], t.trace[n][i]);
    }
  }

  /** A block without a place for v passes its entry version on. */
  lemma NoSiteKeeps(c: Cfg, irdst: Var, t: Tables, n: Loc, v: Var)
    requires HasTraces(c, irdst, t) && n in c.blocks
    requires forall j: nat :: 0 < j ==> !IsSite(c, irdst, t, n, j, v)
    ensures Same(Entry(t, n), Exit(t, n), v)
  {
    forall k | 0 <= k < |c.blocks[n]|
      ensures v !in Defined(irdst, c.blocks[n][k])
    {
      assert !IsSite(c, irdst, t, n, k + 1, v);
    }
    KeptInBlock(irdst, c.blocks[n], t.trace[n], v, |c.blocks[n]|);
  }

  /** A version leaving a block was given at some place, and leaves the block of that place. */
  lemma {:induction false} ExitOrigin(c: Cfg, irdst: Var, idoms: map<Loc, Loc>, t: Tables, n: Loc, v: Var)
      returns (x: Loc, j: nat)
    requires CompleteCfg(c) && VersionTables(c, irdst, idoms, t) && n in c.blocks && v in Exit(t, n)
    ensures GivenAt(c, irdst, t, x, j, v, Exit(t, n)[v])
    ensures x in c.blocks && Same(Exit(t, x), Exit(t, n), v)
    decreases StrictSet(c.flow, c.head, c.blocks.Keys, n)
  {
    if j0: nat :| j0 <= |c.blocks[n]| && IsSite(c, irdst, t, n, j0, v) {
      x := n;
      j := LastSite(c, irdst, t, n, v, |c.blocks[n]|);
    } else {
      NoSiteKeeps(c, irdst, t, n, v);
      assert !IsSite(c, irdst, t, n, 0, v);
      assert n in idoms;
      StrictDominatorsStep(c.flow, c.head, idoms[n], n);
      StrictSetShrinks(c.flow, c.head, c.blocks.Keys, idoms[n], n);
      x, j := ExitOrigin(c, irdst, idoms, t, idoms[n], v);
    }
  }

  // ----- the program in SSA form -----

  /** The versions of v leaving the predecessors of n: the arguments of its phi. */
  ghost function Sources(c: Cfg, t: Tables, n: Loc, v: Var): (r: set<Ident>)
    requires forall p :: p in c.blocks ==> p in t.trace && |t.trace[p]| > 0
  {
    set p | p in c.blocks && p in Prev(c.flow, n) :: Current(Exit(t, p), v)
  }

  ghost predicate IsPhi(e: Expr, sources: set<Ident>) {
    && IsPhiOp(e)
    && (forall i :: 0 <= i < |e.args| ==> e.args[i].Id? && e.args[i].id in sources)
    && (forall id :: id in sources ==> Id(id) in e.args)
  }

  /** The block of phis: one destination per variable, the unordered sources as arguments. */
  ghost predicate PhiBlock(c: Cfg, irdst: Var, t: Tables, n: Loc, a: AssignBlk)
    requires HasTraces(c, irdst, t) && n in c.blocks
  {
    && (forall d :: d in a <==> exists v :: v in Phis(t.phi, n) && d == Id(Current(Entry(t, n), v)))
    && (forall v :: v in Phis(t.phi, n) && Id(Current(Entry(t, n), v)) in a ==>
          IsPhi(a[Id(Current(Entry(t, n), v))], Sources(c, t, n, v)))
  }

  /** The block giving their first version to variables that reach a phi unassigned. */
  function InitBlock(ver: Versions): (r: AssignBlk) {
    map v | v in ver :: Id(Ssa(v, ver[v])) := Id(Plain(v))
  }

  /** The length of what SSA puts before the renamed body of a block. */
  function PrefixLength(c: Cfg, t: Tables, n: Loc): (r: nat)
    requires n in t.trace && |t.trace[n]| > 0
  {
    if n == c.head then (if Entry(t, n) == map[] then 0 else 1) else if n in t.phi then 1 else 0
  }

  ghost predicate SsaBlock(c: Cfg, irdst: Var, t: Tables, n: Loc, b: Block)
    requires HasTraces(c, irdst, t) && n in c.blocks
  {
    var k := PrefixLength(c, t, n);
    && k <= |b| && BlockRenamed(irdst, c.blocks[n], b[k..], t.trace[n])
    && (k == 1 ==> if n == c.head then b[0] == InitBlock(Entry(t, n)) else PhiBlock(c, irdst, t, n, b[0]))
  }

  /** A conversion: the program given, the program obtained, and the tables relating them. */
  datatype Conversion = Conversion(
    c: Cfg, irdst: Var, idoms: map<Loc, Loc>, t: Tables, final: map<Loc, Block>)

  ghost predicate FinalBlocks(g: Conversion)
    requires HasTraces(g.c, g.irdst, g.t)
  {
    && (forall n :: n in g.final <==> n in g.c.blocks)
    && (forall n :: n in g.final ==> SsaBlock(g.c, g.irdst, g.t, n, g.final[n]))
  }

  /** Every argument of a phi is a version, never the unversioned variable. */
  ghost predicate PhiArgumentsVersioned(g: Conversion)
    requires HasTraces(g.c, g.irdst, g.t)
  {
    forall n, v, p :: v in Phis(g.t.phi, n) && Edge(g.c.flow, p, n) && p in g.c.blocks ==> v in Exit(g.t, p)
  }

  /** g.final is g.c in SSA form. */
  ghost predicate IsSsa(g: Conversion) {
    && CompleteCfg(g.c)
    && VersionTables(g.c, g.irdst, g.idoms, g.t)
    && SingleAssignment(g.c, g.irdst, g.t)
    && FinalBlocks(g)
    && PhiArgumentsVersioned(g)
  }

  // ----- single assignment, on the program itself -----

  ghost predicate Assigns(b: Block, id: Ident) {
    exists i :: 0 <= i < |b| && Id(id) in b[i]
  }

  /** What precedes the body of a block gives the versions of its opening place. */
  lemma PrefixKey(g: Conversion, n: Loc, v: Var, k: nat)
    requires IsSsa(g) && n in g.final
    ensures n in g.t.trace && |g.t.trace[n]| > 0
    ensures PrefixLength(g.c, g.t, n) == 1 ==> |g.final[n]| > 0
    ensures PrefixLength(g.c, g.t, n) == 1 ==>
      (Id(Ssa(v, k)) in g.final[n][0] <==> GivenAt(g.c, g.irdst, g.t, n, 0, v, k))
    ensures PrefixLength(g.c, g.t, n) == 0 ==> !GivenAt(g.c, g.irdst, g.t, n, 0, v, k)
  {
    hide PhiArgumentsVersioned, SingleAssignment, PhiClosed, IsImmediateDominator, BlockRenamed;
    var b, entry := g.final[n], Entry(g.t, n);
    assert SsaBlock(g.c, g.irdst, g.t, n, b);
    if PrefixLength(g.c, g.t, n) == 1 && n != g.c.head {
      assert PhiBlock(g.c, g.irdst, g.t, n, b[0]);
      assert EntryVersions(Phis(g.t.phi, n), Exit(g.t, g.idoms[n]), entry);
      if Id(Ssa(v, k)) in b[0] {
        var v' :| v' in Phis(g.t.phi, n) && Id(Ssa(v, k)) == Id(Current(entry, v'));
      }
    }
  }

  /** The body of a block gives the versions of its assignment blocks. */
  lemma BodyKey(g: Conversion, n: Loc, j: nat, v: Var, k: nat)
    requires IsSsa(g) && n in g.final && n in g.c.blocks && 0 < j <= |g.c.blocks[n]|
    ensures n in g.t.trace && |g.t.trace[n]| > 0
    ensures PrefixLength(g.c, g.t, n) + j <= |g.final[n]|
    ensures Id(Ssa(v, k)) in g.final[n][PrefixLength(g.c, g.t, n) + j - 1] <==> GivenAt(g.c, g.irdst, g.t, n, j, v, k)
  {
    hide PhiArgumentsVersioned, SingleAssignment, PhiClosed, ImmediateDominators, PhiBlock;
    var pre, b, trace := PrefixLength(g.c, g.t, n), g.final[n], g.t.trace[n];
    assert SsaBlock(g.c, g.irdst, g.t, n, b);
    var a, body := g.c.blocks[n][j - 1], b[pre..];
    assert body[j - 1] == b[pre + j - 1];
    assert AssignRenamed(g.irdst, a, body[j - 1], trace[j - 1], trace[j]);
    assert PlainBlock(g.c.blocks[n]) && PlainAssign(a);
    RenamedKey(g.irdst, a, body[j - 1], trace[j - 1], trace[j], v, k);
  }

  /** The place of the tables an assignment block of the final program stands for. */
  function PlaceOf(g: Conversion, n: Loc, i: nat): (j: nat)
    requires n in g.t.trace && |g.t.trace[n]| > 0
  {
    if i < PrefixLength(g.c, g.t, n) then 0 else i - PrefixLength(g.c, g.t, n) + 1
  }

  lemma FinalLength(g: Conversion, n: Loc)
    requires IsSsa(g) && n in g.final
    ensures n in g.c.blocks && n in g.t.trace && |g.t.trace[n]| == |g.c.blocks[n]| + 1
    ensures |g.final[n]| == PrefixLength(g.c, g.t, n) + |g.c.blocks[n]|
  {
    hide PhiArgumentsVersioned, SingleAssignment, PhiClosed, ImmediateDominators;
    assert SsaBlock(g.c, g.irdst, g.t, n, g.final[n]);
  }

  lemma WriteIsGiven(g: Conversion, n: Loc, i: nat, v: Var, k: nat)
    requires IsSsa(g) && n in g.final && i < |g.final[n]| && Id(Ssa(v, k)) in g.final[n][i]
    ensures n in g.t.trace && |g.t.trace[n]| > 0
    ensures GivenAt(g.c, g.irdst, g.t, n, PlaceOf(g, n, i), v, k)
  {
    hide IsSsa, GivenAt;
    FinalLength(g, n);
    if i < PrefixLength(g.c, g.t, n) {
      PrefixKey(g, n, v, k);
    } else {
      BodyKey(g, n, PlaceOf(g, n, i), v, k);
    }
  }

  lemma GivenIsWritten(g: Conversion, n: Loc, j: nat, v: Var, k: nat)
    requires IsSsa(g) && n in g.final && GivenAt(g.c, g.irdst, g.t, n, j, v, k)
    ensures Assigns(g.final[n], Ssa(v, k))
  {
    hide IsSsa;
    FinalLength(g, n);
    if j == 0 {
      PrefixKey(g, n, v, k);
      assert PrefixLength(g.c, g.t, n) == 1;
    } else {
      BodyKey(g, n, j, v, k);
    }
  }

  /** Every SSA version is assigned at exactly one place of the program. */
  lemma AssignedOnce(g: Conversion, n: Loc, i: nat, n': Loc, i': nat, v: Var, k: nat)
    requires IsSsa(g)
    requires n in g.final && i < |g.final[n]| && Id(Ssa(v, k)) in g.final[n][i]
    requires n' in g.final && i' < |g.final[n']| && Id(Ssa(v, k)) in g.final[n'][i']
    ensures n == n' && i == i'
  {
    hide VersionTables, CompleteCfg, FinalBlocks, PhiArgumentsVersioned, GivenAt;
    WriteIsGiven(g, n, i, v, k);
    WriteIsGiven(g, n', i', v, k);
    assert SingleAssignment(g.c, g.irdst, g.t);
  }

  // ----- the source of a phi for each predecessor -----

  /** Going backwards from p, the first block that assigns one of the arguments assigns s. */
  ghost predicate PhiSource(f: Flow<Loc>, final: map<Loc, Block>, args: set<Ident>, p: Loc, s: Ident) {
    exists w :: BackwardTo(f, final, args, p, s, w)
  }

  ghost predicate BackwardTo(
    f: Flow<Loc>, final: map<Loc, Block>, args: set<Ident>, p: Loc, s: Ident, w: seq<Loc>)
  {
    && IsPath(f, w) && w[|w| - 1] == p && s in args
    && (forall i :: 0 <= i < |w| ==> w[i] in final)
    && Assigns(final[w[0]], s)
    && (forall i, x :: 0 < i < |w| && x in args ==> !Assigns(final[w[i]], x))
  }

  lemma FinalTraces(g: Conversion)
    requires IsSsa(g)
    ensures CompleteCfg(g.c) && VersionTables(g.c, g.irdst, g.idoms, g.t) && HasTraces(g.c, g.irdst, g.t)
    ensures SingleAssignment(g.c, g.irdst, g.t) && FinalBlocks(g) && PhiArgumentsVersioned(g)
  {}

  /** Version k of v leaves block y. */
  ghost predicate Leaves(g: Conversion, y: Loc, v: Var, k: nat) {
    y in g.t.trace && |g.t.trace[y]| > 0 && Current(Exit(g.t, y), v) == Ssa(v, k)
  }

  /** A block that does not assign the version leaving it received it from any predecessor. */
  lemma BackwardStep(g: Conversion, y: Loc, p: Loc, v: Var, k: nat)
    requires IsSsa(g) && y in g.final && Leaves(g, y, v, k)
    requires !Assigns(g.final[y], Ssa(v, k))
    ensures y != g.c.head
    ensures Edge(g.c.flow, p, y) ==> p in g.final && Leaves(g, p, v, k)
  {
    if j0: nat :| j0 <= |g.c.blocks[y]| && IsSite(g.c, g.irdst, g.t, y, j0, v) {
      var j := LastSite(g.c, g.irdst, g.t, y, v, |g.c.blocks[y]|);
      GivenIsWritten(g, y, j, v, k);
    }
    NoSiteKeeps(g.c, g.irdst, g.t, y, v);
    assert !IsSite(g.c, g.irdst, g.t, y, 0, v);
    if Edge(g.c.flow, p, y) {
      PredecessorsAgree(g.c, g.irdst, g.idoms, g.t, y, p, v);
    }
  }

  lemma {:induction false} BackwardCarries(g: Conversion, w: seq<Loc>, v: Var, k: nat, i: nat)
    requires IsSsa(g)
    requires IsPath(g.c.flow, w) && (forall j :: 0 <= j < |w| ==> w[j] in g.final) && i < |w|
    requires Leaves(g, w[|w| - 1], v, k)
    requires forall j :: 0 < j < |w| ==> !Assigns(g.final[w[j]], Ssa(v, k))
    ensures Leaves(g, w[i], v, k)
    decreases |w| - i
  {
    hide IsSsa, Leaves, Assigns;
    if i < |w| - 1 {
      BackwardCarries(g, w, v, k, i + 1);
      assert Edge(g.c.flow, w[i], w[i + 1]);
      BackwardStep(g, w[i + 1], w[i], v, k);
    }
  }

  /** A version assigned by block x that leaves some block is the version leaving x. */
  lemma AssignedAndLeaving(g: Conversion, x: Loc, q: Loc, v: Var, k: nat)
    requires IsSsa(g) && x in g.final && q in g.final
    requires Assigns(g.final[x], Ssa(v, k)) && Leaves(g, q, v, k)
    ensures Leaves(g, x, v, k)
  {
    var y, j := ExitOrigin(g.c, g.irdst, g.idoms, g.t, q, v);
    var i :| 0 <= i < |g.final[x]| && Id(Ssa(v, k)) in g.final[x][i];
    WriteIsGiven(g, x, i, v, k);
    assert SingleAssignment(g.c, g.irdst, g.t);
  }

  /** The unordered arguments lose nothing: whatever the search from a predecessor finds is
      the version leaving that predecessor. */
  lemma PhiSourceIsExit(g: Conversion, n: Loc, v: Var, p: Loc, s: Ident)
    requires IsSsa(g) && n in g.final && v in Phis(g.t.phi, n) && Edge(g.c.flow, p, n) && HasTraces(g.c, g.irdst, g.t)
    requires PhiSource(g.c.flow, g.final, Sources(g.c, g.t, n, v), p, s)
    ensures Leaves(g, p, v, s.index) && s == Ssa(v, s.index)
  {
    var args := Sources(g.c, g.t, n, v);
    var w :| BackwardTo(g.c.flow, g.final, args, p, s, w);
    var k, q, k' := SourceVersions(g, n, v, p, s);
    BackwardCarries(g, w, v, k, 0);
    AssignedAndLeaving(g, w[0], q, v, k');
  }

  /** The version leaving p is a source, and so each source is a version leaving a predecessor. */
  lemma SourceVersions(g: Conversion, n: Loc, v: Var, p: Loc, s: Ident) returns (k: nat, q: Loc, k': nat)
    requires IsSsa(g) && n in g.final && v in Phis(g.t.phi, n) && Edge(g.c.flow, p, n) && HasTraces(g.c, g.irdst, g.t)
    requires s in Sources(g.c, g.t, n, v)
    ensures p in g.final && Leaves(g, p, v, k) && Ssa(v, k) in Sources(g.c, g.t, n, v)
    ensures q in g.final && Leaves(g, q, v, k') && s == Ssa(v, k')
  {
    hide SingleAssignment, PhiClosed, ImmediateDominators, SsaBlock;
    assert p in Prev(g.c.flow, n) && p in g.c.blocks;
    k := Exit(g.t, p)[v];
    q :| q in g.c.blocks && q in Prev(g.c.flow, n) && s == Current(Exit(g.t, q), v);
    assert Edge(g.c.flow, q, n);
    k' := Exit(g.t, q)[v];
  }
}
