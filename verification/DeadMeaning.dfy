/**
 Removing useless assignments preserves behaviour (miasm/analysis/data_flow.py, DeadRemoval):
 what useful means, and the simulation between the original program and the pruned one.
 */
module DeadMeaning {
  import opened Paths
  import opened Ir
  import opened SubExprs
  import opened DataFlow

  // ----- what an assignment reads -----

  lemma IdsRead(e: Expr)
    ensures forall id :: id in Ids(e) ==> Id(id) in GetR(e)
  {
    forall id | id in Ids(e)
      ensures Id(id) in GetR(e)
    {
      IdParts(id, e);
      ReadParts(Id(id), e);
    }
  }

  /** What the assignment of src to x reads: the pointer of a written cell counts. */
  function ReadsOf(x: Expr, src: Expr): (r: set<Expr>) {
    GetR(src) + if x.Mem? then GetR(x.ptr) else {}
  }

  // ----- useful assignments -----

  /** One destination of one assignment block. */
  datatype Node = Node(loc: Loc, index: nat, lval: Expr)

  /** What the analysis is told of the program: its destination register and the registers
      that matter after each block without successor. */
  datatype Exits = Exits(irdst: Var, outRegs: Loc -> set<Expr>)

  ghost predicate IsNode(blocks: map<Loc, Block>, a: Node) {
    DefinesAt(blocks, a.loc, a.index, a.lval)
  }

  function IsFunctionCall(e: Expr): (r: bool) {
    e.Op? && "call" <= e.op
  }

  predicate IsUnkillable(irdst: Var, lval: Expr, rval: Expr) {
    || lval.Mem?
    || lval == Id(Plain(irdst))
    || (lval.Id? && lval.id.Plain? && lval.id.v.name == "exception_flags")
    || IsFunctionCall(rval)
  }

  /** The assignment writes memory, the destination register or the exception flags, or calls a function. */
  ghost predicate HasEffect(irdst: Var, lval: Expr, rval: Expr) {
    || lval.Mem?
    || lval == Id(Plain(irdst))
    || (exists size :: lval == Id(Plain(Var("exception_flags", size))))
    || (rval.Op? && |rval.op| >= 4 && rval.op[..4] == "call")
  }

  lemma UnkillableHasEffect(irdst: Var, lval: Expr, rval: Expr)
    ensures IsUnkillable(irdst, lval, rval) <==> HasEffect(irdst, lval, rval)
  {
    if lval.Id? && lval.id.Plain? && lval.id.v.name == "exception_flags" {
      assert lval == Id(Plain(Var("exception_flags", lval.id.v.size)));
    }
  }

  ghost predicate HasMissing(f: Flow<Loc>, blocks: map<Loc, Block>, n: Loc) {
    exists k :: k in Next(f, n) && k !in blocks
  }

  /** The value of x at the end of block n matters outside: everything does on an exit to a
      missing block, the out registers do on a leaf. */
  ghost predicate Demanded(f: Flow<Loc>, blocks: map<Loc, Block>, e: Exits, n: Loc, x: Expr) {
    && n in blocks
    && (HasMissing(f, blocks, n) || (Next(f, n) == [] && x in e.outRegs(n)))
  }

  ghost predicate DemandedFrom(f: Flow<Loc>, blocks: map<Loc, Block>, e: Exits, a: Node, n: Loc) {
    Demanded(f, blocks, e, n, a.lval) && Carried(f, blocks, a.lval, a.loc, a.index, n, |blocks[n]|)
  }

  ghost predicate IsRoot(f: Flow<Loc>, blocks: map<Loc, Block>, e: Exits, a: Node) {
    && IsNode(blocks, a)
    && (IsUnkillable(e.irdst, a.lval, blocks[a.loc][a.index][a.lval]) || exists n :: DemandedFrom(f, blocks, e, a, n))
  }

  /** Assignment b may read the value assigned by a. */
  ghost predicate Depends(f: Flow<Loc>, blocks: map<Loc, Block>, a: Node, b: Node) {
    && IsNode(blocks, b)
    && a.lval in ReadsOf(b.lval, blocks[b.loc][b.index][b.lval])
    && Carried(f, blocks, a.lval, a.loc, a.index, b.loc, b.index)
  }

  /** A chain of dependencies from a to an assignment that must stay. */
  ghost predicate UsefulChain(f: Flow<Loc>, blocks: map<Loc, Block>, e: Exits, a: Node, w: seq<Node>) {
    && |w| > 0 && w[0] == a && IsRoot(f, blocks, e, w[|w| - 1])
    && (forall i, j :: 0 <= i < |w| - 1 && j == i + 1 ==> Depends(f, blocks, w[i], w[j]))
  }

  ghost predicate IsUseful(f: Flow<Loc>, blocks: map<Loc, Block>, e: Exits, a: Node) {
    exists w :: UsefulChain(f, blocks, e, a, w)
  }

  ghost predicate AreUseful(f: Flow<Loc>, blocks: map<Loc, Block>, e: Exits, useful: set<Node>) {
    forall a :: a in useful <==> IsUseful(f, blocks, e, a)
  }

  lemma RootUseful(f: Flow<Loc>, blocks: map<Loc, Block>, e: Exits, a: Node)
    requires IsRoot(f, blocks, e, a)
    ensures IsUseful(f, blocks, e, a)
  {
    assert UsefulChain(f, blocks, e, a, [a]);
  }

  lemma DependencyUseful(f: Flow<Loc>, blocks: map<Loc, Block>, e: Exits, a: Node, b: Node)
    requires Depends(f, blocks, a, b) && IsUseful(f, blocks, e, b)
    ensures IsUseful(f, blocks, e, a)
  {
    hide Depends, IsRoot;
    var w :| UsefulChain(f, blocks, e, b, w);
    assert UsefulChain(f, blocks, e, a, [a] + w);
  }

  // ----- the pruned program -----

  ghost function PrunedAssign(n: Loc, i: nat, a: AssignBlk, useful: set<Node>): (r: AssignBlk) {
    map x | x in a && Node(n, i, x) in useful :: a[x]
  }

  ghost function PrunedBlock(n: Loc, b: Block, useful: set<Node>): (r: Block) {
    seq(|b|, i requires 0 <= i < |b| => PrunedAssign(n, i, b[i], useful))
  }

  ghost function Pruned(blocks: map<Loc, Block>, useful: set<Node>): (r: map<Loc, Block>) {
    map n | n in blocks :: PrunedBlock(n, blocks[n], useful)
  }

  // ----- the last definition on a run -----

  datatype Last = Initial | By(site: Site)

  function LastIn(n: Loc, b: Block, i: nat, x: Expr): (r: Last)
    requires i <= |b|
  {
    if i == 0 then Initial else if x in b[i - 1] then By((n, i - 1)) else LastIn(n, b, i - 1, x)
  }

  /** The blocks of a run, all present. */
  ghost predicate Along(f: Flow<Loc>, blocks: map<Loc, Block>, q: seq<Loc>) {
    IsPath(f, q) && forall k :: 0 <= k < |q| ==> q[k] in blocks
  }

  /** The assignment block that assigned x last, before assignment block i of the last block of q. */
  function LastOn(blocks: map<Loc, Block>, q: seq<Loc>, i: nat, x: Expr): (r: Last)
    requires |q| > 0 && (forall k :: 0 <= k < |q| ==> q[k] in blocks) && i <= |blocks[q[|q| - 1]]|
    decreases |q|
  {
    var n := q[|q| - 1];
    var here := LastIn(n, blocks[n], i, x);
    if here.By? then here
    else if |q| == 1 then Initial
    else LastOn(blocks, q[..|q| - 1], |blocks[q[|q| - 2]]|, x)
  }

  lemma {:induction false} LastInBlock(n: Loc, b: Block, i: nat, x: Expr)
    requires i <= |b|
    ensures LastIn(n, b, i, x).Initial? ==> NotDefined(b, 0, i, x)
    ensures LastIn(n, b, i, x).By? ==>
      var s := LastIn(n, b, i, x).site; s.0 == n && s.1 < i && x in b[s.1] && NotDefined(b, s.1 + 1, i, x)
  {
    if i > 0 { LastInBlock(n, b, i - 1, x); }
  }

  /** The last definition on a run reaches the point the run is at. */
  lemma {:induction false} LastIsCarried(f: Flow<Loc>, blocks: map<Loc, Block>, q: seq<Loc>, i: nat, x: Expr)
    requires Along(f, blocks, q) && i <= |blocks[q[|q| - 1]]| && LastOn(blocks, q, i, x).By?
    ensures var s := LastOn(blocks, q, i, x).site; Carried(f, blocks, x, s.0, s.1, q[|q| - 1], i)
    decreases |q|
  {
    var n := q[|q| - 1];
    LastInBlock(n, blocks[n], i, x);
    if LastIn(n, blocks[n], i, x).Initial? {
      var r, p := q[..|q| - 1], q[|q| - 2];
      PrefixPath(f, q, |q| - 2);
      LastIsCarried(f, blocks, r, |blocks[p]|, x);
      assert Edge(f, p, n);
      var s := LastOn(blocks, q, i, x).site;
      hide Carried;
      CarryExtended(f, blocks, x, s.0, s.1, p, n);
      EntryIsCarried(f, blocks, x, s.0, s.1, n, i);
    }
  }

  lemma EntryIsCarried(f: Flow<Loc>, blocks: map<Loc, Block>, x: Expr, m: Loc, j: nat, n: Loc, i: nat)
    requires n in blocks && NotDefined(blocks[n], 0, i, x) && ToEntry(f, blocks, x, m, j, n)
    ensures Carried(f, blocks, x, m, j, n, i)
  {}

  // ----- the simulation -----

  /** The state before assignment block i of the last block of q. */
  function RunTo<M>(m: Machine<M>, blocks: map<Loc, Block>, q: seq<Loc>, i: nat, s: State<M>): (r: State<M>)
    requires |q| > 0 && (forall k :: 0 <= k < |q| ==> q[k] in blocks) && i <= |blocks[q[|q| - 1]]|
  {
    ExecBlock(m, blocks[q[|q| - 1]][..i], if |q| == 1 then s else Run(m, blocks, q[..|q| - 1], s))
  }

  /** The value of id was assigned by a kept assignment, or never assigned. */
  ghost predicate Kept(blocks: map<Loc, Block>, useful: set<Node>, q: seq<Loc>, i: nat, id: Ident)
    requires |q| > 0 && (forall k :: 0 <= k < |q| ==> q[k] in blocks) && i <= |blocks[q[|q| - 1]]|
  {
    var last := LastOn(blocks, q, i, Id(id));
    last.By? ==> Node(last.site.0, last.site.1, Id(id)) in useful
  }

  /** Both states have the same memory, and agree on every value a kept assignment made. */
  ghost predicate Agree<M>(blocks: map<Loc, Block>, useful: set<Node>, q: seq<Loc>, i: nat, u: State<M>, u': State<M>)
    requires |q| > 0 && (forall k :: 0 <= k < |q| ==> q[k] in blocks) && i <= |blocks[q[|q| - 1]]|
  {
    u.mem == u'.mem && forall id :: Kept(blocks, useful, q, i, id) ==> u.env(id) == u'.env(id)
  }

  /** A kept assignment reads kept values only. */
  lemma ReadsKept(
    f: Flow<Loc>, blocks: map<Loc, Block>, e: Exits, useful: set<Node>, q: seq<Loc>, i: nat, x: Expr, id: Ident)
    requires AreUseful(f, blocks, e, useful) && Along(f, blocks, q) && i < |blocks[q[|q| - 1]]|
    requires x in blocks[q[|q| - 1]][i] && Node(q[|q| - 1], i, x) in useful
    requires Id(id) in ReadsOf(x, blocks[q[|q| - 1]][i][x])
    ensures Kept(blocks, useful, q, i, id)
  {
    hide Carried, IsUseful, ReadsOf;
    var n, last := q[|q| - 1], LastOn(blocks, q, i, Id(id));
    if last.By? {
      LastIsCarried(f, blocks, q, i, Id(id));
      var a, b := Node(last.site.0, last.site.1, Id(id)), Node(n, i, x);
      assert Depends(f, blocks, a, b);
      DependencyUseful(f, blocks, e, a, b);
    }
  }

  /** So a kept assignment writes the same value in both programs. */
  lemma SameValue<M>(
    m: Machine<M>, f: Flow<Loc>, blocks: map<Loc, Block>, e: Exits, useful: set<Node>, q: seq<Loc>, i: nat, x: Expr,
    u: State<M>, u': State<M>)
    requires AreUseful(f, blocks, e, useful) && Along(f, blocks, q) && i < |blocks[q[|q| - 1]]|
    requires x in blocks[q[|q| - 1]][i] && Node(q[|q| - 1], i, x) in useful
    requires Agree(blocks, useful, q, i, u, u')
    ensures Eval(m, blocks[q[|q| - 1]][i][x], u) == Eval(m, blocks[q[|q| - 1]][i][x], u')
    ensures x.Mem? ==> Eval(m, x.ptr, u) == Eval(m, x.ptr, u')
  {
    hide Kept, AreUseful, LastOn;
    var src := blocks[q[|q| - 1]][i][x];
    IdsRead(src);
    forall id | id in Ids(src)
      ensures u.env(id) == u'.env(id)
    {
      ReadsKept(f, blocks, e, useful, q, i, x, id);
    }
    EvalAgree(m, src, u, u');
    if x.Mem? {
      IdsRead(x.ptr);
      forall id | id in Ids(x.ptr)
        ensures u.env(id) == u'.env(id)
      {
        ReadsKept(f, blocks, e, useful, q, i, x, id);
      }
      EvalAgree(m, x.ptr, u, u');
    }
  }

  lemma UnkillableUseful(f: Flow<Loc>, blocks: map<Loc, Block>, e: Exits, useful: set<Node>, n: Loc, i: nat, x: Expr)
    requires AreUseful(f, blocks, e, useful) && DefinesAt(blocks, n, i, x) && IsUnkillable(e.irdst, x, blocks[n][i][x])
    ensures Node(n, i, x) in useful
  {
    hide IsUseful;
    assert IsRoot(f, blocks, e, Node(n, i, x));
    RootUseful(f, blocks, e, Node(n, i, x));
  }

  /** Every memory write stays, with the same address and value. */
  lemma SameWrites<M>(
    m: Machine<M>, f: Flow<Loc>, blocks: map<Loc, Block>, e: Exits, useful: set<Node>, q: seq<Loc>, i: nat,
    u: State<M>, u': State<M>)
    requires AreUseful(f, blocks, e, useful) && Along(f, blocks, q) && i < |blocks[q[|q| - 1]]|
    requires Agree(blocks, useful, q, i, u, u')
    ensures var n := q[|q| - 1]; var a := blocks[n][i];
      Writes(m, a, u) == Writes(m, PrunedAssign(n, i, a, useful), u')
  {
    hide Agree, AreUseful;
    var n := q[|q| - 1];
    var a := blocks[n][i];
    var a' := PrunedAssign(n, i, a, useful);
    forall d | d in a && d.Mem?
      ensures d in a' && a'[d] == a[d]
      ensures Write(Eval(m, d.ptr, u), d.size, Eval(m, a[d], u)) == Write(Eval(m, d.ptr, u'), d.size, Eval(m, a'[d], u'))
    {
      UnkillableUseful(f, blocks, e, useful, n, i, d);
      SameValue(m, f, blocks, e, useful, q, i, d, u, u');
    }
  }

  lemma LastStep(blocks: map<Loc, Block>, q: seq<Loc>, i: nat, x: Expr)
    requires |q| > 0 && (forall k :: 0 <= k < |q| ==> q[k] in blocks) && i < |blocks[q[|q| - 1]]|
    ensures LastOn(blocks, q, i + 1, x) ==
      if x in blocks[q[|q| - 1]][i] then By((q[|q| - 1], i)) else LastOn(blocks, q, i, x)
  {}

  lemma AgreeStep<M>(
    m: Machine<M>, f: Flow<Loc>, blocks: map<Loc, Block>, e: Exits, useful: set<Node>, q: seq<Loc>, i: nat,
    u: State<M>, u': State<M>)
    requires AreUseful(f, blocks, e, useful) && Along(f, blocks, q) && i < |blocks[q[|q| - 1]]|
    requires Agree(blocks, useful, q, i, u, u')
    ensures var n := q[|q| - 1]; var a := blocks[n][i];
      Agree(blocks, useful, q, i + 1, Exec(m, a, u), Exec(m, PrunedAssign(n, i, a, useful), u'))
  {
    hide AreUseful, LastOn, Writes;
    var n := q[|q| - 1];
    var a := blocks[n][i];
    var a' := PrunedAssign(n, i, a, useful);
    SameWrites(m, f, blocks, e, useful, q, i, u, u');
    forall id | Kept(blocks, useful, q, i + 1, id)
      ensures Exec(m, a, u).env(id) == Exec(m, a', u').env(id)
    {
      ExecVariable(m, a, u, id);
      ExecVariable(m, a', u', id);
      LastStep(blocks, q, i, Id(id));
      if Id(id) in a {
        SameValue(m, f, blocks, e, useful, q, i, Id(id), u, u');
      }
    }
  }

  lemma RunToStep<M>(m: Machine<M>, blocks: map<Loc, Block>, q: seq<Loc>, i: nat, s: State<M>)
    requires |q| > 0 && (forall k :: 0 <= k < |q| ==> q[k] in blocks) && i < |blocks[q[|q| - 1]]|
    ensures RunTo(m, blocks, q, i + 1, s) == Exec(m, blocks[q[|q| - 1]][i], RunTo(m, blocks, q, i, s))
  {
    ExecPrefix(m, blocks[q[|q| - 1]], i, if |q| == 1 then s else Run(m, blocks, q[..|q| - 1], s));
  }

  lemma RunToEnd<M>(m: Machine<M>, blocks: map<Loc, Block>, q: seq<Loc>, s: State<M>)
    requires |q| > 0 && (forall k :: 0 <= k < |q| ==> q[k] in blocks)
    ensures RunTo(m, blocks, q, |blocks[q[|q| - 1]]|, s) == Run(m, blocks, q, s)
  {
    var b := blocks[q[|q| - 1]];
    assert b[..|b|] == b;
  }

  lemma PrunedAt(blocks: map<Loc, Block>, useful: set<Node>, n: Loc, i: nat)
    requires n in blocks
    ensures n in Pruned(blocks, useful) && |Pruned(blocks, useful)[n]| == |blocks[n]|
    ensures i < |blocks[n]| ==> Pruned(blocks, useful)[n][i] == PrunedAssign(n, i, blocks[n][i], useful)
  {}

  /** Dead removal, point by point: along every path, the two programs agree. */
  lemma {:induction false} Simulated<M>(
    m: Machine<M>, f: Flow<Loc>, blocks: map<Loc, Block>, e: Exits, useful: set<Node>, q: seq<Loc>, i: nat, s: State<M>)
    requires AreUseful(f, blocks, e, useful) && Along(f, blocks, q) && i <= |blocks[q[|q| - 1]]|
    requires forall k :: 0 <= k < |q| ==> q[k] in Pruned(blocks, useful)
    requires |Pruned(blocks, useful)[q[|q| - 1]]| == |blocks[q[|q| - 1]]|
    ensures Agree(blocks, useful, q, i, RunTo(m, blocks, q, i, s), RunTo(m, Pruned(blocks, useful), q, i, s))
    decreases |q|, i
  {
    hide AreUseful, Agree, Pruned, RunTo, Run, Exec;
    var pruned, n := Pruned(blocks, useful), q[|q| - 1];
    if i > 0 {
      Simulated(m, f, blocks, e, useful, q, i - 1, s);
      PrunedAt(blocks, useful, n, i - 1);
      RunToStep(m, blocks, q, i - 1, s);
      RunToStep(m, pruned, q, i - 1, s);
      AgreeStep(m, f, blocks, e, useful, q, i - 1, RunTo(m, blocks, q, i - 1, s), RunTo(m, pruned, q, i - 1, s));
    } else if |q| == 1 {
      SimulatedStart(m, blocks, pruned, useful, q, s);
    } else {
      var r, p := q[..|q| - 1], q[|q| - 2];
      PrefixPath(f, q, |q| - 2);
      PrunedAt(blocks, useful, p, 0);
      Simulated(m, f, blocks, e, useful, r, |blocks[p]|, s);
      RunToEnd(m, blocks, r, s);
      RunToEnd(m, pruned, r, s);
      SimulatedEnter(m, blocks, pruned, useful, q, s);
    }
  }

  lemma SimulatedStart<M>(
    m: Machine<M>, blocks: map<Loc, Block>, pruned: map<Loc, Block>, useful: set<Node>, q: seq<Loc>, s: State<M>)
    requires |q| == 1 && q[0] in blocks && q[0] in pruned
    ensures Agree(blocks, useful, q, 0, RunTo(m, blocks, q, 0, s), RunTo(m, pruned, q, 0, s))
  {}

  lemma SimulatedEnter<M>(
    m: Machine<M>, blocks: map<Loc, Block>, pruned: map<Loc, Block>, useful: set<Node>, q: seq<Loc>, s: State<M>)
    requires |q| > 1 && (forall k :: 0 <= k < |q| ==> q[k] in blocks) && (forall k :: 0 <= k < |q| ==> q[k] in pruned)
    requires Agree(
      blocks, useful, q[..|q| - 1], |blocks[q[|q| - 2]]|,
      Run(m, blocks, q[..|q| - 1], s), Run(m, pruned, q[..|q| - 1], s))
    ensures Agree(blocks, useful, q, 0, RunTo(m, blocks, q, 0, s), RunTo(m, pruned, q, 0, s))
  {
    hide Run;
    forall id
      ensures Kept(blocks, useful, q, 0, id) <==> Kept(blocks, useful, q[..|q| - 1], |blocks[q[|q| - 2]]|, id)
    {
    }
  }

  // ----- what an observer sees -----

  /** The run follows q: after each block the destination register designates the next one. */
  ghost predicate Follows<M>(m: Machine<M>, irdst: Var, blocks: map<Loc, Block>, q: seq<Loc>, s: State<M>)
    requires forall k :: 0 <= k < |q| ==> q[k] in blocks
  {
    forall j :: 0 < j < |q| ==> DestinationIs(m, irdst, blocks, q[..j], s, q[j])
  }

  ghost predicate DestinationIs<M>(
    m: Machine<M>, irdst: Var, blocks: map<Loc, Block>, q: seq<Loc>, s: State<M>, next: Loc)
    requires |q| > 0 && forall k :: 0 <= k < |q| ==> q[k] in blocks
  {
    Run(m, blocks, q, s).env(Plain(irdst)) == m.loc(next)
  }

  lemma PrunedAlong(f: Flow<Loc>, blocks: map<Loc, Block>, useful: set<Node>, q: seq<Loc>)
    requires Along(f, blocks, q)
    ensures Along(f, Pruned(blocks, useful), q) && |Pruned(blocks, useful)[q[|q| - 1]]| == |blocks[q[|q| - 1]]|
  {}

  /** A variable whose last assignment is kept has the same value at that point of both programs. */
  lemma SameVariable<M>(
    m: Machine<M>, f: Flow<Loc>, blocks: map<Loc, Block>, e: Exits, useful: set<Node>, q: seq<Loc>, i: nat, s: State<M>, id: Ident)
    requires AreUseful(f, blocks, e, useful) && Along(f, blocks, q) && i <= |blocks[q[|q| - 1]]|
    requires LastOn(blocks, q, i, Id(id)).By? ==>
      var site := LastOn(blocks, q, i, Id(id)).site; IsUseful(f, blocks, e, Node(site.0, site.1, Id(id)))
    ensures Along(f, Pruned(blocks, useful), q) && |Pruned(blocks, useful)[q[|q| - 1]]| == |blocks[q[|q| - 1]]|
    ensures RunTo(m, blocks, q, i, s).env(id) == RunTo(m, Pruned(blocks, useful), q, i, s).env(id)
  {
    hide Pruned, RunTo, LastOn, IsUseful;
    PrunedAlong(f, blocks, useful, q);
    Simulated(m, f, blocks, e, useful, q, i, s);
    assert Kept(blocks, useful, q, i, id);
  }

  /** The destination register and the exception flags have the same value at every point, and the
      memory is the same. */
  lemma SameControl<M>(
    m: Machine<M>, f: Flow<Loc>, blocks: map<Loc, Block>, e: Exits, useful: set<Node>, q: seq<Loc>, i: nat, s: State<M>, v: Var)
    requires AreUseful(f, blocks, e, useful) && Along(f, blocks, q) && i <= |blocks[q[|q| - 1]]|
    requires v == e.irdst || v.name == "exception_flags"
    ensures Along(f, Pruned(blocks, useful), q) && |Pruned(blocks, useful)[q[|q| - 1]]| == |blocks[q[|q| - 1]]|
    ensures RunTo(m, blocks, q, i, s).mem == RunTo(m, Pruned(blocks, useful), q, i, s).mem
    ensures RunTo(m, blocks, q, i, s).env(Plain(v)) == RunTo(m, Pruned(blocks, useful), q, i, s).env(Plain(v))
  {
    hide Pruned, RunTo, LastOn, IsUseful, Carried, AreUseful, Kept;
    PrunedAlong(f, blocks, useful, q);
    Simulated(m, f, blocks, e, useful, q, i, s);
    var x := Id(Plain(v));
    if LastOn(blocks, q, i, x).By? {
      var site := LastOn(blocks, q, i, x).site;
      LastIsCarried(f, blocks, q, i, x);
      CarriedDefines(f, blocks, x, site.0, site.1, q[|q| - 1], i);
      RootUseful(f, blocks, e, Node(site.0, site.1, x));
    }
    SameVariable(m, f, blocks, e, useful, q, i, s, Plain(v));
  }

  /** A function call stays, and receives the same arguments. */
  lemma SameCalls<M>(
    m: Machine<M>, f: Flow<Loc>, blocks: map<Loc, Block>, e: Exits, useful: set<Node>, q: seq<Loc>, i: nat, s: State<M>, x: Expr)
    requires AreUseful(f, blocks, e, useful) && Along(f, blocks, q) && i < |blocks[q[|q| - 1]]|
    requires x in blocks[q[|q| - 1]][i] && IsFunctionCall(blocks[q[|q| - 1]][i][x])
    ensures Along(f, Pruned(blocks, useful), q) && |Pruned(blocks, useful)[q[|q| - 1]]| == |blocks[q[|q| - 1]]|
    ensures var n := q[|q| - 1];
      && x in Pruned(blocks, useful)[n][i] && Pruned(blocks, useful)[n][i][x] == blocks[n][i][x]
      && Eval(m, blocks[n][i][x], RunTo(m, blocks, q, i, s)) ==
         Eval(m, blocks[n][i][x], RunTo(m, Pruned(blocks, useful), q, i, s))
  {
    hide Pruned, RunTo, Agree, AreUseful;
    var n := q[|q| - 1];
    PrunedAlong(f, blocks, useful, q);
    PrunedAt(blocks, useful, n, i);
    Simulated(m, f, blocks, e, useful, q, i, s);
    UnkillableUseful(f, blocks, e, useful, n, i, x);
    SameValue(m, f, blocks, e, useful, q, i, x, RunTo(m, blocks, q, i, s), RunTo(m, Pruned(blocks, useful), q, i, s));
  }

  /** At the end of a run, every variable that matters outside has the same value: the out
      registers on a leaf, all variables on an exit to a missing block. */
  lemma SameAtExit<M>(
    m: Machine<M>, f: Flow<Loc>, blocks: map<Loc, Block>, e: Exits, useful: set<Node>, q: seq<Loc>, s: State<M>, id: Ident)
    requires AreUseful(f, blocks, e, useful) && Along(f, blocks, q) && Demanded(f, blocks, e, q[|q| - 1], Id(id))
    ensures Along(f, Pruned(blocks, useful), q)
    ensures Run(m, blocks, q, s).env(id) == Run(m, Pruned(blocks, useful), q, s).env(id)
  {
    hide Pruned, RunTo, LastOn, IsUseful, Carried, AreUseful, Demanded, Run;
    var n := q[|q| - 1];
    var i, x := |blocks[n]|, Id(id);
    if LastOn(blocks, q, i, x).By? {
      var site := LastOn(blocks, q, i, x).site;
      LastIsCarried(f, blocks, q, i, x);
      CarriedDefines(f, blocks, x, site.0, site.1, n, i);
      assert DemandedFrom(f, blocks, e, Node(site.0, site.1, x), n);
      RootUseful(f, blocks, e, Node(site.0, site.1, x));
    }
    SameVariable(m, f, blocks, e, useful, q, i, s, id);
    RunToEnd(m, blocks, q, s);
    RunToEnd(m, Pruned(blocks, useful), q, s);
  }

  /** Dead removal preserves behaviour: both programs take the same runs, and on each of them
      make the same memory and the same destination. */
  lemma SameRuns<M>(
    m: Machine<M>, f: Flow<Loc>, blocks: map<Loc, Block>, e: Exits, useful: set<Node>, q: seq<Loc>, s: State<M>)
    requires AreUseful(f, blocks, e, useful) && Along(f, blocks, q)
    ensures Along(f, Pruned(blocks, useful), q)
    ensures Follows(m, e.irdst, blocks, q, s) <==> Follows(m, e.irdst, Pruned(blocks, useful), q, s)
    ensures Run(m, blocks, q, s).mem == Run(m, Pruned(blocks, useful), q, s).mem
    ensures Run(m, blocks, q, s).env(Plain(e.irdst)) == Run(m, Pruned(blocks, useful), q, s).env(Plain(e.irdst))
  {
    hide Pruned, Run, AreUseful;
    var pruned := Pruned(blocks, useful);
    PrunedAlong(f, blocks, useful, q);
    SameEnd(m, f, blocks, e, useful, q, s);
    forall j | 0 < j < |q|
      ensures DestinationIs(m, e.irdst, blocks, q[..j], s, q[j]) <==> DestinationIs(m, e.irdst, pruned, q[..j], s, q[j])
    {
      PrefixPath(f, q, j - 1);
      SameEnd(m, f, blocks, e, useful, q[..j], s);
    }
  }

  lemma SameEnd<M>(
    m: Machine<M>, f: Flow<Loc>, blocks: map<Loc, Block>, e: Exits, useful: set<Node>, q: seq<Loc>, s: State<M>)
    requires AreUseful(f, blocks, e, useful) && Along(f, blocks, q)
    ensures Along(f, Pruned(blocks, useful), q)
    ensures Run(m, blocks, q, s).mem == Run(m, Pruned(blocks, useful), q, s).mem
    ensures Run(m, blocks, q, s).env(Plain(e.irdst)) == Run(m, Pruned(blocks, useful), q, s).env(Plain(e.irdst))
  {
    hide Pruned, RunTo, AreUseful, Run;
    SameControl(m, f, blocks, e, useful, q, |blocks[q[|q| - 1]]|, s, e.irdst);
    RunToEnd(m, blocks, q, s);
    RunToEnd(m, Pruned(blocks, useful), q, s);
  }

  // ----- a second removal -----

  lemma NotDefinedPruned(n: Loc, b: Block, useful: set<Node>, lo: nat, hi: nat, x: Expr)
    requires NotDefined(b, lo, hi, x)
    ensures NotDefined(PrunedBlock(n, b, useful), lo, hi, x)
  {}

  lemma LastOfPruned(blocks: map<Loc, Block>, useful: set<Node>, m: Loc, j: nat, x: Expr)
    requires LastOf(blocks, m, j, x) && Node(m, j, x) in useful
    ensures LastOf(Pruned(blocks, useful), m, j, x)
  {
    PrunedAt(blocks, useful, m, j);
    NotDefinedPruned(m, blocks[m], useful, j + 1, |blocks[m]|, x);
  }

  lemma CarryPathPruned(
    f: Flow<Loc>, blocks: map<Loc, Block>, useful: set<Node>, x: Expr, m: Loc, j: nat, n: Loc, w: seq<Loc>)
    requires CarryPath(f, blocks, x, m, j, n, w) && Node(m, j, x) in useful
    ensures CarryPath(f, Pruned(blocks, useful), x, m, j, n, w)
  {
    LastOfPruned(blocks, useful, m, j, x);
    forall k | 0 < k < |w| - 1
      ensures NotDefined(Pruned(blocks, useful)[w[k]], 0, |Pruned(blocks, useful)[w[k]]|, x)
    {
      NotDefinedPruned(w[k], blocks[w[k]], useful, 0, |blocks[w[k]]|, x);
    }
  }

  /** A kept definition still reaches every point it reached. */
  lemma CarriedPruned(
    f: Flow<Loc>, blocks: map<Loc, Block>, useful: set<Node>, x: Expr, m: Loc, j: nat, n: Loc, i: nat)
    requires Carried(f, blocks, x, m, j, n, i) && Node(m, j, x) in useful
    ensures Carried(f, Pruned(blocks, useful), x, m, j, n, i)
  {
    hide CarryPath, NotDefined;
    if InBlock(blocks, x, m, j, n, i) {
      PrunedAt(blocks, useful, m, j);
      NotDefinedPruned(n, blocks[n], useful, j + 1, i, x);
    } else {
      NotDefinedPruned(n, blocks[n], useful, 0, i, x);
      var w :| CarryPath(f, blocks, x, m, j, n, w);
      CarryPathPruned(f, blocks, useful, x, m, j, n, w);
    }
  }

  lemma RootPruned(f: Flow<Loc>, blocks: map<Loc, Block>, e: Exits, useful: set<Node>, a: Node)
    requires IsRoot(f, blocks, e, a) && a in useful
    ensures IsRoot(f, Pruned(blocks, useful), e, a)
  {
    hide Carried, Pruned;
    PrunedAt(blocks, useful, a.loc, a.index);
    PrunedKeys(blocks, useful);
    if n :| DemandedFrom(f, blocks, e, a, n) {
      PrunedAt(blocks, useful, n, 0);
      CarriedPruned(f, blocks, useful, a.lval, a.loc, a.index, n, |blocks[n]|);
      assert DemandedFrom(f, Pruned(blocks, useful), e, a, n);
    }
  }

  lemma PrunedKeys(blocks: map<Loc, Block>, useful: set<Node>)
    ensures forall n :: n in Pruned(blocks, useful) <==> n in blocks
  {}

  lemma DependsPruned(f: Flow<Loc>, blocks: map<Loc, Block>, useful: set<Node>, a: Node, b: Node)
    requires Depends(f, blocks, a, b) && a in useful && b in useful
    ensures Depends(f, Pruned(blocks, useful), a, b)
  {
    hide Carried;
    PrunedAt(blocks, useful, b.loc, b.index);
    CarriedPruned(f, blocks, useful, a.lval, a.loc, a.index, b.loc, b.index);
  }

  lemma {:induction false} ChainUseful(f: Flow<Loc>, blocks: map<Loc, Block>, e: Exits, a: Node, w: seq<Node>, i: nat)
    requires UsefulChain(f, blocks, e, a, w) && i < |w|
    ensures IsUseful(f, blocks, e, w[i])
  {
    hide Depends, IsRoot;
    assert UsefulChain(f, blocks, e, w[i], w[i..]);
  }

  /** What a removal keeps, a second removal keeps: the analysis is idempotent. */
  lemma KeptStaysUseful(f: Flow<Loc>, blocks: map<Loc, Block>, e: Exits, useful: set<Node>, a: Node)
    requires AreUseful(f, blocks, e, useful) && a in useful
    ensures IsUseful(f, Pruned(blocks, useful), e, a)
  {
    hide Depends, IsRoot, Pruned;
    var w :| UsefulChain(f, blocks, e, a, w);
    var pruned := Pruned(blocks, useful);
    forall i | 0 <= i < |w|
      ensures w[i] in useful
    {
      ChainUseful(f, blocks, e, a, w, i);
    }
    forall i, j | 0 <= i < |w| - 1 && j == i + 1
      ensures Depends(f, pruned, w[i], w[j])
    {
      DependsPruned(f, blocks, useful, w[i], w[j]);
    }
    RootPruned(f, blocks, e, useful, w[|w| - 1]);
    assert UsefulChain(f, pruned, e, a, w);
  }

  /** So pruning a pruned program changes nothing. */
  lemma PrunedTwice(f: Flow<Loc>, blocks: map<Loc, Block>, e: Exits, useful: set<Node>, useful': set<Node>)
    requires AreUseful(f, blocks, e, useful) && AreUseful(f, Pruned(blocks, useful), e, useful')
    ensures Pruned(Pruned(blocks, useful), useful') == Pruned(blocks, useful)
  {
    hide IsUseful;
    var pruned := Pruned(blocks, useful);
    forall n, i | n in blocks && 0 <= i < |blocks[n]|
      ensures PrunedAssign(n, i, pruned[n][i], useful') == pruned[n][i]
    {
      PrunedAt(blocks, useful, n, i);
      forall x | x in pruned[n][i]
        ensures Node(n, i, x) in useful'
      {
        KeptStaysUseful(f, blocks, e, useful, Node(n, i, x));
      }
    }
    forall n | n in blocks
      ensures PrunedBlock(n, pruned[n], useful') == pruned[n]
    {
    }
  }

  // ----- what remains, in terms of the expressions -----

  /** The value assigned by a reaches the end of block n. */
  ghost predicate ReachesEnd(f: Flow<Loc>, blocks: map<Loc, Block>, a: Node, n: Loc) {
    n in blocks && Carried(f, blocks, a.lval, a.loc, a.index, n, |blocks[n]|)
  }

  /** The assignment has an effect, or its value leaves the program: as an out register of a leaf, or
      towards a missing block. */
  ghost predicate Seen(f: Flow<Loc>, blocks: map<Loc, Block>, e: Exits, a: Node) {
    && a.loc in blocks && a.index < |blocks[a.loc]| && a.lval in blocks[a.loc][a.index]
    && (
      || HasEffect(e.irdst, a.lval, blocks[a.loc][a.index][a.lval])
      || (exists n :: ReachesEnd(f, blocks, a, n) && Next(f, n) == [] && a.lval in e.outRegs(n))
      || (exists n, k :: ReachesEnd(f, blocks, a, n) && k in Next(f, n) && k !in blocks))
  }

  /** The value assigned by a is read by b: in its source, or in the pointer of the cell it writes. */
  ghost predicate ReadBy(f: Flow<Loc>, blocks: map<Loc, Block>, a: Node, b: Node) {
    && b.loc in blocks && b.index < |blocks[b.loc]| && b.lval in blocks[b.loc][b.index]
    && (a.lval.Id? || a.lval.Mem?)
    && (PartOf(a.lval, blocks[b.loc][b.index][b.lval]) || (b.lval.Mem? && PartOf(a.lval, b.lval.ptr)))
    && Carried(f, blocks, a.lval, a.loc, a.index, b.loc, b.index)
  }

  /** From a, reads after reads, to an assignment that is seen. */
  ghost predicate SeenThrough(f: Flow<Loc>, blocks: map<Loc, Block>, e: Exits, a: Node, w: seq<Node>) {
    && |w| > 0 && w[0] == a && Seen(f, blocks, e, w[|w| - 1])
    && forall i :: 0 < i < |w| ==> ReadBy(f, blocks, w[i - 1], w[i])
  }

  ghost predicate Matters(f: Flow<Loc>, blocks: map<Loc, Block>, e: Exits, a: Node) {
    exists w :: SeenThrough(f, blocks, e, a, w)
  }

  lemma SeenIsRoot(f: Flow<Loc>, blocks: map<Loc, Block>, e: Exits, a: Node)
    ensures Seen(f, blocks, e, a) <==> IsRoot(f, blocks, e, a)
  {
    hide Carried, HasEffect, IsUnkillable;
    if IsNode(blocks, a) { UnkillableHasEffect(e.irdst, a.lval, blocks[a.loc][a.index][a.lval]); }
    if IsRoot(f, blocks, e, a) {
      if n :| DemandedFrom(f, blocks, e, a, n) { assert ReachesEnd(f, blocks, a, n); }
    }
    if n :| ReachesEnd(f, blocks, a, n) && Next(f, n) == [] && a.lval in e.outRegs(n) {
      assert DemandedFrom(f, blocks, e, a, n);
    }
    if n, k :| ReachesEnd(f, blocks, a, n) && k in Next(f, n) && k !in blocks {
      assert DemandedFrom(f, blocks, e, a, n);
    }
  }

  lemma ReadByIsDepends(f: Flow<Loc>, blocks: map<Loc, Block>, a: Node, b: Node)
    ensures ReadBy(f, blocks, a, b) <==> Depends(f, blocks, a, b)
  {
    hide Carried, PartOf, GetR;
    if IsNode(blocks, b) {
      ReadParts(a.lval, blocks[b.loc][b.index][b.lval]);
      if b.lval.Mem? { ReadParts(a.lval, b.lval.ptr); }
    }
  }

  lemma MattersIsUseful(f: Flow<Loc>, blocks: map<Loc, Block>, e: Exits, a: Node)
    ensures Matters(f, blocks, e, a) <==> IsUseful(f, blocks, e, a)
  {
    hide Seen, IsRoot, ReadBy, Depends;
    forall b ensures Seen(f, blocks, e, b) <==> IsRoot(f, blocks, e, b) { SeenIsRoot(f, blocks, e, b); }
    forall b, c ensures ReadBy(f, blocks, b, c) <==> Depends(f, blocks, b, c) { ReadByIsDepends(f, blocks, b, c); }
    if w :| SeenThrough(f, blocks, e, a, w) {
      forall i, j | 0 <= i < |w| - 1 && j == i + 1
        ensures Depends(f, blocks, w[i], w[j])
      {
        assert ReadBy(f, blocks, w[j - 1], w[j]);
      }
      assert UsefulChain(f, blocks, e, a, w);
    }
    if w :| UsefulChain(f, blocks, e, a, w) {
      forall i | 0 < i < |w|
        ensures ReadBy(f, blocks, w[i - 1], w[i])
      {
        var k := i - 1;
        assert Depends(f, blocks, w[k], w[i]);
      }
      assert SeenThrough(f, blocks, e, a, w);
    }
  }

  /** blocks' holds the assignments of blocks that matter, each with its source, and in blocks' they still matter. */
  ghost predicate OnlyMatters(f: Flow<Loc>, blocks: map<Loc, Block>, e: Exits, blocks': map<Loc, Block>) {
    && (forall n :: n in blocks' <==> n in blocks) && (forall n :: n in blocks ==> |blocks'[n]| == |blocks[n]|)
    && (forall a :: IsNode(blocks', a) <==> IsNode(blocks, a) && Matters(f, blocks, e, a))
    && (forall a :: IsNode(blocks', a) ==> blocks'[a.loc][a.index][a.lval] == blocks[a.loc][a.index][a.lval])
    && (forall a :: IsNode(blocks', a) ==> Matters(f, blocks', e, a))
  }

  /** What a removal leaves, in terms of the expressions only. */
  lemma RemovalLeaves(f: Flow<Loc>, blocks: map<Loc, Block>, e: Exits, useful: set<Node>)
    requires AreUseful(f, blocks, e, useful)
    ensures OnlyMatters(f, blocks, e, Pruned(blocks, useful))
  {
    hide IsUseful, Matters;
    var pruned := Pruned(blocks, useful);
    forall a
      ensures IsNode(pruned, a) <==> IsNode(blocks, a) && Matters(f, blocks, e, a)
      ensures IsNode(pruned, a) ==> pruned[a.loc][a.index][a.lval] == blocks[a.loc][a.index][a.lval]
      ensures IsNode(pruned, a) ==> Matters(f, pruned, e, a)
    {
      MattersIsUseful(f, blocks, e, a);
      if a.loc in blocks { PrunedAt(blocks, useful, a.loc, a.index); }
      if IsNode(pruned, a) {
        KeptStaysUseful(f, blocks, e, useful, a);
        MattersIsUseful(f, pruned, e, a);
      }
    }
  }
}
