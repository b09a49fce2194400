/**
 Putting the phis into the blocks, and giving an initial version to the variables a phi
 receives unassigned (miasm/analysis/ssa.py, _convert_phi and _fix_no_def_var;
 miasm/ir/ir.py, simplify).
 */
module SsaPhis {
  import opened Paths
  import opened Ir
  import opened SsaForm
  import opened SsaMeaning
  import opened SsaTables
  import opened SsaWalk

  // ----- from a row of phis to an assignment block -----

  ghost predicate ListsSet(s: set<Ident>, args: seq<Expr>) {
    && (forall i :: 0 <= i < |args| ==> args[i].Id? && args[i].id in s)
    && (forall id :: id in s ==> Id(id) in args)
  }

  method PhiArguments(s: set<Ident>) returns (args: seq<Expr>)
    ensures ListsSet(s, args)
  {
    args := [];
    var todo := s;
    while todo != {}
      invariant todo <= s && ListsSet(s - todo, args)
      decreases todo
    {
      var id :| id in todo;
      todo := todo - {id};
      args := args + [Id(id)];
    }
    assert s - todo == s;
  }

  /** The expression of a phi: the bare symbol as long as it has no argument. */
  function PhiExpr(v: Var, args: seq<Expr>): (r: Expr) {
    if args == [] then Id(Plain(Var(PHI, v.size))) else Op(PHI, args, v.size)
  }

  /** The phi has the size of its variable and, with arguments, the name "Phi". */
  ghost predicate IsPhiFor(v: Var, s: set<Ident>, e: Expr) {
    Size(e) == v.size && (s != {} ==> e.Op? && e.op == "Phi")
  }

  lemma PhiExprIsPhi(v: Var, s: set<Ident>, args: seq<Expr>)
    requires ListsSet(s, args) && s != {}
    ensures IsPhi(PhiExpr(v, args), s) && PhiExpr(v, args).Op?
  {
    var id :| id in s;
    assert Id(id) in args;
  }

  /** The assignment block holds exactly the phis of the row. */
  ghost predicate HoldsRow(row: map<Ident, set<Ident>>, a: AssignBlk) {
    && (forall d :: d in a ==> d.Id? && d.id in row)
    && (forall id :: id in row ==> Id(id) in a && (row[id] != {} ==> IsPhi(a[Id(id)], row[id])))
  }

  lemma HoldsRowStep(row: map<Ident, set<Ident>>, a: AssignBlk, id: Ident, s: set<Ident>, e: Expr)
    requires HoldsRow(row, a) && (s != {} ==> IsPhi(e, s))
    ensures HoldsRow(row[id := s], a[Id(id) := e])
  {}

  method RowBlock(row: map<Ident, set<Ident>>) returns (a: AssignBlk)
    ensures HoldsRow(row, a)
    ensures forall id :: id in row ==> Id(id) in a && IsPhiFor(id.v, row[id], a[Id(id)])
  {
    hide HoldsRow, IsPhi, ListsSet;
    a := map[];
    var todo := row.Keys;
    ghost var did: map<Ident, set<Ident>> := map[];
    EmptyRow();
    while todo != {}
      invariant todo <= row.Keys && did == (map id | id in row && id !in todo :: row[id]) && HoldsRow(did, a)
      invariant forall id :: id in row && id !in todo ==> Id(id) in a && IsPhiFor(id.v, row[id], a[Id(id)])
      decreases todo
    {
      var id :| id in todo;
      var args := PhiArguments(row[id]);
      if row[id] != {} { PhiExprIsPhi(id.v, row[id], args); }
      HoldsRowStep(did, a, id, row[id], PhiExpr(id.v, args));
      todo := todo - {id};
      a, did := a[Id(id) := PhiExpr(id.v, args)], did[id := row[id]];
    }
    assert did == row;
  }

  lemma EmptyRow()
    ensures HoldsRow(map[], map[])
  {}

  /** Some assignment block holds the row. */
  lemma {:induction false} RowBlockExists(row: map<Ident, set<Ident>>) returns (a: AssignBlk)
    ensures HoldsRow(row, a)
    decreases row.Keys
  {
    if row == map[] {
      a := map[];
    } else {
      var id :| id in row;
      var rest := row - {id};
      assert rest.Keys == row.Keys - {id};
      var a0 := RowBlockExists(rest);
      var args := ArgumentsExist(row[id]);
      if row[id] != {} { PhiExprIsPhi(id.v, row[id], args); }
      HoldsRowStep(rest, a0, id, row[id], PhiExpr(id.v, args));
      assert rest[id := row[id]] == row;
      a := a0[Id(id) := PhiExpr(id.v, args)];
    }
  }

  lemma {:induction false} ArgumentsExist(s: set<Ident>) returns (args: seq<Expr>)
    ensures ListsSet(s, args)
    decreases s
  {
    if s == {} {
      args := [];
    } else {
      var id :| id in s;
      var rest := ArgumentsExist(s - {id});
      args := rest + [Id(id)];
    }
  }

  // ----- inserting the phis -----

  /** Does the block open with a phi? The first assignment listed decides. */
  method BlockHasPhi(b: Block) returns (r: bool)
    ensures r ==> HasPhi(b)
    ensures b != [] && b[0] != map[] && (forall d :: d in b[0] ==> IsPhiOp(b[0][d])) ==> r
  {
    if b == [] || b[0] == map[] {
      return false;
    }
    var d :| d in b[0];
    return IsPhiOp(b[0][d]);
  }

  /** The block with its row of phis in front, when it has one. */
  ghost predicate PhiInserted(phinodes: PhiNodes, n: Loc, b: Block, b': Block) {
    if n in phinodes then |b'| == |b| + 1 && b'[1..] == b && HoldsRow(phinodes[n], b'[0]) else b' == b
  }

  method InsertPhi(row: map<Ident, set<Ident>>, b: Block) returns (b': Block)
    ensures !HasPhi(b) ==> |b'| == |b| + 1 && b'[1..] == b && HoldsRow(row, b'[0])
    ensures |b'| > 0 && forall id :: id in row ==> Id(id) in b'[0]
  {
    var a := RowBlock(row);
    var has := BlockHasPhi(b);
    if has {
      // the block is in SSA form already: update its phis
      return [b[0] + a] + b[1..];
    }
    return [a] + b;
  }

  /** Inserts every row of phis at the front of its block, if the block exists. */
  method InsertPhis(phinodes: PhiNodes, blocks0: map<Loc, Block>) returns (blocks: map<Loc, Block>)
    requires forall n :: n in blocks0 && n in phinodes ==> !HasPhi(blocks0[n])
    ensures blocks.Keys == blocks0.Keys
    ensures forall n :: n in blocks0 ==> PhiInserted(phinodes, n, blocks0[n], blocks[n])
  {
    hide HoldsRow, HasPhi;
    blocks := blocks0;
    var todo := phinodes.Keys;
    while todo != {}
      invariant todo <= phinodes.Keys && blocks.Keys == blocks0.Keys
      invariant forall n :: n in blocks0 && n in todo ==> blocks[n] == blocks0[n]
      invariant forall n :: n in blocks0 && n !in todo ==> PhiInserted(phinodes, n, blocks0[n], blocks[n])
      decreases todo
    {
      var n :| n in todo;
      todo := todo - {n};
      if n !in blocks {
        continue;
      }
      var b := InsertPhi(phinodes[n], blocks[n]);
      blocks := blocks[n := b];
    }
  }

  /** Once every block is done, the sources received are the versions leaving the predecessors. */
  lemma AllSources(c: Cfg, irdst: Var, t: Tables, n: Loc, v: Var)
    requires CompleteCfg(c) && HasTraces(c, irdst, t) && TracesNonEmpty(t) && t.trace.Keys == c.blocks.Keys
    ensures DoneSources(c, t, n, v) == Sources(c, t, n, v)
    ensures n in c.blocks && n != c.head ==> Sources(c, t, n, v) != {}
  {
    if n in c.blocks && n != c.head {
      var p := ReachablePredecessor(c.flow, c.head, n);
      assert p in c.blocks && p in Prev(c.flow, n);
      assert Current(Exit(t, p), v) in Sources(c, t, n, v);
    }
  }

  lemma RowIsPhiBlock(c: Cfg, irdst: Var, t: Tables, n: Loc, row: map<Ident, set<Ident>>, a: AssignBlk)
    requires CompleteCfg(c) && HasTraces(c, irdst, t) && TracesNonEmpty(t) && t.trace.Keys == c.blocks.Keys
    requires n in c.blocks && n != c.head && RowOk(c, t, n, row) && HoldsRow(row, a)
    ensures PhiBlock(c, irdst, t, n, a)
  {
    hide IsPhi, CompleteCfg, Sources, DoneSources, HasTraces;
    forall v | v in Phis(t.phi, n)
      ensures Id(Current(Entry(t, n), v)) in a
      ensures IsPhi(a[Id(Current(Entry(t, n), v))], Sources(c, t, n, v))
    {
      AllSources(c, irdst, t, n, v);
      var id := Current(Entry(t, n), v);
      assert id == RowDst(t, n, v) && id in row;
    }
    forall k | k in a
      ensures exists v :: v in Phis(t.phi, n) && k == Id(Current(Entry(t, n), v))
    {
      assert k.id in row && k == Id(Current(Entry(t, n), k.id.v));
    }
    PhiBlockIntro(c, irdst, t, n, a);
  }

  // ----- the variables some phi receives unassigned -----

  /** Some phi has this argument. */
  ghost predicate IsArgument(phinodes: PhiNodes, x: Ident) {
    exists n, id :: n in phinodes && id in phinodes[n] && x in phinodes[n][id]
  }

  method RowArguments(row: map<Ident, set<Ident>>) returns (s: set<Ident>)
    ensures forall x :: x in s <==> exists id :: id in row && x in row[id]
  {
    s := {};
    var todo := row.Keys;
    while todo != {}
      invariant todo <= row.Keys
      invariant forall x :: x in s <==> exists id :: id in row && id !in todo && x in row[id]
      decreases todo
    {
      var id :| id in todo;
      todo := todo - {id};
      s := s + row[id];
    }
  }

  method UndefinedArguments(phinodes: PhiNodes, reg: map<Ident, Ident>) returns (s: set<Ident>)
    ensures forall x :: x in s <==> x !in reg && IsArgument(phinodes, x)
  {
    s := {};
    var todo := phinodes.Keys;
    while todo != {}
      invariant todo <= phinodes.Keys
      invariant forall x :: x in s <==>
        x !in reg && exists n, id :: n in phinodes && n !in todo && id in phinodes[n] && x in phinodes[n][id]
      decreases todo
    {
      var n :| n in todo;
      todo := todo - {n};
      var args := RowArguments(phinodes[n]);
      s := s + set x | x in args && x !in reg;
    }
  }

  // ----- simplifying all blocks -----

  method SimplifyAssign(b: AssignBlk, r: map<Ident, Ident>) returns (b': AssignBlk)
    ensures Simplified(b, r, b')
  {
    b' := map[];
    var todo := b.Keys;
    while todo != {}
      invariant todo <= b.Keys
      invariant forall d :: d in b && d !in todo && d != b[d] ==> Replace(d, r) in b'
      invariant forall k :: k in b' ==> SimplifiedFrom(b, r, k, b'[k])
      decreases todo
    {
      var d :| d in todo;
      todo := todo - {d};
      if d == b[d] {
        continue;
      }
      assert SimplifiedFrom(b, r, Replace(d, r), Replace(b[d], r));
      b' := b'[Replace(d, r) := Replace(b[d], r)];
    }
  }

  method SimplifyBlock(b: Block, r: map<Ident, Ident>) returns (b': Block)
    ensures SimplifiedBlock(b, r, b')
  {
    hide Simplified;
    b' := [];
    for i := 0 to |b|
      invariant |b'| == i && forall j :: 0 <= j < i ==> Simplified(b[j], r, b'[j])
    {
      var a := SimplifyAssign(b[i], r);
      b' := b' + [a];
    }
  }

  method SimplifyAll(blocks0: map<Loc, Block>, r: map<Ident, Ident>) returns (blocks: map<Loc, Block>)
    ensures blocks.Keys == blocks0.Keys
    ensures forall n :: n in blocks0 ==> SimplifiedBlock(blocks0[n], r, blocks[n])
  {
    hide SimplifiedBlock;
    blocks := map[];
    var todo := blocks0.Keys;
    while todo != {}
      invariant todo <= blocks0.Keys && blocks.Keys == blocks0.Keys - todo
      invariant forall n :: n in blocks ==> SimplifiedBlock(blocks0[n], r, blocks[n])
      decreases todo
    {
      var n :| n in todo;
      todo := todo - {n};
      var b := SimplifyBlock(blocks0[n], r);
      blocks := blocks[n := b];
    }
  }

  lemma {:induction false} SimplifiedExists(b: AssignBlk, r: map<Ident, Ident>) returns (b': AssignBlk)
    ensures Simplified(b, r, b')
    decreases b.Keys
  {
    if b == map[] {
      b' := map[];
    } else {
      var d :| d in b;
      var rest := b - {d};
      assert rest.Keys == b.Keys - {d};
      var b0 := SimplifiedExists(rest, r);
      b' := if d == b[d] then b0 else b0[Replace(d, r) := Replace(b[d], r)];
      forall k | k in b'
        ensures SimplifiedFrom(b, r, k, b'[k])
      {
        if k in b0 && b'[k] == b0[k] {
          assert SimplifiedFrom(rest, r, k, b0[k]);
        }
      }
    }
  }

  // ----- the whole program, missing blocks included -----

  ghost function SomeRow(row: map<Ident, set<Ident>>): (a: AssignBlk)
    ensures HoldsRow(row, a)
  {
    assert exists a :: HoldsRow(row, a) by { var a := RowBlockExists(row); }
    var a :| HoldsRow(row, a);
    a
  }

  ghost function SomeSimplified(b: AssignBlk, r: map<Ident, Ident>): (b': AssignBlk)
    ensures Simplified(b, r, b')
  {
    assert exists b' :: Simplified(b, r, b') by { var b' := SimplifiedExists(b, r); }
    var b' :| Simplified(b, r, b');
    b'
  }

  /** The blocks with phis; a missing block has its phis and nothing else. */
  ghost function WithMissing(blocks: map<Loc, Block>, nodes: set<Loc>, phinodes: PhiNodes): (r: map<Loc, Block>) {
    map n | n in nodes ::
      if n in blocks then blocks[n] else if n in phinodes then [SomeRow(phinodes[n])] else []
  }

  lemma MissingInserted(before: map<Loc, Block>, blocks: map<Loc, Block>, nodes: set<Loc>, phinodes: PhiNodes)
    requires blocks.Keys == before.Keys <= nodes
    requires forall n :: n in before ==> PhiInserted(phinodes, n, before[n], blocks[n])
    ensures forall n :: n in nodes ==>
      PhiInserted(phinodes, n, Filled(before, nodes)[n], WithMissing(blocks, nodes, phinodes)[n])
  {
    hide HoldsRow;
  }

  /** The final blocks; the phis of a missing block are simplified like the others. */
  ghost function FinalWithMissing(blocks: map<Loc, Block>, mid: map<Loc, Block>, r: map<Ident, Ident>): (f: map<Loc, Block>) {
    map n | n in mid :: if n in blocks then blocks[n] else
      seq(|mid[n]|, i requires 0 <= i < |mid[n]| => SomeSimplified(mid[n][i], r))
  }

  lemma MissingFixed(head: Loc, fix: Versions, before: map<Loc, Block>, blocks: map<Loc, Block>, mid: map<Loc, Block>)
    requires blocks.Keys == before.Keys <= mid.Keys && (forall n :: n in before ==> mid[n] == before[n])
    requires forall n :: n in before ==> FixedBlock(head, fix, n, before[n], blocks[n])
    requires fix != map[] ==> head in blocks
    ensures forall n :: n in mid ==> FixedBlock(head, fix, n, mid[n], FinalWithMissing(blocks, mid, Renaming(fix))[n])
  {
    hide Simplified;
  }

  // ----- arguments and versions -----

  /** An argument of a phi belongs to a variable that has one, and comes from a predecessor. */
  lemma ArgumentOrigin(c: Cfg, t: Tables, phinodes: PhiNodes, x: Ident) returns (n: Loc, p: Loc)
    requires PhiRows(c, t, phinodes) && IsArgument(phinodes, x)
    ensures x.v in Phis(t.phi, n) && p in t.trace && p in Prev(c.flow, n)
  {
    var id;
    n, id :| n in phinodes && id in phinodes[n] && x in phinodes[n][id];
    assert RowOk(c, t, n, phinodes[n]) && x in DoneSources(c, t, n, id.v);
    p :| p in t.trace && p in Prev(c.flow, n) && x == Current(Exit(t, p), id.v);
  }

  lemma UnversionedIsArgument(c: Cfg, t: Tables, phinodes: PhiNodes, n: Loc, v: Var, p: Loc)
    requires Coherent(c.flow) && PhiRows(c, t, phinodes) && v in Phis(t.phi, n) && Edge(c.flow, p, n)
    requires p in t.trace && |t.trace[p]| > 0 && v !in Exit(t, p)
    ensures IsArgument(phinodes, Plain(v))
  {
    assert RowOk(c, t, n, phinodes[n]);
    assert p in Prev(c.flow, n);
    var id := RowDst(t, n, v);
    assert id.v == v && id in phinodes[n];
    assert Current(Exit(t, p), v) == Plain(v) && Plain(v) in DoneSources(c, t, n, v);
  }
}
