/**
 The SSA transform of a whole graph (miasm/analysis/ssa.py): placing phis, renaming along
 the dominator tree with a stack of saved versions, inserting the phis, and giving an
 initial version to the variables that reach a phi unassigned.
 */
module SsaTransform {
  import opened Paths
  import opened Dominators
  import opened DiGraphs
  import opened Ir
  import opened SsaForm
  import opened SsaMeaning
  import opened SsaTables
  import opened SsaRenaming
  import opened SsaWalk
  import opened SsaPlacement
  import opened SsaPhis

  /** Every registered identifier is a version, registered with its variable. */
  ghost predicate RegistryOk(reg: map<Ident, Ident>) {
    forall id :: id in reg ==> id.Ssa? && reg[id] == Plain(id.v)
  }

  class SsaDiGraph {
    const graph: DiGraph<Loc>
    const irdst: Var
    var blocks: map<Loc, Block>
    var stackRhs: Versions
    var stackLhs: Versions
    var ssaVariableToExpr: map<Ident, Ident>
    var defs: map<Var, set<Loc>>
    var phinodes: map<Loc, map<Ident, set<Ident>>>

    constructor (graph: DiGraph<Loc>, irdst: Var, blocks: map<Loc, Block>)
      ensures this.graph == graph && this.irdst == irdst && this.blocks == blocks
      ensures stackRhs == map[] && stackLhs == map[] && ssaVariableToExpr == map[]
      ensures defs == map[] && phinodes == map[]
    {
      this.graph, this.irdst, this.blocks := graph, irdst, blocks;
      stackRhs, stackLhs, ssaVariableToExpr, defs, phinodes := map[], map[], map[], map[], map[];
    }

    // ----- one variable, one expression -----

    method TransformVarRhs(id: Ident) returns (r: Ident)
      requires RegistryOk(ssaVariableToExpr)
      modifies this`ssaVariableToExpr
      ensures r == if id.Plain? then Current(stackRhs, id.v) else id
      ensures RegistryOk(ssaVariableToExpr) && ssaVariableToExpr.Keys >= old(ssaVariableToExpr.Keys)
      ensures id.Plain? && id.v in stackRhs ==> r in ssaVariableToExpr
    {
      // the variable has never been on the left-hand side
      if id.Ssa? || id.v !in stackRhs {
        return id;
      }
      r := Ssa(id.v, stackRhs[id.v]);
      ssaVariableToExpr := ssaVariableToExpr[r := id];
    }

    method TransformVarLhs(v: Var) returns (r: Ident)
      requires RegistryOk(ssaVariableToExpr)
      modifies this`stackRhs, this`stackLhs, this`ssaVariableToExpr
      ensures r == Ssa(v, Count(old(stackLhs), v))
      ensures stackRhs == old(stackRhs)[v := r.index] && stackLhs == old(stackLhs)[v := r.index]
      ensures RegistryOk(ssaVariableToExpr) && ssaVariableToExpr == old(ssaVariableToExpr)[r := Plain(v)]
    {
      if v !in stackLhs {
        stackLhs := stackLhs[v := 0];
      }
      stackRhs := stackRhs[v := stackLhs[v]];
      r := Ssa(v, stackLhs[v]);
      ssaVariableToExpr := ssaVariableToExpr[r := Plain(v)];
    }

    method TransformExpressionRhs(e: Expr) returns (r: Expr)
      requires RegistryOk(ssaVariableToExpr)
      modifies this`ssaVariableToExpr
      ensures r == Rename(e, stackRhs)
      ensures RegistryOk(ssaVariableToExpr) && ssaVariableToExpr.Keys >= old(ssaVariableToExpr.Keys)
      ensures forall v :: Plain(v) in Ids(e) && v in stackRhs ==> Current(stackRhs, v) in ssaVariableToExpr
    {
      var variables := Ids(e);
      var toReplace: map<Ident, Ident> := map[];
      while variables != {}
        invariant variables <= Ids(e)
        invariant RegistryOk(ssaVariableToExpr) && ssaVariableToExpr.Keys >= old(ssaVariableToExpr.Keys)
        invariant forall id :: id in Ids(e) && id !in variables ==>
          Image(toReplace, id) == Image(Renaming(stackRhs), id)
        invariant forall v :: Plain(v) in Ids(e) && Plain(v) !in variables && v in stackRhs ==>
          Current(stackRhs, v) in ssaVariableToExpr
        decreases variables
      {
        var id :| id in variables;
        variables := variables - {id};
        var ssa := TransformVarRhs(id);
        toReplace := toReplace[id := ssa];
      }
      ReplaceAgree(e, toReplace, Renaming(stackRhs));
      r := Replace(e, toReplace);
    }

    /** A memory destination is read; a variable gets its next version. */
    method TransformExpressionLhs(dst: Expr) returns (r: Expr)
      requires RegistryOk(ssaVariableToExpr)
      requires dst.Mem? || (dst.Id? && dst.id.Plain?)
      modifies this`stackRhs, this`stackLhs, this`ssaVariableToExpr
      ensures RegistryOk(ssaVariableToExpr) && ssaVariableToExpr.Keys >= old(ssaVariableToExpr.Keys)
      ensures dst.Mem? ==> r == Rename(dst, old(stackRhs)) && stackRhs == old(stackRhs) && stackLhs == old(stackLhs)
      ensures dst.Id? ==> r == Id(Ssa(dst.id.v, Count(old(stackLhs), dst.id.v)))
      ensures dst.Id? ==> stackRhs == NextVersions(old(stackRhs), old(stackLhs), {dst.id.v})
      ensures dst.Id? ==> stackLhs == NextCounters(old(stackLhs), {dst.id.v})
      ensures dst.Id? ==> r.id in ssaVariableToExpr
    {
      hide NextVersions, NextCounters, Rename, RegistryOk;
      if dst.Mem? {
        r := TransformExpressionRhs(dst);
      } else {
        NextOne(stackRhs, stackLhs, dst.id.v);
        var id := TransformVarLhs(dst.id.v);
        stackLhs := stackLhs[dst.id.v := stackLhs[dst.id.v] + 1];
        r := Id(id);
      }
    }

    // ----- one assignment block, one block -----

    /** The sources, all read with the versions current before the block. */
    method RenameSources(list: seq<Assignment>) returns (rhs: seq<Expr>)
      requires RegistryOk(ssaVariableToExpr)
      modifies this`ssaVariableToExpr
      ensures RegistryOk(ssaVariableToExpr) && ssaVariableToExpr.Keys >= old(ssaVariableToExpr.Keys)
      ensures |rhs| == |list| && forall j :: 0 <= j < |list| ==> rhs[j] == Rename(list[j].1, stackRhs)
    {
      rhs := [];
      for i := 0 to |list|
        invariant RegistryOk(ssaVariableToExpr) && ssaVariableToExpr.Keys >= old(ssaVariableToExpr.Keys)
        invariant |rhs| == i && forall j :: 0 <= j < i ==> rhs[j] == Rename(list[j].1, stackRhs)
      {
        var src := TransformExpressionRhs(list[i].1);
        rhs := rhs + [src];
      }
    }

    method RenameDestination(dst: Expr) returns (ssa: Expr)
      requires RegistryOk(ssaVariableToExpr)
      requires dst.Mem? || (dst.Id? && dst.id.Plain?)
      modifies this`stackRhs, this`stackLhs, this`ssaVariableToExpr
      ensures RegistryOk(ssaVariableToExpr) && ssaVariableToExpr.Keys >= old(ssaVariableToExpr.Keys)
      ensures ssa == NewDst(irdst, dst, old(stackRhs), old(stackLhs))
      ensures if dst.Id? && dst.id.v != irdst then
          && stackRhs == NextVersions(old(stackRhs), old(stackLhs), {dst.id.v})
          && stackLhs == NextCounters(old(stackLhs), {dst.id.v})
        else stackRhs == old(stackRhs) && stackLhs == old(stackLhs)
    {
      ssa := dst;
      if dst == Id(Plain(irdst)) || (dst.Id? && dst.id in ssaVariableToExpr) {
      } else {
        ssa := TransformExpressionLhs(dst);
      }
    }

    /** The destinations, memory first so that pointers read no version of this block. */
    method RenameDestinations(ghost a: AssignBlk, list: seq<Assignment>) returns (dsts: seq<Expr>)
      requires RegistryOk(ssaVariableToExpr) && PlainAssign(a) && Enumerates(a, list) && MemoryFirst(list)
      modifies this`stackRhs, this`stackLhs, this`ssaVariableToExpr
      ensures RegistryOk(ssaVariableToExpr) && ssaVariableToExpr.Keys >= old(ssaVariableToExpr.Keys)
      ensures stackRhs == NextVersions(old(stackRhs), old(stackLhs), Defined(irdst, a))
      ensures stackLhs == NextCounters(old(stackLhs), Defined(irdst, a))
      ensures |dsts| == |list|
      ensures forall j :: 0 <= j < |list| ==> dsts[j] == NewDst(irdst, list[j].0, old(stackRhs), old(stackLhs))
    {
      hide DefinedUpTo, NextVersions, NextCounters, Enumerates, PlainAssign, MemoryFirst, NewDst, RegistryOk, Defined;
      ghost var rhs0, lhs0 := stackRhs, stackLhs;
      dsts := [];
      NextNothing(rhs0, lhs0);
      DefinedNone(irdst, list);
      ListLength(a, list);
      for i := 0 to |list|
        invariant RegistryOk(ssaVariableToExpr) && ssaVariableToExpr.Keys >= old(ssaVariableToExpr.Keys)
        invariant stackRhs == NextVersions(rhs0, lhs0, DefinedUpTo(irdst, list, i))
        invariant stackLhs == NextCounters(lhs0, DefinedUpTo(irdst, list, i))
        invariant |dsts| == i
        invariant forall j :: 0 <= j < i ==> dsts[j] == NewDst(irdst, list[j].0, rhs0, lhs0)
      {
        DefinedStep(irdst, a, list, i);
        NewDstStep(irdst, list[i].0, rhs0, lhs0, DefinedUpTo(irdst, list, i));
        var ssa := RenameDestination(list[i].0);
        dsts := dsts + [ssa];
      }
      DefinedAll(irdst, a, list);
    }

    method RenameAssign(a: AssignBlk) returns (out: seq<Assignment>)
      requires RegistryOk(ssaVariableToExpr) && PlainAssign(a) && irdst !in stackRhs
      modifies this`stackRhs, this`stackLhs, this`ssaVariableToExpr
      ensures RegistryOk(ssaVariableToExpr) && ssaVariableToExpr.Keys >= old(ssaVariableToExpr.Keys)
      ensures stackRhs == NextVersions(old(stackRhs), old(stackLhs), Defined(irdst, a))
      ensures stackLhs == NextCounters(old(stackLhs), Defined(irdst, a))
      ensures |out| == |a| && AssignRenamed(irdst, a, ToAssign(out), old(stackRhs), stackRhs)
    {
      var instructions := ParallelInstructions(a);
      var rhs := RenameSources(instructions);
      ghost var rhs0, lhs0 := stackRhs, stackLhs;
      var dsts := RenameDestinations(a, instructions);
      hide PlainAssign, AssignRenamed, MemoryFirst;
      out := seq(|rhs|, i requires 0 <= i < |rhs| => (dsts[i], rhs[i]));
      NewDstIsRenamed(irdst, a, instructions, out, rhs0, lhs0);
      ListMakesBlock(irdst, a, instructions, out, rhs0, stackRhs);
    }

    /** Renames a block: every assignment block reads the versions left by the one before it. */
    method RenameExpressions(loc: Loc, ghost c: Cfg, ghost t: Tables) returns (ghost t': Tables, ghost out: Block)
      requires RegistryOk(ssaVariableToExpr) && irdst !in stackRhs && Below(stackRhs, stackLhs)
      requires loc in c.blocks && BlockAt(blocks, loc) == c.blocks[loc] && PlainBlock(c.blocks[loc])
      requires loc in t.trace && t.trace[loc] == [stackRhs]
      requires SingleAssignment(c, irdst, t) && Fresh(c, irdst, t, stackLhs)
      modifies this`blocks, this`stackRhs, this`stackLhs, this`ssaVariableToExpr
      ensures RegistryOk(ssaVariableToExpr) && ssaVariableToExpr.Keys >= old(ssaVariableToExpr.Keys)
      ensures irdst !in stackRhs && Below(stackRhs, stackLhs) && Grows(old(stackLhs), stackLhs)
      ensures loc in t'.trace && t' == t.(trace := t.trace[loc := t'.trace[loc]])
      ensures SingleAssignment(c, irdst, t') && Fresh(c, irdst, t', stackLhs)
      ensures blocks == if loc in old(blocks) then old(blocks)[loc := out] else old(blocks)
      ensures BlockRenamed(irdst, c.blocks[loc], out, t'.trace[loc])
      ensures Increasing(irdst, c.blocks[loc], t'.trace[loc]) && |t'.trace[loc]| > 0
      ensures Entry(t', loc) == old(stackRhs) && Exit(t', loc) == stackRhs
    {
      hide RegistryOk, Below, Grows, SingleAssignment, Fresh, Converted, AssignRenamed, StepVersions, StepIncreasing,
           PlainAssign, ToAssign, StepDone, NextVersions, NextCounters, Extended, BlockRenamed, Increasing, Offset;
      if loc !in blocks {
        // incomplete graph
        t', out := t, [];
        StepsMakeBlock(irdst, [], [], t'.trace[loc]);
        GrowsNext(stackLhs, stackLhs, {});
        return;
      }
      var b := blocks[loc];
      var flat: seq<Assignment> := [];
      ghost var made: Block := [];
      t' := t;
      ConvertedNothing(b);
      GrowsNext(stackLhs, stackLhs, {});
      for i := 0 to |b|
        invariant RegistryOk(ssaVariableToExpr) && ssaVariableToExpr.Keys >= old(ssaVariableToExpr.Keys)
        invariant irdst !in stackRhs && Below(stackRhs, stackLhs) && blocks == old(blocks)
        invariant Grows(old(stackLhs), stackLhs)
        invariant loc in t'.trace && t' == t.(trace := t.trace[loc := t'.trace[loc]])
        invariant |t'.trace[loc]| == i + 1 && t'.trace[loc][0] == old(stackRhs) && t'.trace[loc][i] == stackRhs
        invariant SingleAssignment(c, irdst, t') && Fresh(c, irdst, t', stackLhs)
        invariant |flat| == Offset(b, i) && |made| == i && Converted(b, flat, made)
        invariant forall j :: 0 <= j < i ==> StepDone(irdst, b, made, t'.trace[loc], j)
      {
        ghost var rhs0, lhs0, t0 := stackRhs, stackLhs, t';
        var list := RenameAssign(b[i]);
        NextIsStep(irdst, b[i], rhs0, lhs0);
        GrowsNext(old(stackLhs), lhs0, Defined(irdst, b[i]));
        PlaceOfAssign(c, irdst, t0, loc, i, rhs0, lhs0);
        ExtendedTrace(t0, loc, stackRhs);
        t' := Extended(t0, loc, stackRhs);
        ConvertedGrows(b, flat, made, list);
        StepsGrow(irdst, b, made, t0.trace[loc], ToAssign(list), stackRhs);
        flat, made := flat + list, made + [ToAssign(list)];
      }
      var renamed := ConvertBlock(b, flat);
      out := renamed;
      ConvertedUnique(b, flat, out, made);
      StepsMakeBlock(irdst, b, out, t'.trace[loc]);
      blocks := blocks[loc := renamed];
    }

    // ----- phis -----

    /** Gives its next version to each variable of a row of phis. */
    method RenameRow(row0: map<Ident, set<Ident>>) returns (row: map<Ident, set<Ident>>)
      requires RegistryOk(ssaVariableToExpr) && PlainRow(row0)
      modifies this`stackRhs, this`stackLhs, this`ssaVariableToExpr
      ensures RegistryOk(ssaVariableToExpr) && ssaVariableToExpr.Keys >= old(ssaVariableToExpr.Keys)
      ensures stackRhs == NextVersions(old(stackRhs), old(stackLhs), RowVars(row0))
      ensures stackLhs == NextCounters(old(stackLhs), RowVars(row0))
      ensures row == Rekeyed(row0, stackRhs) && row.Keys <= ssaVariableToExpr.Keys
    {
      hide NextVersions, NextCounters, RekeyedUpTo, RowVars, RegistryOk, PlainRow, DoneVars, Rekeyed;
      row := row0;
      ghost var rhs0, lhs0 := stackRhs, stackLhs;
      var todo := row.Keys;
      RekeyStart(row0, rhs0, lhs0);
      while todo != {}
        invariant todo <= row0.Keys
        invariant RegistryOk(ssaVariableToExpr) && ssaVariableToExpr.Keys >= old(ssaVariableToExpr.Keys)
        invariant RekeyedUpTo(row0, row, todo, lhs0)
        invariant stackRhs == NextVersions(rhs0, lhs0, DoneVars(row0, todo))
        invariant stackLhs == NextCounters(lhs0, DoneVars(row0, todo))
        invariant row.Keys <= ssaVariableToExpr.Keys + todo
        decreases todo
      {
        var dst :| dst in todo;
        RekeyStep(row0, row, todo, dst, lhs0);
        RekeyCounters(row0, todo, dst, rhs0, lhs0);
        var args := row[dst];
        var ssa := TransformExpressionLhs(Id(dst));
        row := (row - {dst})[ssa.id := args];
        todo := todo - {dst};
      }
      RekeyEnd(row0, row, rhs0, lhs0);
    }

    method RenamePhiLhs(loc: Loc)
      requires RegistryOk(ssaVariableToExpr) && PlainRow(Row(phinodes, loc))
      modifies this`phinodes, this`stackRhs, this`stackLhs, this`ssaVariableToExpr
      ensures RegistryOk(ssaVariableToExpr) && ssaVariableToExpr.Keys >= old(ssaVariableToExpr.Keys)
      ensures stackRhs == NextVersions(old(stackRhs), old(stackLhs), RowVars(Row(old(phinodes), loc)))
      ensures stackLhs == NextCounters(old(stackLhs), RowVars(Row(old(phinodes), loc)))
      ensures phinodes == PhiVisited(old(phinodes), loc, stackRhs)
      ensures Row(phinodes, loc).Keys <= ssaVariableToExpr.Keys
    {
      hide NextVersions, NextCounters, RegistryOk, PlainRow, Rekeyed;
      if loc in phinodes {
        var row := RenameRow(phinodes[loc]);
        phinodes := phinodes[loc := row];
      } else {
        assert RowVars(map[]) == {};
        NextNothing(stackRhs, stackLhs);
      }
    }

    /** Adds the version leaving the current block to every phi of a row. */
    method AddCurrent(row0: map<Ident, set<Ident>>) returns (row: map<Ident, set<Ident>>)
      requires RegistryOk(ssaVariableToExpr)
      requires forall id :: id in row0 && id.Ssa? ==> id in ssaVariableToExpr
      modifies this`ssaVariableToExpr
      ensures RegistryOk(ssaVariableToExpr) && ssaVariableToExpr.Keys >= old(ssaVariableToExpr.Keys)
      ensures row == AddSource(row0, stackRhs)
      ensures forall id :: id in row0 && id.v in stackRhs ==> Current(stackRhs, id.v) in ssaVariableToExpr
    {
      hide RegistryOk;
      row := row0;
      var todo := row.Keys;
      while todo != {}
        invariant todo <= row0.Keys && row.Keys == row0.Keys
        invariant RegistryOk(ssaVariableToExpr) && ssaVariableToExpr.Keys >= old(ssaVariableToExpr.Keys)
        invariant forall id :: id in row0 ==> row[id] == SourceAdded(row0, todo, stackRhs, id)
        invariant forall id :: id in row0 && id !in todo && id.v in stackRhs ==> Current(stackRhs, id.v) in ssaVariableToExpr
        decreases todo
      {
        var dst :| dst in todo;
        todo := todo - {dst};
        var expr := if dst in ssaVariableToExpr then ssaVariableToExpr[dst] else dst;
        ReverseVariable(ssaVariableToExpr, dst);
        assert Plain(dst.v) in Ids(Id(expr));
        RenameVariable(dst.v, stackRhs);
        hide Rename, Current;
        var src := TransformExpressionRhs(Id(expr));
        row := row[dst := row[dst] + {src.id}];
      }
      assert row == AddSource(row0, stackRhs);
    }

    method RenamePhiRhs(successor: Loc)
      requires RegistryOk(ssaVariableToExpr) && PhiRegistered(phinodes, ssaVariableToExpr)
      modifies this`phinodes, this`ssaVariableToExpr
      ensures RegistryOk(ssaVariableToExpr) && ssaVariableToExpr.Keys >= old(ssaVariableToExpr.Keys)
      ensures PhiRegistered(phinodes, ssaVariableToExpr)
      ensures phinodes == SuccessorUpdated(old(phinodes), successor, stackRhs)
    {
      hide RegistryOk, PhiRegistered, AddSource;
      ghost var reg0 := ssaVariableToExpr;
      if successor in phinodes {
        RowRegistered(phinodes, reg0, successor);
        var row := AddCurrent(phinodes[successor]);
        PhiRegisteredAdd(phinodes, reg0, ssaVariableToExpr, successor, stackRhs);
        phinodes := phinodes[successor := row];
      }
    }

    /** The phis of every successor receive the version leaving the block. */
    method UpdateSuccessors(loc: Loc)
      requires RegistryOk(ssaVariableToExpr) && PhiRegistered(phinodes, ssaVariableToExpr)
      modifies this`phinodes, this`ssaVariableToExpr
      ensures RegistryOk(ssaVariableToExpr) && ssaVariableToExpr.Keys >= old(ssaVariableToExpr.Keys)
      ensures PhiRegistered(phinodes, ssaVariableToExpr)
      ensures phinodes == SuccessorsUpdated(old(phinodes), Next(graph.View(), loc), stackRhs)
    {
      hide RegistryOk, PhiRegistered, SuccessorsUpdated, SuccessorUpdated;
      var succs := Next(graph.View(), loc);
      UpdatedNone(phinodes, stackRhs);
      for i := 0 to |succs|
        invariant RegistryOk(ssaVariableToExpr) && ssaVariableToExpr.Keys >= old(ssaVariableToExpr.Keys)
        invariant PhiRegistered(phinodes, ssaVariableToExpr)
        invariant phinodes == SuccessorsUpdated(old(phinodes), succs[..i], stackRhs)
      {
        UpdatedOne(old(phinodes), succs, i, stackRhs);
        RenamePhiRhs(succs[i]);
      }
      assert succs[..|succs|] == succs;
    }

    /** Renames one block of the walk: its phis, its expressions, then the phis of its successors. */
    method Visit(loc: Loc, ghost c: Cfg, ghost idoms: map<Loc, Loc>, ghost t: Tables) returns (ghost tr: seq<Versions>)
      requires c.flow == graph.View() && CompleteCfg(c) && loc in c.blocks && loc !in t.trace
      requires Blocks(c, irdst, idoms, t, Filled(blocks, c.blocks.Keys)) && blocks.Keys <= c.blocks.Keys
      requires PhiRows(c, t, phinodes) && Saved(c, idoms, t, loc, stackRhs)
      requires SingleAssignment(c, irdst, t) && Fresh(c, irdst, t, stackLhs)
      requires Below(stackRhs, stackLhs) && irdst !in stackRhs && irdst !in Phis(t.phi, loc) && c.head !in t.phi
      requires RegistryOk(ssaVariableToExpr) && PhiRegistered(phinodes, ssaVariableToExpr)
      modifies this`blocks, this`phinodes, this`stackRhs, this`stackLhs, this`ssaVariableToExpr
      ensures |tr| > 0 && stackRhs == tr[|tr| - 1]
      ensures Blocks(c, irdst, idoms, Visited(t, loc, tr), Filled(blocks, c.blocks.Keys)) && blocks.Keys == old(blocks.Keys)
      ensures PhiRows(c, Visited(t, loc, tr), phinodes)
      ensures SingleAssignment(c, irdst, Visited(t, loc, tr)) && Fresh(c, irdst, Visited(t, loc, tr), stackLhs)
      ensures Below(stackRhs, stackLhs) && irdst !in stackRhs && Grows(old(stackLhs), stackLhs)
      ensures RegistryOk(ssaVariableToExpr) && PhiRegistered(phinodes, ssaVariableToExpr)
    {
      hide Blocks, PhiRows, Saved, SingleAssignment, Fresh, Below, Grows, RegistryOk, PhiRegistered, CompleteCfg,
           NextVersions, NextCounters, Extended, BlockRenamed, Increasing, PlainRow, RowVars, Rekeyed, DoneBlock, EntryOk,
           Visited, SuccessorsUpdated, PhiVisited, Row, EntryVersions, Phis, PlainBlock, Filled;
      ghost var base, lhs0, phi0, blocks0, reg0 := stackRhs, stackLhs, phinodes, blocks, ssaVariableToExpr;
      PlainBeforeVisit(c, t, phinodes, loc);
      RenamePhiLhs(loc);
      ghost var entry, lhs1, reg1 := stackRhs, stackLhs, ssaVariableToExpr;
      OpeningPlace(c, irdst, idoms, t, loc, base, lhs0);
      PhiRegisteredVisit(phi0, reg0, reg1, loc, entry);
      BlockToVisit(c, irdst, idoms, t, blocks, loc);
      ghost var t2, out := RenameExpressions(loc, c, Visited(t, loc, [entry]));
      tr := t2.trace[loc];
      TraceOfVisit(t, t2, loc, entry, tr);
      VisitDone(c, irdst, idoms, t, loc, base, tr, out);
      BlocksStep(c, irdst, idoms, t, Filled(blocks0, c.blocks.Keys), loc, tr, out);
      BlockRenamedLength(irdst, c.blocks[loc], out, tr);
      FilledUpdate(blocks0, c.blocks.Keys, loc, out);
      GrowsTrans(lhs0, lhs1, stackLhs);
      PhiRegisteredGrows(phinodes, reg1, ssaVariableToExpr);
      UpdateSuccessors(loc);
      CompleteCoherent(c);
      PhiRowsStep(c, t, phi0, loc, tr);
    }

    /** Renames every block, walking the dominator tree depth first with a stack of saved versions. */
    method RenameAll(ghost c: Cfg, head: Loc, ghost phi: map<Loc, set<Var>>) returns (ghost idoms: map<Loc, Loc>, ghost t: Tables)
      requires graph.Valid() && c.flow == graph.View() && c.head == head && CompleteCfg(c)
      requires blocks.Keys <= c.blocks.Keys && c.blocks == Filled(blocks, c.blocks.Keys)
      requires stackRhs == map[] && stackLhs == map[] && ssaVariableToExpr == map[]
      requires PhiVars(irdst, head, phi) && PhiRows(c, Tables(phi, map[]), phinodes)
      modifies this`blocks, this`phinodes, this`stackRhs, this`stackLhs, this`ssaVariableToExpr
      ensures ImmediateDominators(c.flow, head, idoms) && t.phi == phi && (forall n :: n in c.blocks ==> n in t.trace)
      ensures Blocks(c, irdst, idoms, t, Filled(blocks, c.blocks.Keys)) && PhiRows(c, t, phinodes)
      ensures blocks.Keys == old(blocks.Keys)
      ensures SingleAssignment(c, irdst, t) && Fresh(c, irdst, t, stackLhs)
      ensures RegistryOk(ssaVariableToExpr) && PhiRegistered(phinodes, ssaVariableToExpr)
    {
      hide CompleteCfg, ImmediateDominators, PhiRows, WalkInv, Blocks, Pending, PhiRegistered, RegistryOk, Fresh,
           SingleAssignment, AreChildren, PhiVars, StackBelow, Filled;
      var tree: DiGraph<Loc>;
      tree, idoms := graph.ComputeDominatorTree(head);
      var stack := [stackRhs];
      var todo := [head];
      t := Tables(phi, map[]);
      TreeWalkStart(c, irdst, idoms, t, Filled(blocks, c.blocks.Keys), phinodes, stackLhs);
      RegisteredStart(c, t, phinodes);
      while todo != []
        invariant WalkInv(c, irdst, idoms, t, Filled(blocks, c.blocks.Keys), phinodes, todo, stack, stackLhs) && |stack| == |todo|
        invariant RegistryOk(ssaVariableToExpr) && PhiRegistered(phinodes, ssaVariableToExpr)
        invariant t.phi == phi && blocks.Keys == old(blocks.Keys) && graph.View() == old(graph.View())
        invariant fresh(tree) && tree.Valid() && NoDuplicates(tree.edges)
        invariant forall a, b :: (a, b) in tree.edges <==> b in idoms && a == idoms[b]
        decreases c.blocks.Keys - t.trace.Keys
      {
        var k := |todo| - 1;
        var loc := todo[k];
        var children := Next(tree.View(), loc);
        TreeChildren(c, idoms, tree, loc);
        TreeWalkTop(c, irdst, idoms, t, Filled(blocks, c.blocks.Keys), phinodes, todo, stack, stackLhs);
        assert loc in c.blocks.Keys - t.trace.Keys;
        // restore the versions saved by the parent in the dominator tree
        stackRhs := stack[k];
        ghost var lhs0, blocks0, phinodes0 := stackLhs, Filled(blocks, c.blocks.Keys), phinodes;
        ghost var tr := Visit(loc, c, idoms, t);
        // save the current versions for the children
        var current := stackRhs;
        var saved := seq(|children|, _ => current);
        TreeWalkStep(c, irdst, idoms, t, blocks0, Filled(blocks, c.blocks.Keys), phinodes0, phinodes, todo, stack, lhs0, stackLhs, tr, children, saved);
        todo := todo[..k] + children;
        stack := stack[..k] + saved;
        t := Visited(t, loc, tr);
      }
      TreeWalkEnd(c, irdst, idoms, t, Filled(blocks, c.blocks.Keys), phinodes, stackLhs);
    }

    // ----- the other steps -----

    /** Registers the blocks assigning each variable; refused when some block cannot be reached. */
    method InitVariableDefs(head: Loc) returns (ok: bool)
      modifies this`defs
      ensures ok <==> forall n :: n in blocks ==> Reach(graph.View(), head, n)
      ensures forall v, x :: x in Sites(defs, v) <==>
        x in blocks && Reach(graph.View(), head, x) && DefinedInBlock(irdst, blocks[x], v)
    {
      var f := graph.View();
      ok, defs := VariableDefs(f, head, irdst, blocks);
      assert graph.View() == f;
    }

    /** Places the phis: closed under the dominance frontier, and no set of phis that is closed is smaller. */
    method PlacePhi(head: Loc, ghost c: Cfg) returns (ghost phi: map<Loc, set<Var>>)
      requires graph.Valid() && c.flow == graph.View() && c.head == head && CompleteCfg(c)
      requires DefinedSites(c, irdst, defs)
      modifies this`phinodes
      ensures PhiClosed(c, irdst, phi) && PhiVars(irdst, head, phi) && PhiRows(c, Tables(phi, map[]), phinodes)
      ensures forall phi', n, v :: PhiClosed(c, irdst, phi') && v in Phis(phi, n) ==> v in Phis(phi', n)
    {
      hide CompleteCfg, PhiClosed, DefinedSites, PlacedRows, Iterated, FrontierTable, PhiOf, PhiRows, PhiVars, Phis;
      graph.ViewEdges();
      var frontier := ComputeDominanceFrontier(graph.View(), head);
      ghost var places;
      phinodes, places := PlaceAll(frontier, defs);
      phi := PhiOf(phinodes);
      PlacedClosed(c, irdst, frontier, defs, phinodes, places);
      PlacedStart(c, irdst, frontier, defs, phinodes, places);
      forall phi', n, v | PhiClosed(c, irdst, phi') && v in Phis(phi, n)
        ensures v in Phis(phi', n)
      {
        PlacedMinimal(c, irdst, frontier, defs, phinodes, places, phi', n, v);
      }
    }

    /** Puts the phis at the front of their blocks. */
    method ConvertPhi()
      requires forall n :: n in blocks && n in phinodes ==> !HasPhi(blocks[n])
      modifies this`blocks
      ensures blocks.Keys == old(blocks.Keys)
      ensures forall n :: n in blocks ==> PhiInserted(phinodes, n, old(blocks)[n], blocks[n])
    {
      blocks := InsertPhis(phinodes, blocks);
    }

    /** Gives its next version to each variable of s. */
    method NameUndefined(s: set<Ident>) returns (fix: Versions)
      requires RegistryOk(ssaVariableToExpr) && forall x :: x in s ==> x.Plain?
      modifies this`stackRhs, this`stackLhs, this`ssaVariableToExpr
      ensures forall v :: v in fix <==> Plain(v) in s
      ensures forall v :: v in fix ==> fix[v] == Count(old(stackLhs), v)
      ensures RegistryOk(ssaVariableToExpr)
      ensures forall v :: v in fix ==> Ssa(v, fix[v]) in ssaVariableToExpr
    {
      fix := map[];
      var todo := s;
      while todo != {}
        invariant todo <= s && RegistryOk(ssaVariableToExpr)
        invariant forall v :: v in fix <==> Plain(v) in s && Plain(v) !in todo
        invariant forall v :: v in fix ==> fix[v] == Count(old(stackLhs), v) && Ssa(v, fix[v]) in ssaVariableToExpr
        invariant forall v :: v !in fix ==> Count(stackLhs, v) == Count(old(stackLhs), v)
        decreases todo
      {
        var x :| x in todo;
        todo := todo - {x};
        var name := TransformVarLhs(x.v);
        fix := fix[x.v := name.index];
      }
    }

    /** Gives an initial version, at the head, to the variables that some phi receives unassigned. */
    method FixNoDefVar(head: Loc) returns (ghost fix: Versions)
      requires RegistryOk(ssaVariableToExpr) && PhiRegistered(phinodes, ssaVariableToExpr)
      requires (exists v :: IsArgument(phinodes, Plain(v))) ==> head in blocks && blocks[head] != []
      modifies this`blocks, this`phinodes, this`stackRhs, this`stackLhs, this`ssaVariableToExpr
      ensures forall v :: v in fix <==> IsArgument(old(phinodes), Plain(v))
      ensures forall v :: v in fix ==> fix[v] == Count(old(stackLhs), v)
      ensures blocks.Keys == old(blocks.Keys)
      ensures forall n :: n in blocks ==> FixedBlock(head, fix, n, old(blocks)[n], blocks[n])
      ensures phinodes == ReplaceRows(old(phinodes), Renaming(fix))
    {
      hide RegistryOk, PhiRegistered, IsArgument, SimplifiedBlock, Renaming, ReplaceRows, InitBlock;
      var undefined := UndefinedArguments(phinodes, ssaVariableToExpr);
      UndefinedArePlain(phinodes, ssaVariableToExpr, undefined);
      var names := NameUndefined(undefined);
      fix := names;
      var r := Renaming(names);
      blocks := SimplifyAll(blocks, r);
      if names != map[] {
        var v :| v in names;
        SimplifiedLength(old(blocks)[head], r, blocks[head]);
        var first := blocks[head][0];
        blocks := blocks[head := [InitBlock(names)] + blocks[head]];
      }
      phinodes := ReplaceRows(phinodes, r);
    }

    /** The whole transform. It stops, blocks untouched, exactly when some block cannot be reached
        from the head; otherwise the blocks are those of a program in SSA form. */
    method Transform(head: Loc) returns (ok: bool, ghost g: Conversion)
      requires graph.Valid() && Prev(graph.View(), head) == [] && EdgesFromBlocks(graph.View(), blocks)
      requires forall n :: n in blocks ==> PlainBlock(blocks[n])
      requires stackRhs == map[] && stackLhs == map[] && ssaVariableToExpr == map[]
      modifies this
      ensures ok <==> forall n :: n in old(blocks) ==> Reach(graph.View(), head, n)
      ensures blocks.Keys == old(blocks.Keys)
      ensures !ok ==> blocks == old(blocks)
      ensures ok ==> IsSsa(g) && g.irdst == irdst && SameGraph(g.c, graph.View(), head, old(blocks))
      ensures ok ==> forall n :: n in blocks ==> n in g.final && blocks[n] == g.final[n]
      ensures ok ==> MinimalPhi(g.c, irdst, g.t.phi)
    {
      hide Reach, EdgesFromBlocks, PlainBlock, CompleteCfg, SameGraph, DefinedSites, PhiClosed, Blocks, PhiRows, Fresh,
           SingleAssignment, RegistryOk, PhiRegistered, PhiVars, Filled, IsSsa, ImmediateDominators, DefinedInBlock,
           WalkDone, Phis;
      g := Conversion(Cfg(graph.View(), head, blocks), irdst, map[], Tables(map[], map[]), blocks);
      ok := InitVariableDefs(head);
      if !ok {
        return;
      }
      graph.ViewEdges();
      ghost var c := WholeGraph(graph.View(), head, blocks);
      SitesOfWhole(c, irdst, graph.View(), head, blocks, defs);
      ghost var phi := PlacePhi(head, c);
      ghost var idoms, t := RenameAll(c, head, phi);
      WalkIsDone(c, irdst, idoms, t, blocks, phinodes, stackLhs);
      g := InsertAndFix(head, c, idoms, t, old(blocks));
    }

    /** The steps after the renaming walk. */
    method InsertAndFix(head: Loc, ghost c: Cfg, ghost idoms: map<Loc, Loc>, ghost t: Tables, ghost orig: map<Loc, Block>)
        returns (ghost g: Conversion)
      requires WalkDone(c, irdst, idoms, t, blocks, phinodes, stackLhs) && blocks.Keys <= c.blocks.Keys
      requires RegistryOk(ssaVariableToExpr) && PhiRegistered(phinodes, ssaVariableToExpr)
      requires SameGraph(c, c.flow, head, orig) && EdgesFromBlocks(c.flow, orig) && orig.Keys == blocks.Keys && c.head == head
      modifies this
      ensures blocks.Keys == old(blocks.Keys)
      ensures IsSsa(g) && g.irdst == irdst && g.c == c && g.t.phi == t.phi
      ensures forall n :: n in blocks ==> n in g.final && blocks[n] == g.final[n]
    {
      hide WalkDone, RegistryOk, PhiRegistered, SameGraph, EdgesFromBlocks, PhiInserted, HasPhi, IsArgument, FixedBlock, Count,
           IsSsa, Renaming, ReplaceRows;
      ghost var before, lhs, rows := blocks, stackLhs, phinodes;
      NoPhiYet(c, irdst, idoms, t, blocks, phinodes, stackLhs);
      ConvertPhi();
      ghost var converted := blocks;
      HeadExists(c, irdst, idoms, t, lhs, orig, before, converted, rows);
      ghost var fix := FixNoDefVar(head);
      g := Assembled(c, irdst, idoms, t, lhs, before, converted, blocks, rows, fix);
    }
  }

  lemma NextOne(rhs: Versions, lhs: Versions, v: Var)
    ensures NextVersions(rhs, lhs, {v}) == rhs[v := Count(lhs, v)]
    ensures NextCounters(lhs, {v}) == lhs[v := Count(lhs, v) + 1]
  {}

  // ----- the whole transform -----

  /** Only blocks that exist and are not empty have successors. */
  ghost predicate EdgesFromBlocks(f: Flow<Loc>, blocks: map<Loc, Block>) {
    forall a, b :: Edge(f, a, b) ==> a in blocks && blocks[a] != []
  }

  /** c is the given graph, missing blocks made explicit. */
  ghost predicate SameGraph(c: Cfg, f: Flow<Loc>, head: Loc, blocks: map<Loc, Block>) {
    && c.flow == f && c.head == head && c.blocks == Filled(blocks, c.blocks.Keys)
    && (forall n :: n in c.blocks <==> Reach(f, head, n)) && blocks.Keys <= c.blocks.Keys
  }

  /** No closed set of phis is smaller. */
  ghost predicate MinimalPhi(c: Cfg, irdst: Var, phi: map<Loc, set<Var>>) {
    forall phi', n, v :: PhiClosed(c, irdst, phi') && v in Phis(phi, n) ==> v in Phis(phi', n)
  }

  ghost function WholeGraph(f: Flow<Loc>, head: Loc, blocks: map<Loc, Block>): (c: Cfg)
    requires Coherent(f) && Prev(f, head) == [] && EdgesFromBlocks(f, blocks)
    requires forall n :: n in blocks ==> PlainBlock(blocks[n]) && Reach(f, head, n)
    ensures SameGraph(c, f, head, blocks) && CompleteCfg(c)
  {
    ReachInUniverse(f, head);
    Cfg(f, head, Filled(blocks, set n | n in Universe(f, head) && Reach(f, head, n)))
  }

  lemma ReachInUniverse(f: Flow<Loc>, head: Loc)
    ensures forall n :: Reach(f, head, n) ==> n in Universe(f, head)
  {
    forall n | Reach(f, head, n)
      ensures n in Universe(f, head)
    {
      var p :| Between(f, p, head, n);
      ClosedContainsReach(f, Universe(f, head), p);
    }
  }

  lemma SitesOfWhole(c: Cfg, irdst: Var, f: Flow<Loc>, head: Loc, blocks: map<Loc, Block>, defs: map<Var, set<Loc>>)
    requires SameGraph(c, f, head, blocks)
    requires forall v, x :: x in Sites(defs, v) <==> x in blocks && Reach(f, head, x) && DefinedInBlock(irdst, blocks[x], v)
    ensures DefinedSites(c, irdst, defs)
    ensures c.flow == f && c.head == head && blocks.Keys <= c.blocks.Keys && c.blocks == Filled(blocks, c.blocks.Keys)
  {
    forall v, x
      ensures x in Sites(defs, v) <==> x in c.blocks && DefinedInBlock(irdst, c.blocks[x], v)
    {
      assert !DefinedInBlock(irdst, [], v);
    }
  }

  lemma PlacedStart(
    c: Cfg, irdst: Var, frontier: map<Loc, set<Loc>>, defs: map<Var, set<Loc>>, phinodes: PhiNodes, places: map<Var, set<Loc>>)
    requires CompleteCfg(c) && FrontierTable(c.flow, c.head, frontier) && DefinedSites(c, irdst, defs)
    requires PlacedRows(phinodes, places) && places.Keys == defs.Keys && Iterated(frontier, defs, places)
    ensures PhiVars(irdst, c.head, PhiOf(phinodes)) && PhiRows(c, Tables(PhiOf(phinodes), map[]), phinodes)
  {
    PlacedVars(c, irdst, frontier, defs, phinodes, places);
    PlacedRowsOk(c, phinodes, places);
  }

  lemma PlacedVars(
    c: Cfg, irdst: Var, frontier: map<Loc, set<Loc>>, defs: map<Var, set<Loc>>, phinodes: PhiNodes, places: map<Var, set<Loc>>)
    requires CompleteCfg(c) && FrontierTable(c.flow, c.head, frontier) && DefinedSites(c, irdst, defs)
    requires PlacedRows(phinodes, places) && places.Keys == defs.Keys && Iterated(frontier, defs, places)
    ensures PhiVars(irdst, c.head, PhiOf(phinodes))
  {
    hide CompleteCfg, FrontierTable, DefinedInBlock, Reach;
    var phi := PhiOf(phinodes);
    forall n | n in phi
      ensures irdst !in phi[n] && phi[n] != {} && n != c.head
    {
      var id :| id in phinodes[n];
      assert id.v in phi[n];
      PhisOfRows(phinodes, places, n, id.v);
      PlaceIsFrontier(c.flow, c.head, frontier, defs[id.v], places[id.v]);
      PhisOfRows(phinodes, places, n, irdst);
      if irdst in places {
        NeverIrDst(c, irdst, defs);
        NothingPlaced(frontier, places[irdst]);
      }
    }
  }

  /** A place of the iterated frontier is in some frontier, so never the head. */
  lemma PlaceIsFrontier(f: Flow<Loc>, head: Loc, frontier: map<Loc, set<Loc>>, sites: set<Loc>, s: set<Loc>)
    requires FrontierTable(f, head, frontier) && IteratedFrontier(frontier, sites, s)
    ensures head !in s
  {
    assert FrontierClosed(frontier, sites, s - {head});
  }

  lemma NeverIrDst(c: Cfg, irdst: Var, defs: map<Var, set<Loc>>)
    requires DefinedSites(c, irdst, defs)
    ensures Sites(defs, irdst) == {}
  {
    forall x
      ensures x !in Sites(defs, irdst)
    {
      assert x in c.blocks ==> !DefinedInBlock(irdst, c.blocks[x], irdst);
    }
  }

  lemma NothingPlaced(frontier: map<Loc, set<Loc>>, s: set<Loc>)
    requires IteratedFrontier(frontier, {}, s)
    ensures s == {}
  {
    assert FrontierClosed(frontier, {}, {});
  }

  lemma PlacedRowsOk(c: Cfg, phinodes: PhiNodes, places: map<Var, set<Loc>>)
    requires PlacedRows(phinodes, places)
    ensures PhiRows(c, Tables(PhiOf(phinodes), map[]), phinodes)
  {
    var t := Tables(PhiOf(phinodes), map[]);
    forall n | n in phinodes
      ensures RowOk(c, t, n, phinodes[n])
    {
      var row := phinodes[n];
      forall id
        ensures id in row <==> id.v in Phis(t.phi, n) && id == RowDst(t, n, id.v)
      {
        PhisOfRows(phinodes, places, n, id.v);
        assert Plain(id.v) in Row(phinodes, n) <==> n in Sites(places, id.v);
      }
      forall id | id in row
        ensures row[id] == DoneSources(c, t, n, id.v)
      {
        assert DoneSources(c, t, n, id.v) == {};
      }
    }
  }

  /** What the renaming walk leaves. */
  ghost predicate WalkDone(
    c: Cfg, irdst: Var, idoms: map<Loc, Loc>, t: Tables, blocks: map<Loc, Block>, phinodes: PhiNodes, lhs: Versions)
  {
    && CompleteCfg(c) && ImmediateDominators(c.flow, c.head, idoms)
    && PhiClosed(c, irdst, t.phi) && PhiVars(irdst, c.head, t.phi)
    && (forall n :: n in c.blocks ==> n in t.trace)
    && Blocks(c, irdst, idoms, t, Filled(blocks, c.blocks.Keys)) && PhiRows(c, t, phinodes)
    && SingleAssignment(c, irdst, t) && Fresh(c, irdst, t, lhs)
  }

  lemma WalkIsDone(
    c: Cfg, irdst: Var, idoms: map<Loc, Loc>, t: Tables, blocks: map<Loc, Block>, phinodes: PhiNodes, lhs: Versions)
    requires CompleteCfg(c) && ImmediateDominators(c.flow, c.head, idoms)
    requires PhiClosed(c, irdst, t.phi) && PhiVars(irdst, c.head, t.phi)
    requires forall n :: n in c.blocks ==> n in t.trace
    requires Blocks(c, irdst, idoms, t, Filled(blocks, c.blocks.Keys)) && PhiRows(c, t, phinodes)
    requires SingleAssignment(c, irdst, t) && Fresh(c, irdst, t, lhs)
    ensures WalkDone(c, irdst, idoms, t, blocks, phinodes, lhs)
  {
    hide CompleteCfg, ImmediateDominators, PhiClosed, PhiVars, Blocks, Filled, PhiRows, SingleAssignment, Fresh;
  }

  lemma NoPhiYet(
    c: Cfg, irdst: Var, idoms: map<Loc, Loc>, t: Tables, blocks: map<Loc, Block>, phinodes: PhiNodes, lhs: Versions)
    requires WalkDone(c, irdst, idoms, t, blocks, phinodes, lhs) && blocks.Keys <= c.blocks.Keys
    ensures forall n :: n in blocks ==> !HasPhi(blocks[n])
  {
    hide EntryOk, HasPhi, BlockRenamed, PhiRows, SingleAssignment, Fresh, PhiVars, ImmediateDominators, PhiClosed;
    forall n | n in blocks
      ensures !HasPhi(blocks[n])
    {
      assert DoneBlock(c, irdst, t, n, Filled(blocks, c.blocks.Keys)[n]);
      RenamedNotPhi(irdst, c.blocks[n], blocks[n], t.trace[n]);
    }
  }

  /** Walk, insertion and completion together make the program in SSA form. */
  lemma Assembled(
    c: Cfg, irdst: Var, idoms: map<Loc, Loc>, t: Tables, lhs: Versions,
    before: map<Loc, Block>, converted: map<Loc, Block>, blocks: map<Loc, Block>, phinodes: PhiNodes, fix: Versions)
      returns (g: Conversion)
    requires WalkDone(c, irdst, idoms, t, before, phinodes, lhs)
    requires blocks.Keys == converted.Keys == before.Keys <= c.blocks.Keys
    requires forall n :: n in before ==> PhiInserted(phinodes, n, before[n], converted[n])
    requires (exists v :: IsArgument(phinodes, Plain(v))) ==> c.head in converted
    requires forall v :: v in fix <==> IsArgument(phinodes, Plain(v))
    requires forall v :: v in fix ==> fix[v] == Count(lhs, v)
    requires forall n :: n in converted ==> FixedBlock(c.head, fix, n, converted[n], blocks[n])
    ensures IsSsa(g) && g.irdst == irdst && g.c == c && g.t.phi == t.phi
    ensures forall n :: n in blocks ==> n in g.final && blocks[n] == g.final[n]
  {
    hide PhiInserted, IsArgument, Renamed, WithMissing, Filled, FixedBlock, IsSsa, FinalWithMissing, ImmediateDominators,
         Fixes, PhiClosed, Blocks, PhiRows, Fresh, SingleAssignment, CompleteCfg, PhiVars, Count, HasTraces;
    var nodes := c.blocks.Keys;
    MissingInserted(before, converted, nodes, phinodes);
    MidBlocks(converted, nodes, phinodes);
    var mid := WithMissing(converted, nodes, phinodes);
    var g0 := Conversion(c, irdst, idoms, t, mid);
    RenamedFromWalk(g0, Filled(before, nodes), phinodes, lhs);
    FixesAll(g0, phinodes, lhs, fix);
    assert fix != map[] ==> exists v :: v in fix;
    MissingFixed(c.head, fix, converted, blocks, mid);
    var final := FinalWithMissing(blocks, mid, Renaming(fix));
    FinalKeys(blocks, mid, Renaming(fix));
    CompletedIsSsa(g0, lhs, fix, final);
    g := g0.(t := Complete(t, fix), final := final);
  }

  lemma FinalKeys(blocks: map<Loc, Block>, mid: map<Loc, Block>, r: map<Ident, Ident>)
    requires blocks.Keys <= mid.Keys
    ensures FinalWithMissing(blocks, mid, r).Keys == mid.Keys
    ensures forall n :: n in blocks ==> FinalWithMissing(blocks, mid, r)[n] == blocks[n]
  {}

  lemma RenamedFromWalk(g: Conversion, mid: map<Loc, Block>, phinodes: PhiNodes, lhs: Versions)
    requires CompleteCfg(g.c) && ImmediateDominators(g.c.flow, g.c.head, g.idoms)
    requires PhiClosed(g.c, g.irdst, g.t.phi) && PhiVars(g.irdst, g.c.head, g.t.phi)
    requires Blocks(g.c, g.irdst, g.idoms, g.t, mid) && PhiRows(g.c, g.t, phinodes)
    requires SingleAssignment(g.c, g.irdst, g.t) && Fresh(g.c, g.irdst, g.t, lhs)
    requires forall n :: n in g.c.blocks ==> n in g.t.trace
    requires g.final.Keys == g.c.blocks.Keys
    requires forall n :: n in g.final ==> PhiInserted(phinodes, n, mid[n], g.final[n])
    ensures Renamed(g, lhs) && HasTraces(g.c, g.irdst, g.t)
  {
    hide CompleteCfg, PhiClosed, SingleAssignment, Fresh, PhiInserted, BlockRenamed, Increasing, SsaBlock, PhiRows;
    WalkTables(g.c, g.irdst, g.idoms, g.t, mid);
    forall n | n in g.final
      ensures SsaBlock(g.c, g.irdst, g.t, n, g.final[n])
    {
      BlockFromWalk(g, mid, phinodes, n);
    }
    hide VersionTables, HasTraces, ImmediateDominators;
    assert FinalBlocks(g);
  }

  lemma WalkTables(c: Cfg, irdst: Var, idoms: map<Loc, Loc>, t: Tables, mid: map<Loc, Block>)
    requires CompleteCfg(c) && ImmediateDominators(c.flow, c.head, idoms)
    requires PhiClosed(c, irdst, t.phi) && PhiVars(irdst, c.head, t.phi) && Blocks(c, irdst, idoms, t, mid)
    requires forall n :: n in c.blocks ==> n in t.trace
    ensures VersionTables(c, irdst, idoms, t) && c.head in t.trace && |t.trace[c.head]| > 0 && Entry(t, c.head) == map[]
    ensures TracesNonEmpty(t) && t.trace.Keys == c.blocks.Keys
    ensures forall n :: n in c.blocks ==> Increasing(irdst, c.blocks[n], t.trace[n])
  {
    hide PhiClosed, BlockVersions, Increasing, EntryVersions, BlockRenamed, PlainBlock, Reach, ImmediateDominators;
    ReachSelf(c.flow, c.head);
    DominatorBlocks(c, idoms);
    forall n | n in c.blocks
      ensures n in t.trace && BlockVersions(irdst, c.blocks[n], t.trace[n]) && Increasing(irdst, c.blocks[n], t.trace[n])
      ensures EntryOk(c, idoms, t, n)
    {
      WalkedBlock(c, irdst, idoms, t, mid, n);
    }
    assert HasTraces(c, irdst, t);
  }

  lemma WalkedBlock(c: Cfg, irdst: Var, idoms: map<Loc, Loc>, t: Tables, mid: map<Loc, Block>, n: Loc)
    requires Blocks(c, irdst, idoms, t, mid) && n in c.blocks && n in t.trace
    ensures BlockVersions(irdst, c.blocks[n], t.trace[n]) && Increasing(irdst, c.blocks[n], t.trace[n])
    ensures EntryOk(c, idoms, t, n)
  {
    hide Increasing, EntryVersions;
    assert DoneBlock(c, irdst, t, n, mid[n]);
  }

  lemma DominatorBlocks(c: Cfg, idoms: map<Loc, Loc>)
    requires CompleteCfg(c) && ImmediateDominators(c.flow, c.head, idoms)
    ensures c.head !in idoms && forall n :: n in idoms ==> n in c.blocks && idoms[n] in c.blocks
  {
    forall n | n in idoms
      ensures n in c.blocks && idoms[n] in c.blocks
    {
      DominatorReachable(c.flow, c.head, idoms[n], n);
    }
  }

  lemma BlockFromWalk(g: Conversion, mid: map<Loc, Block>, phinodes: PhiNodes, n: Loc)
    requires CompleteCfg(g.c) && HasTraces(g.c, g.irdst, g.t) && TracesNonEmpty(g.t) && g.t.trace.Keys == g.c.blocks.Keys
    requires Blocks(g.c, g.irdst, g.idoms, g.t, mid) && PhiRows(g.c, g.t, phinodes) && PhiVars(g.irdst, g.c.head, g.t.phi)
    requires n in g.c.blocks && n in g.final && PhiInserted(phinodes, n, mid[n], g.final[n])
    ensures SsaBlock(g.c, g.irdst, g.t, n, g.final[n])
  {
    hide CompleteCfg, HasTraces, BlockRenamed, Increasing, HoldsRow, PhiBlock, RowOk, EntryVersions;
    assert DoneBlock(g.c, g.irdst, g.t, n, mid[n]) && EntryOk(g.c, g.idoms, g.t, n);
    var b := g.final[n];
    if n in phinodes {
      assert RowOk(g.c, g.t, n, phinodes[n]);
      RowIsPhiBlock(g.c, g.irdst, g.t, n, phinodes[n], b[0]);
    } else {
      assert b[0..] == mid[n];
    }
  }

  /** When a variable has no version somewhere, there is a phi, so the head has a successor. */
  lemma HeadExists(
    c: Cfg, irdst: Var, idoms: map<Loc, Loc>, t: Tables, lhs: Versions, orig: map<Loc, Block>, before: map<Loc, Block>,
    converted: map<Loc, Block>, phinodes: PhiNodes)
    requires WalkDone(c, irdst, idoms, t, before, phinodes, lhs)
    requires SameGraph(c, c.flow, c.head, orig) && EdgesFromBlocks(c.flow, orig)
    requires before.Keys == orig.Keys == converted.Keys
    requires forall n :: n in converted ==> PhiInserted(phinodes, n, before[n], converted[n])
    ensures (exists v :: IsArgument(phinodes, Plain(v))) ==> c.head in converted && converted[c.head] != []
  {
    hide CompleteCfg, Blocks, PhiRows, PhiInserted, IsArgument, EdgesFromBlocks, Filled, SingleAssignment, Fresh, PhiVars,
         ImmediateDominators, PhiClosed;
    if v :| IsArgument(phinodes, Plain(v)) {
      var n, p := ArgumentOrigin(c, t, phinodes, Plain(v));
      HeadHasSuccessor(c, irdst, idoms, t, orig, before, n, p);
      InsertedLength(phinodes, c.head, before[c.head], converted[c.head]);
    }
  }

  lemma InsertedLength(phinodes: PhiNodes, n: Loc, b: Block, b': Block)
    requires PhiInserted(phinodes, n, b, b')
    ensures |b'| >= |b|
  {}

  lemma HeadHasSuccessor(
    c: Cfg, irdst: Var, idoms: map<Loc, Loc>, t: Tables, orig: map<Loc, Block>, before: map<Loc, Block>, n: Loc, p: Loc)
    requires CompleteCfg(c) && SameGraph(c, c.flow, c.head, orig) && EdgesFromBlocks(c.flow, orig)
    requires Blocks(c, irdst, idoms, t, Filled(before, c.blocks.Keys)) && before.Keys == orig.Keys
    requires p in t.trace && p in Prev(c.flow, n)
    ensures c.head in before && before[c.head] != []
  {
    hide EntryOk;
    assert Edge(c.flow, p, n) && Reach(c.flow, c.head, p);
    var q :| Between(c.flow, q, c.head, p);
    assert |q| > 1 ==> Edge(c.flow, q[0], q[1]);
    assert c.head in orig && orig[c.head] != [];
    hide DoneBlock;
    assert c.head in c.blocks && c.blocks[c.head] == orig[c.head];
    BlockLengths(c, irdst, idoms, t, before, c.head);
  }

  lemma BlockLengths(c: Cfg, irdst: Var, idoms: map<Loc, Loc>, t: Tables, before: map<Loc, Block>, n: Loc)
    requires Blocks(c, irdst, idoms, t, Filled(before, c.blocks.Keys)) && n in c.blocks && n in before
    ensures |before[n]| == |c.blocks[n]|
  {
    hide EntryOk;
    assert Filled(before, c.blocks.Keys)[n] == before[n];
    if n in t.trace {
      assert DoneBlock(c, irdst, t, n, before[n]);
    }
  }

  lemma FixesAll(g: Conversion, phinodes: PhiNodes, lhs: Versions, fix: Versions)
    requires CompleteCfg(g.c) && HasTraces(g.c, g.irdst, g.t) && PhiRows(g.c, g.t, phinodes)
    requires PhiVars(g.irdst, g.c.head, g.t.phi)
    requires forall v :: v in fix <==> IsArgument(phinodes, Plain(v))
    requires forall v :: v in fix ==> fix[v] == Count(lhs, v)
    ensures Fixes(g, lhs, fix)
  {
    hide CompleteCfg, PhiRows, IsArgument;
    assert Coherent(g.c.flow) by { CompleteCoherent(g.c); }
    if g.irdst in fix {
      var n, p := ArgumentOrigin(g.c, g.t, phinodes, Plain(g.irdst));
    }
    forall n, v, p | v in Phis(g.t.phi, n) && Edge(g.c.flow, p, n) && p in g.c.blocks
      ensures v in fix || v in Exit(g.t, p)
    {
      if v !in Exit(g.t, p) {
        UnversionedIsArgument(g.c, g.t, phinodes, n, v, p);
      }
    }
  }

  lemma MidBlocks(converted: map<Loc, Block>, nodes: set<Loc>, phinodes: PhiNodes)
    requires converted.Keys <= nodes
    ensures WithMissing(converted, nodes, phinodes).Keys == nodes
    ensures forall n :: n in converted ==> WithMissing(converted, nodes, phinodes)[n] == converted[n]
  {}

  lemma UndefinedArePlain(phinodes: PhiNodes, reg: map<Ident, Ident>, s: set<Ident>)
    requires RegistryOk(reg) && PhiRegistered(phinodes, reg)
    requires forall x :: x in s <==> x !in reg && IsArgument(phinodes, x)
    ensures forall x :: x in s ==> x.Plain?
    ensures forall v :: Plain(v) in s <==> IsArgument(phinodes, Plain(v))
  {}

  lemma SimplifiedLength(b: Block, r: map<Ident, Ident>, b': Block)
    requires SimplifiedBlock(b, r, b')
    ensures |b'| == |b|
  {}

  function ReplaceRows(phinodes: PhiNodes, r: map<Ident, Ident>): (p: PhiNodes) {
    map n | n in phinodes :: map id | id in phinodes[n] :: set x | x in phinodes[n][id] :: Image(r, x)
  }

  // ----- the renaming walk -----

  ghost predicate PhiVars(irdst: Var, head: Loc, phi: map<Loc, set<Var>>) {
    head !in phi && forall n :: n in phi ==> irdst !in phi[n] && phi[n] != {}
  }

  ghost predicate StackBelow(irdst: Var, stack: seq<Versions>, lhs: Versions) {
    forall i :: 0 <= i < |stack| ==> Below(stack[i], lhs) && irdst !in stack[i]
  }

  /** Everything the walk keeps. */
  ghost predicate WalkInv(
    c: Cfg, irdst: Var, idoms: map<Loc, Loc>, t: Tables, blocks: map<Loc, Block>, phinodes: PhiNodes,
    todo: seq<Loc>, stack: seq<Versions>, lhs: Versions)
  {
    && CompleteCfg(c) && ImmediateDominators(c.flow, c.head, idoms) && PhiVars(irdst, c.head, t.phi)
    && Pending(c, idoms, t, todo, stack)
    && Blocks(c, irdst, idoms, t, blocks)
    && PhiRows(c, t, phinodes)
    && SingleAssignment(c, irdst, t) && Fresh(c, irdst, t, lhs)
    && StackBelow(irdst, stack, lhs)
  }

  lemma TreeWalkStart(
    c: Cfg, irdst: Var, idoms: map<Loc, Loc>, t: Tables, blocks: map<Loc, Block>, phinodes: PhiNodes, lhs: Versions)
    requires CompleteCfg(c) && ImmediateDominators(c.flow, c.head, idoms) && PhiVars(irdst, c.head, t.phi)
    requires t.trace == map[] && blocks == c.blocks && PhiRows(c, t, phinodes)
    ensures WalkInv(c, irdst, idoms, t, blocks, phinodes, [c.head], [map[]], lhs)
  {
    ReachSelf(c.flow, c.head);
    hide PhiRows, ImmediateDominators, PhiVars;
  }

  lemma RegisteredStart(c: Cfg, t: Tables, phinodes: PhiNodes)
    requires PhiRows(c, t, phinodes) && t.trace == map[]
    ensures RegistryOk(map[]) && PhiRegistered(phinodes, map[])
  {
    forall n | n in phinodes
      ensures SetRegistered(phinodes[n].Keys, map[])
      ensures forall id :: id in phinodes[n] ==> SetRegistered(phinodes[n][id], map[])
    {
      assert RowOk(c, t, n, phinodes[n]);
    }
  }

  lemma TreeChildren(c: Cfg, idoms: map<Loc, Loc>, tree: DiGraph<Loc>, loc: Loc)
    requires tree.Valid() && NoDuplicates(tree.edges) && ImmediateDominators(c.flow, c.head, idoms) && CompleteCfg(c)
    requires forall a, b :: (a, b) in tree.edges <==> b in idoms && a == idoms[b]
    ensures AreChildren(c, idoms, loc, Next(tree.View(), loc))
  {
    tree.ViewEdges();
    TargetsNoDuplicates(tree.edges, loc);
    var children := Next(tree.View(), loc);
    forall b
      ensures b in children <==> b in idoms && idoms[b] == loc
    {
      assert b in children <==> Edge(tree.View(), loc, b);
    }
  }

  /** The block on top is ready to be visited with the versions on top. */
  lemma TreeWalkTop(
    c: Cfg, irdst: Var, idoms: map<Loc, Loc>, t: Tables, blocks: map<Loc, Block>, phinodes: PhiNodes,
    todo: seq<Loc>, stack: seq<Versions>, lhs: Versions)
    requires WalkInv(c, irdst, idoms, t, blocks, phinodes, todo, stack, lhs) && |todo| > 0
    ensures |stack| == |todo| && todo[|todo| - 1] in c.blocks && todo[|todo| - 1] !in t.trace
    ensures Saved(c, idoms, t, todo[|todo| - 1], stack[|todo| - 1])
    ensures Blocks(c, irdst, idoms, t, blocks) && PhiRows(c, t, phinodes)
    ensures SingleAssignment(c, irdst, t) && Fresh(c, irdst, t, lhs)
    ensures Below(stack[|todo| - 1], lhs) && irdst !in stack[|todo| - 1]
    ensures irdst !in Phis(t.phi, todo[|todo| - 1]) && c.head !in t.phi
  {
    hide Blocks, PhiRows, SingleAssignment, Fresh, Below, CompleteCfg, ImmediateDominators;
  }

  lemma TreeWalkStep(
    c: Cfg, irdst: Var, idoms: map<Loc, Loc>, t: Tables, blocks0: map<Loc, Block>, blocks: map<Loc, Block>,
    phinodes0: PhiNodes, phinodes: PhiNodes, todo: seq<Loc>, stack: seq<Versions>, lhs0: Versions, lhs: Versions,
    tr: seq<Versions>, children: seq<Loc>, saved: seq<Versions>)
    requires WalkInv(c, irdst, idoms, t, blocks0, phinodes0, todo, stack, lhs0)
    requires |todo| > 0 && |tr| > 0 && AreChildren(c, idoms, todo[|todo| - 1], children) && |saved| == |children|
    requires forall i :: 0 <= i < |saved| ==> saved[i] == tr[|tr| - 1]
    requires var t' := Visited(t, todo[|todo| - 1], tr);
      && Blocks(c, irdst, idoms, t', blocks) && PhiRows(c, t', phinodes)
      && SingleAssignment(c, irdst, t') && Fresh(c, irdst, t', lhs)
    requires Grows(lhs0, lhs) && Below(tr[|tr| - 1], lhs) && irdst !in tr[|tr| - 1]
    ensures var t' := Visited(t, todo[|todo| - 1], tr);
      WalkInv(c, irdst, idoms, t', blocks, phinodes, todo[..|todo| - 1] + children, stack[..|stack| - 1] + saved, lhs)
  {
    hide Blocks, PhiRows, SingleAssignment, Fresh, Below, CompleteCfg, ImmediateDominators, Pending, Grows, PhiVars, AreChildren;
    PendingStep(c, irdst, idoms, t, blocks0, todo, stack, tr, children, saved);
    PendingLengths(c, idoms, t, todo, stack);
    var stack' := stack[..|stack| - 1] + saved;
    forall i | 0 <= i < |stack'|
      ensures Below(stack'[i], lhs) && irdst !in stack'[i]
    {
      if i < |stack| - 1 { BelowGrows(stack[i], lhs0, lhs); }
    }
  }

  lemma PendingLengths(c: Cfg, idoms: map<Loc, Loc>, t: Tables, todo: seq<Loc>, stack: seq<Versions>)
    requires Pending(c, idoms, t, todo, stack)
    ensures |stack| == |todo|
  {}

  lemma TreeWalkEnd(
    c: Cfg, irdst: Var, idoms: map<Loc, Loc>, t: Tables, blocks: map<Loc, Block>, phinodes: PhiNodes, lhs: Versions)
    requires WalkInv(c, irdst, idoms, t, blocks, phinodes, [], [], lhs)
    ensures forall n :: n in c.blocks ==> n in t.trace
    ensures Blocks(c, irdst, idoms, t, blocks) && PhiRows(c, t, phinodes)
    ensures SingleAssignment(c, irdst, t) && Fresh(c, irdst, t, lhs)
  {
    hide Blocks, PhiRows, SingleAssignment, Fresh, StackBelow, PhiVars, ImmediateDominators, Pending;
    forall n | n in c.blocks
      ensures n in t.trace
    {
      AllVisited(c, idoms, t, n);
    }
  }

  lemma CompleteCoherent(c: Cfg)
    requires CompleteCfg(c)
    ensures Coherent(c.flow)
  {}

  /** The opening of a block gives next versions to the variables of its phis. */
  lemma OpeningPlace(c: Cfg, irdst: Var, idoms: map<Loc, Loc>, t: Tables, loc: Loc, base: Versions, lhs: Versions)
    requires SingleAssignment(c, irdst, t) && Fresh(c, irdst, t, lhs) && loc in c.blocks && loc !in t.trace
    requires Saved(c, idoms, t, loc, base) && c.head !in t.phi
    requires Below(base, lhs) && irdst !in base && irdst !in Phis(t.phi, loc)
    ensures var vs := Phis(t.phi, loc);
      var entry := NextVersions(base, lhs, vs);
      && loc in Visited(t, loc, [entry]).trace && Visited(t, loc, [entry]).trace[loc] == [entry]
      && SingleAssignment(c, irdst, Visited(t, loc, [entry]))
      && Fresh(c, irdst, Visited(t, loc, [entry]), NextCounters(lhs, vs))
      && (loc == c.head ==> entry == map[])
      && EntryVersions(vs, base, entry) && irdst !in entry
      && Below(entry, NextCounters(lhs, vs)) && Grows(lhs, NextCounters(lhs, vs))
  {
    var vs := Phis(t.phi, loc);
    var entry := NextVersions(base, lhs, vs);
    assert [] + [entry] == [entry];
    assert Extended(t, loc, entry) == Visited(t, loc, [entry]);
    hide SingleAssignment, Fresh;
    if loc == c.head {
      NextNothing(base, lhs);
    }
    NewPlace(c, irdst, t, loc, base, lhs, vs);
  }

  lemma BlockToVisit(c: Cfg, irdst: Var, idoms: map<Loc, Loc>, t: Tables, blocks: map<Loc, Block>, loc: Loc)
    requires CompleteCfg(c) && Blocks(c, irdst, idoms, t, Filled(blocks, c.blocks.Keys)) && loc in c.blocks && loc !in t.trace
    ensures BlockAt(blocks, loc) == c.blocks[loc] && PlainBlock(c.blocks[loc])
  {
    hide DoneBlock, EntryOk;
    assert loc in Filled(blocks, c.blocks.Keys);
  }

  lemma BlockRenamedLength(irdst: Var, orig: Block, body: Block, trace: seq<Versions>)
    requires BlockRenamed(irdst, orig, body, trace)
    ensures |body| == |orig|
  {}

  lemma FilledUpdate(blocks: map<Loc, Block>, nodes: set<Loc>, loc: Loc, out: Block)
    requires loc in nodes && (loc !in blocks ==> out == [])
    ensures Filled(if loc in blocks then blocks[loc := out] else blocks, nodes) == Filled(blocks, nodes)[loc := out]
  {}

  lemma TraceOfVisit(t: Tables, t2: Tables, loc: Loc, entry: Versions, tr: seq<Versions>)
    requires loc in t2.trace && tr == t2.trace[loc]
    requires t2 == Visited(t, loc, [entry]).(trace := Visited(t, loc, [entry]).trace[loc := tr])
    ensures t2 == Visited(t, loc, tr)
  {}

  lemma VisitDone(
    c: Cfg, irdst: Var, idoms: map<Loc, Loc>, t: Tables, loc: Loc, base: Versions, tr: seq<Versions>, b: Block)
    requires loc in c.blocks && loc !in t.trace && |tr| > 0 && Saved(c, idoms, t, loc, base)
    requires BlockRenamed(irdst, c.blocks[loc], b, tr) && Increasing(irdst, c.blocks[loc], tr)
    requires EntryVersions(Phis(t.phi, loc), base, tr[0]) && (loc == c.head ==> tr[0] == map[])
    ensures DoneBlock(c, irdst, Visited(t, loc, tr), loc, b) && EntryOk(c, idoms, Visited(t, loc, tr), loc)
  {
    hide BlockRenamed, Increasing, EntryVersions;
    if loc != c.head { VisitedKeeps(t, loc, tr, idoms[loc]); }
  }

  lemma PhiRegisteredVisit(phinodes: PhiNodes, reg: map<Ident, Ident>, reg': map<Ident, Ident>, loc: Loc, entry: Versions)
    requires PhiRegistered(phinodes, reg) && reg.Keys <= reg'.Keys && PlainRow(Row(phinodes, loc))
    requires Row(PhiVisited(phinodes, loc, entry), loc).Keys <= reg'.Keys
    ensures PhiRegistered(PhiVisited(phinodes, loc, entry), reg')
  {
    var p := PhiVisited(phinodes, loc, entry);
    forall n | n in p
      ensures SetRegistered(p[n].Keys, reg')
    {
      if n == loc { assert p[n] == Row(p, loc); }
    }
    forall n, id: Ident | n in p && id in p[n]
      ensures SetRegistered(p[n][id], reg')
    {
      if n == loc {
        RekeyedValue(phinodes[loc], entry, id);
        assert SetRegistered(phinodes[loc][Plain(id.v)], reg);
      } else {
        assert SetRegistered(phinodes[n][id], reg);
      }
    }
  }

  lemma PhiRegisteredGrows(phinodes: PhiNodes, reg: map<Ident, Ident>, reg': map<Ident, Ident>)
    requires PhiRegistered(phinodes, reg) && reg.Keys <= reg'.Keys
    ensures PhiRegistered(phinodes, reg')
  {}

  lemma UpdatedNone(phinodes: PhiNodes, ver: Versions)
    ensures SuccessorsUpdated(phinodes, [], ver) == phinodes
  {}

  /** A row that already received a version is unchanged by receiving it again. */
  lemma UpdatedOne(phinodes: PhiNodes, succs: seq<Loc>, i: nat, ver: Versions)
    requires i < |succs|
    ensures SuccessorUpdated(SuccessorsUpdated(phinodes, succs[..i], ver), succs[i], ver)
      == SuccessorsUpdated(phinodes, succs[..i + 1], ver)
  {
    var n := succs[i];
    assert succs[..i + 1] == succs[..i] + [n];
    forall row: map<Ident, set<Ident>>
      ensures AddSource(AddSource(row, ver), ver) == AddSource(row, ver)
    {
    }
    var a := SuccessorUpdated(SuccessorsUpdated(phinodes, succs[..i], ver), n, ver);
    var b := SuccessorsUpdated(phinodes, succs[..i + 1], ver);
    assert a.Keys == b.Keys;
    forall m | m in b
      ensures a[m] == b[m]
    {
    }
  }

  ghost function SuccessorUpdated(
    phinodes: map<Loc, map<Ident, set<Ident>>>, n: Loc, ver: Versions): (r: map<Loc, map<Ident, set<Ident>>>)
  {
    if n in phinodes then phinodes[n := AddSource(phinodes[n], ver)] else phinodes
  }

  lemma RenameVariable(v: Var, ver: Versions)
    ensures Rename(Id(Plain(v)), ver) == Id(Current(ver, v))
  {}

  ghost function SourceAdded(row: map<Ident, set<Ident>>, todo: set<Ident>, ver: Versions, id: Ident): (r: set<Ident>)
    requires id in row
  {
    if id in todo then row[id] else row[id] + {Current(ver, id.v)}
  }

  lemma RowRegistered(phinodes: map<Loc, map<Ident, set<Ident>>>, reg: map<Ident, Ident>, n: Loc)
    requires PhiRegistered(phinodes, reg) && n in phinodes
    ensures forall id :: id in phinodes[n] && id.Ssa? ==> id in reg
  {}

  /** A registered version stands for its variable; a variable stands for itself. */
  lemma ReverseVariable(reg: map<Ident, Ident>, id: Ident)
    requires RegistryOk(reg) && (id.Ssa? ==> id in reg)
    ensures (if id in reg then reg[id] else id) == Plain(id.v)
  {}

  // ----- phi tables -----

  ghost predicate SetRegistered(ids: set<Ident>, reg: map<Ident, Ident>) {
    forall x :: x in ids && x.Ssa? ==> x in reg
  }

  /** Destinations and arguments of phis that are versions are registered. */
  ghost predicate PhiRegistered(phinodes: PhiNodes, reg: map<Ident, Ident>) {
    && (forall n :: n in phinodes ==> SetRegistered(phinodes[n].Keys, reg))
    && (forall n, id :: n in phinodes && id in phinodes[n] ==> SetRegistered(phinodes[n][id], reg))
  }

  lemma PhiRegisteredAdd(
    phinodes: map<Loc, map<Ident, set<Ident>>>, reg: map<Ident, Ident>, reg': map<Ident, Ident>, n: Loc, ver: Versions)
    requires PhiRegistered(phinodes, reg) && reg.Keys <= reg'.Keys && n in phinodes
    requires forall id :: id in phinodes[n] && id.v in ver ==> Current(ver, id.v) in reg'
    ensures PhiRegistered(phinodes[n := AddSource(phinodes[n], ver)], reg')
  {}

  ghost function DoneVars(row: map<Ident, set<Ident>>, todo: set<Ident>): (r: set<Var>) {
    set id | id in row && id !in todo :: id.v
  }

  /** The row while its destinations are renamed: those in todo still have no version. */
  ghost predicate RekeyedUpTo(
    row0: map<Ident, set<Ident>>, row: map<Ident, set<Ident>>, todo: set<Ident>, lhs: Versions)
  {
    && (forall id :: id in todo ==> id in row)
    && (forall id :: id in row0 && id !in todo ==> Ssa(id.v, Count(lhs, id.v)) in row)
    && (forall id :: id in row ==> Plain(id.v) in row0 && row[id] == row0[Plain(id.v)])
    && (forall id :: id in row ==> id in todo || (id == Ssa(id.v, Count(lhs, id.v)) && Plain(id.v) !in todo))
  }

  lemma RekeyStart(row: map<Ident, set<Ident>>, rhs: Versions, lhs: Versions)
    requires PlainRow(row)
    ensures RekeyedUpTo(row, row, row.Keys, lhs) && DoneVars(row, row.Keys) == {}
    ensures rhs == NextVersions(rhs, lhs, DoneVars(row, row.Keys)) && lhs == NextCounters(lhs, DoneVars(row, row.Keys))
  {
    assert DoneVars(row, row.Keys) == {};
    NextNothing(rhs, lhs);
  }

  lemma RekeyStep(
    row0: map<Ident, set<Ident>>, row: map<Ident, set<Ident>>, todo: set<Ident>, dst: Ident, lhs: Versions)
    requires PlainRow(row0) && todo <= row0.Keys && RekeyedUpTo(row0, row, todo, lhs) && dst in todo
    ensures dst in row && dst.Plain?
    ensures RekeyedUpTo(row0, (row - {dst})[Ssa(dst.v, Count(lhs, dst.v)) := row[dst]], todo - {dst}, lhs)
  {}

  lemma RekeyCounters(row0: map<Ident, set<Ident>>, todo: set<Ident>, dst: Ident, rhs: Versions, lhs: Versions)
    requires PlainRow(row0) && todo <= row0.Keys && dst in todo
    ensures Count(NextCounters(lhs, DoneVars(row0, todo)), dst.v) == Count(lhs, dst.v)
    ensures NextVersions(NextVersions(rhs, lhs, DoneVars(row0, todo)), NextCounters(lhs, DoneVars(row0, todo)), {dst.v})
      == NextVersions(rhs, lhs, DoneVars(row0, todo - {dst}))
    ensures NextCounters(NextCounters(lhs, DoneVars(row0, todo)), {dst.v})
      == NextCounters(lhs, DoneVars(row0, todo - {dst}))
  {
    var vs := DoneVars(row0, todo);
    assert dst.v !in vs;
    assert DoneVars(row0, todo - {dst}) == vs + {dst.v};
    hide NextVersions, NextCounters, DoneVars, PlainRow;
    NextVersionsStep(rhs, lhs, vs, dst.v);
    NextCountersStep(lhs, vs, dst.v);
  }

  /** The new destinations of a row are the current versions of its variables. */
  ghost predicate KeysCurrent(row0: map<Ident, set<Ident>>, ver: Versions, lhs: Versions) {
    forall id :: id in row0 ==> Current(ver, id.v) == Ssa(id.v, Count(lhs, id.v))
  }

  lemma KeysAreCurrent(row0: map<Ident, set<Ident>>, rhs: Versions, lhs: Versions)
    ensures KeysCurrent(row0, NextVersions(rhs, lhs, RowVars(row0)), lhs)
  {
    forall id | id in row0
      ensures Current(NextVersions(rhs, lhs, RowVars(row0)), id.v) == Ssa(id.v, Count(lhs, id.v))
    {
      assert id.v in RowVars(row0);
    }
  }

  lemma RekeyedAt(row0: map<Ident, set<Ident>>, row: map<Ident, set<Ident>>, ver: Versions, lhs: Versions, id: Ident)
    requires PlainRow(row0) && RekeyedUpTo(row0, row, {}, lhs) && KeysCurrent(row0, ver, lhs)
    ensures id in row <==> id in Rekeyed(row0, ver)
    ensures id in row ==> row[id] == Rekeyed(row0, ver)[id]
  {
    hide Current, Count;
    if id in row {
      assert Plain(id.v) in row0 && id == Current(ver, Plain(id.v).v);
    }
  }

  lemma AllDone(row0: map<Ident, set<Ident>>)
    ensures DoneVars(row0, {}) == RowVars(row0)
  {}

  lemma RekeyEnd(row0: map<Ident, set<Ident>>, row: map<Ident, set<Ident>>, rhs: Versions, lhs: Versions)
    requires PlainRow(row0) && RekeyedUpTo(row0, row, {}, lhs)
    ensures DoneVars(row0, {}) == RowVars(row0)
    ensures row == Rekeyed(row0, NextVersions(rhs, lhs, RowVars(row0)))
  {
    hide NextVersions, RowVars, DoneVars, RekeyedUpTo, KeysCurrent, PlainRow, Rekeyed;
    AllDone(row0);
    var ver := NextVersions(rhs, lhs, RowVars(row0));
    KeysAreCurrent(row0, rhs, lhs);
    var r := Rekeyed(row0, ver);
    forall id
      ensures id in row <==> id in r
      ensures id in row ==> row[id] == r[id]
    {
      RekeyedAt(row0, row, ver, lhs, id);
    }
  }

  /** Current versions are below the counters. */
  ghost predicate Below(rhs: Versions, lhs: Versions) {
    forall v :: v in rhs ==> rhs[v] < Count(lhs, v)
  }

  /** Counters never go back. */
  ghost predicate Grows(lhs: Versions, lhs': Versions) {
    forall v :: Count(lhs, v) <= Count(lhs', v)
  }

  lemma GrowsNext(lhs0: Versions, lhs: Versions, vs: set<Var>)
    ensures lhs0 == lhs ==> Grows(lhs0, lhs)
    ensures Grows(lhs0, lhs) ==> Grows(lhs0, NextCounters(lhs, vs))
  {}

  lemma GrowsTrans(a: Versions, b: Versions, c: Versions)
    requires Grows(a, b) && Grows(b, c)
    ensures Grows(a, c)
  {}

  lemma BelowGrows(rhs: Versions, lhs: Versions, lhs': Versions)
    requires Below(rhs, lhs) && Grows(lhs, lhs')
    ensures Below(rhs, lhs')
  {}

  lemma NextIsStep(irdst: Var, a: AssignBlk, rhs: Versions, lhs: Versions)
    requires irdst !in rhs && Below(rhs, lhs)
    ensures var after := NextVersions(rhs, lhs, Defined(irdst, a));
      && StepVersions(irdst, a, rhs, after) && StepIncreasing(irdst, a, rhs, after)
      && irdst !in after && Below(after, NextCounters(lhs, Defined(irdst, a)))
  {}

  /** The next place of a block gives next versions to the variables of its assignment block. */
  lemma PlaceOfAssign(c: Cfg, irdst: Var, t: Tables, loc: Loc, i: nat, rhs: Versions, lhs: Versions)
    requires SingleAssignment(c, irdst, t) && Fresh(c, irdst, t, lhs)
    requires loc in c.blocks && i < |c.blocks[loc]| && loc in t.trace && |t.trace[loc]| == i + 1
    ensures var vs := Defined(irdst, c.blocks[loc][i]);
      && SingleAssignment(c, irdst, Extended(t, loc, NextVersions(rhs, lhs, vs)))
      && Fresh(c, irdst, Extended(t, loc, NextVersions(rhs, lhs, vs)), NextCounters(lhs, vs))
  {
    hide SingleAssignment, Fresh, NextVersions, NextCounters;
    NewPlace(c, irdst, t, loc, rhs, lhs, Defined(irdst, c.blocks[loc][i]));
  }

  lemma ExtendedTrace(t: Tables, n: Loc, after: Versions)
    requires n in t.trace
    ensures Extended(t, n, after) == t.(trace := t.trace[n := t.trace[n] + [after]])
  {}

  /** The j-th assignment block is renamed as the trace says. */
  ghost predicate StepDone(irdst: Var, b: Block, made: Block, trace: seq<Versions>, j: nat) {
    && j < |b| && j < |made| && j + 1 < |trace|
    && AssignRenamed(irdst, b[j], made[j], trace[j], trace[j + 1])
    && StepVersions(irdst, b[j], trace[j], trace[j + 1])
    && StepIncreasing(irdst, b[j], trace[j], trace[j + 1])
  }

  lemma StepsGrow(irdst: Var, b: Block, made: Block, trace: seq<Versions>, x: AssignBlk, after: Versions)
    requires |made| < |b| && |trace| == |made| + 1
    requires forall j :: 0 <= j < |made| ==> StepDone(irdst, b, made, trace, j)
    requires AssignRenamed(irdst, b[|made|], x, trace[|made|], after)
    requires StepVersions(irdst, b[|made|], trace[|made|], after) && StepIncreasing(irdst, b[|made|], trace[|made|], after)
    ensures forall j :: 0 <= j < |made| + 1 ==> StepDone(irdst, b, made + [x], trace + [after], j)
  {
    hide AssignRenamed, StepVersions, StepIncreasing;
    forall j | 0 <= j < |made| + 1
      ensures StepDone(irdst, b, made + [x], trace + [after], j)
    {
      if j < |made| { assert StepDone(irdst, b, made, trace, j); }
    }
  }

  lemma StepsMakeBlock(irdst: Var, b: Block, made: Block, trace: seq<Versions>)
    requires |made| == |b| && |trace| == |b| + 1
    requires forall j :: 0 <= j < |b| ==> StepDone(irdst, b, made, trace, j)
    ensures BlockRenamed(irdst, b, made, trace) && Increasing(irdst, b, trace)
  {
    hide AssignRenamed, StepVersions, StepIncreasing;
    forall i, j | 0 <= i < |b| && j == i + 1
      ensures AssignRenamed(irdst, b[i], made[i], trace[i], trace[j])
      ensures StepVersions(irdst, b[i], trace[i], trace[j]) && StepIncreasing(irdst, b[i], trace[i], trace[j])
    {
      assert StepDone(irdst, b, made, trace, i);
    }
  }

  lemma ConvertedNothing(b: Block)
    ensures Converted(b, [], []) && Offset(b, 0) == 0
  {}

  lemma NextNothing(rhs: Versions, lhs: Versions)
    ensures NextVersions(rhs, lhs, {}) == rhs && NextCounters(lhs, {}) == lhs
  {}

  lemma DefinedNone(irdst: Var, list: seq<Assignment>)
    ensures DefinedUpTo(irdst, list, 0) == {}
  {}

  lemma ListLength(a: AssignBlk, list: seq<Assignment>)
    requires Enumerates(a, list)
    ensures |list| == |a|
  {}

  /** A destination is renamed the same way whatever other variables were renamed before it. */
  lemma NewDstStep(irdst: Var, d: Expr, rhs: Versions, lhs: Versions, vs: set<Var>)
    requires d.Mem? || d.Id?
    requires d.Mem? ==> vs == {}
    requires d.Id? && d.id.v != irdst ==> d.id.v !in vs
    ensures NewDst(irdst, d, NextVersions(rhs, lhs, vs), NextCounters(lhs, vs)) == NewDst(irdst, d, rhs, lhs)
    ensures d.Mem? ==> NextVersions(rhs, lhs, vs) == rhs && NextCounters(lhs, vs) == lhs
    ensures d.Id? && d.id.v != irdst ==>
      NextVersions(NextVersions(rhs, lhs, vs), NextCounters(lhs, vs), {d.id.v}) == NextVersions(rhs, lhs, vs + {d.id.v})
    ensures d.Id? && d.id.v != irdst ==>
      NextCounters(NextCounters(lhs, vs), {d.id.v}) == NextCounters(lhs, vs + {d.id.v})
  {
    hide NextVersions, NextCounters;
    NextNothing(rhs, lhs);
    if d.Id? && d.id.v != irdst {
      NextVersionsStep(rhs, lhs, vs, d.id.v);
      NextCountersStep(lhs, vs, d.id.v);
    }
  }

  /** Giving its next version to one variable more. */
  lemma NextVersionsStep(rhs: Versions, lhs: Versions, vs: set<Var>, v: Var)
    requires v !in vs
    ensures Count(NextCounters(lhs, vs), v) == Count(lhs, v)
    ensures NextVersions(NextVersions(rhs, lhs, vs), NextCounters(lhs, vs), {v}) == NextVersions(rhs, lhs, vs + {v})
  {
    NextCountersAt(lhs, vs, v);
    hide NextVersions, NextCounters;
    var a, b := NextVersions(NextVersions(rhs, lhs, vs), NextCounters(lhs, vs), {v}), NextVersions(rhs, lhs, vs + {v});
    forall x
      ensures x in a <==> x in b
      ensures x in a ==> a[x] == b[x]
    {
      NextVersionsAt(rhs, lhs, vs, x);
      NextVersionsAt(NextVersions(rhs, lhs, vs), NextCounters(lhs, vs), {v}, x);
      NextVersionsAt(rhs, lhs, vs + {v}, x);
    }
  }

  lemma NextVersionsAt(rhs: Versions, lhs: Versions, vs: set<Var>, x: Var)
    ensures x in NextVersions(rhs, lhs, vs) <==> x in rhs || x in vs
    ensures x in vs ==> NextVersions(rhs, lhs, vs)[x] == Count(lhs, x)
    ensures x in rhs && x !in vs ==> NextVersions(rhs, lhs, vs)[x] == rhs[x]
  {}

  lemma NextCountersAt(lhs: Versions, vs: set<Var>, x: Var)
    ensures x in NextCounters(lhs, vs) <==> x in lhs || x in vs
    ensures Count(NextCounters(lhs, vs), x) == if x in vs then Count(lhs, x) + 1 else Count(lhs, x)
  {}

  lemma NextCountersStep(lhs: Versions, vs: set<Var>, v: Var)
    requires v !in vs
    ensures NextCounters(NextCounters(lhs, vs), {v}) == NextCounters(lhs, vs + {v})
  {
    hide NextCounters;
    var a, b := NextCounters(NextCounters(lhs, vs), {v}), NextCounters(lhs, vs + {v});
    forall x
      ensures x in a <==> x in b
      ensures x in a ==> a[x] == b[x]
    {
      NextCountersAt(lhs, vs, x);
      NextCountersAt(NextCounters(lhs, vs), {v}, x);
      NextCountersAt(lhs, vs + {v}, x);
    }
  }

  /** The destination written while renaming, from the counters before the block. */
  function NewDst(irdst: Var, d: Expr, rhs: Versions, lhs: Versions): (r: Expr) {
    if d.Id? && d.id.v != irdst then Id(Ssa(d.id.v, Count(lhs, d.id.v)))
    else if d.Id? then d
    else Rename(d, rhs)
  }

  /** The variables defined by the first i assignments of a list. */
  function DefinedUpTo(irdst: Var, list: seq<Assignment>, i: nat): (r: set<Var>)
    requires i <= |list|
  {
    set j | 0 <= j < i && list[j].0.Id? && list[j].0.id.Plain? && list[j].0.id.v != irdst :: list[j].0.id.v
  }

  /** Renaming one more destination: memory sees no new version, a variable gets its next one. */
  lemma DefinedStep(irdst: Var, a: AssignBlk, list: seq<Assignment>, i: nat)
    requires PlainAssign(a) && Enumerates(a, list) && MemoryFirst(list) && i < |list|
    ensures list[i].0.Mem? || (list[i].0.Id? && list[i].0.id.Plain?)
    ensures var d, vs, vs' := list[i].0, DefinedUpTo(irdst, list, i), DefinedUpTo(irdst, list, i + 1);
      && (d.Mem? ==> vs == vs' == {})
      && (d == Id(Plain(irdst)) ==> vs' == vs)
      && (d.Id? && d.id.v != irdst ==> d.id.v !in vs && vs' == vs + {d.id.v})
  {
    var d := list[i].0;
    assert d in a && PlainExpr(d);
    if d.Id? { assert d.id in Ids(d); }
    var vs, vs' := DefinedUpTo(irdst, list, i), DefinedUpTo(irdst, list, i + 1);
    forall v | v in vs'
      ensures v in vs || (d.Id? && v == d.id.v && v != irdst)
    {
      var j :| 0 <= j < i + 1 && list[j].0.Id? && list[j].0.id.Plain? && list[j].0.id.v != irdst && list[j].0.id.v == v;
    }
    forall v | v in vs
      ensures v in vs'
    {
      var j :| 0 <= j < i && list[j].0.Id? && list[j].0.id.Plain? && list[j].0.id.v != irdst && list[j].0.id.v == v;
    }
  }

  lemma DefinedAll(irdst: Var, a: AssignBlk, list: seq<Assignment>)
    requires Enumerates(a, list)
    ensures DefinedUpTo(irdst, list, |list|) == Defined(irdst, a)
  {
    var vs := DefinedUpTo(irdst, list, |list|);
    forall v | v in vs
      ensures v in Defined(irdst, a)
    {
      var j :| 0 <= j < |list| && list[j].0.Id? && list[j].0.id.Plain? && list[j].0.id.v != irdst && list[j].0.id.v == v;
      assert list[j].0 in a;
    }
    forall v | v in Defined(irdst, a)
      ensures v in vs
    {
      assert Occurs(list, Id(Plain(v)));
      var j :| 0 <= j < |list| && list[j].0 == Id(Plain(v));
    }
  }

  lemma NewDstIsRenamed(
    irdst: Var, a: AssignBlk, list: seq<Assignment>, out: seq<Assignment>, rhs: Versions, lhs: Versions)
    requires PlainAssign(a) && Enumerates(a, list) && |out| == |list|
    requires forall j :: 0 <= j < |list| ==> out[j].0 == NewDst(irdst, list[j].0, rhs, lhs)
    requires forall j :: 0 <= j < |list| ==> out[j].1 == Rename(list[j].1, rhs)
    ensures ListRenamed(irdst, list, out, rhs, NextVersions(rhs, lhs, Defined(irdst, a)))
  {
    forall j | 0 <= j < |list|
      ensures out[j].0 == RenamedDst(irdst, list[j].0, rhs, NextVersions(rhs, lhs, Defined(irdst, a)))
    {
      var d := list[j].0;
      assert d in a && PlainExpr(d);
      if d.Id? {
        assert d.id in Ids(d);
        if d.id.v != irdst { assert d.id.v in Defined(irdst, a); }
      }
    }
  }
}
