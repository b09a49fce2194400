/**
 What the depth-first renaming walk over the dominator tree keeps
 (miasm/analysis/ssa.py, SSADiGraph._rename): which blocks are done, which versions are
 saved for the blocks still to visit, and what each phi has received so far.
 */
module SsaWalk {
  import opened Paths
  import opened Dominators
  import opened Ir
  import opened SsaForm
  import opened SsaTables

  type PhiNodes = map<Loc, map<Ident, set<Ident>>>

  function Row(phinodes: PhiNodes, n: Loc): (r: map<Ident, set<Ident>>) {
    if n in phinodes then phinodes[n] else map[]
  }

  ghost predicate PlainRow(row: map<Ident, set<Ident>>) {
    forall id :: id in row ==> id.Plain?
  }

  function RowVars(row: map<Ident, set<Ident>>): (r: set<Var>) {
    set id | id in row :: id.v
  }

  /** The phis of a block once their destinations have versions. */
  ghost function Rekeyed(row: map<Ident, set<Ident>>, ver: Versions): (r: map<Ident, set<Ident>>)
    requires PlainRow(row)
  {
    map id | id in row :: Current(ver, id.v) := row[id]
  }

  function AddSource(row: map<Ident, set<Ident>>, ver: Versions): (r: map<Ident, set<Ident>>) {
    map id | id in row :: row[id] + {Current(ver, id.v)}
  }

  /** Every phi of a successor receives the version leaving the block. */
  ghost function SuccessorsUpdated(phinodes: PhiNodes, succs: seq<Loc>, ver: Versions): (r: PhiNodes) {
    map n | n in phinodes :: if n in succs then AddSource(phinodes[n], ver) else phinodes[n]
  }

  // ----- missing blocks -----

  /** The block at a location; a location that was never disassembled has none. */
  function BlockAt(blocks: map<Loc, Block>, n: Loc): (r: Block) {
    if n in blocks then blocks[n] else []
  }

  /** An incomplete graph seen as a complete one: missing blocks do nothing. */
  ghost function Filled(blocks: map<Loc, Block>, nodes: set<Loc>): (r: map<Loc, Block>) {
    map n | n in nodes :: BlockAt(blocks, n)
  }

  // ----- the pending blocks -----

  /** The versions saved for a pending block are those leaving its immediate dominator. */
  ghost predicate Saved(c: Cfg, idoms: map<Loc, Loc>, t: Tables, n: Loc, ver: Versions) {
    if n == c.head then ver == map[]
    else n in idoms && idoms[n] in t.trace && |t.trace[idoms[n]]| > 0 && ver == Exit(t, idoms[n])
  }

  ghost predicate Pending(c: Cfg, idoms: map<Loc, Loc>, t: Tables, todo: seq<Loc>, stack: seq<Versions>) {
    && |stack| == |todo| && NoDuplicates(todo)
    && (forall i :: 0 <= i < |todo| ==> todo[i] in c.blocks && todo[i] !in t.trace && Saved(c, idoms, t, todo[i], stack[i]))
    && (c.head in t.trace || c.head in todo)
    && (forall n :: n in idoms && idoms[n] in t.trace ==> n in t.trace || n in todo)
  }

  // ----- the blocks done -----

  ghost predicate EntryOk(c: Cfg, idoms: map<Loc, Loc>, t: Tables, n: Loc) {
    && n in t.trace && |t.trace[n]| > 0
    && if n == c.head then Entry(t, n) == map[]
       else n in idoms && idoms[n] in t.trace && |t.trace[idoms[n]]| > 0
            && EntryVersions(Phis(t.phi, n), Exit(t, idoms[n]), Entry(t, n))
  }

  ghost predicate DoneBlock(c: Cfg, irdst: Var, t: Tables, n: Loc, b: Block) {
    && n in c.blocks && n in t.trace
    && BlockRenamed(irdst, c.blocks[n], b, t.trace[n]) && Increasing(irdst, c.blocks[n], t.trace[n])
  }

  ghost predicate Blocks(c: Cfg, irdst: Var, idoms: map<Loc, Loc>, t: Tables, blocks: map<Loc, Block>) {
    && blocks.Keys == c.blocks.Keys
    && (forall n :: n in t.trace ==> n in blocks && DoneBlock(c, irdst, t, n, blocks[n]) && EntryOk(c, idoms, t, n))
    && (forall n :: n in blocks && n !in t.trace ==> blocks[n] == c.blocks[n])
  }

  // ----- the phis -----

  ghost predicate TracesNonEmpty(t: Tables) {
    forall n :: n in t.trace ==> |t.trace[n]| > 0
  }

  /** The versions of v leaving the predecessors of n that are done. */
  ghost function DoneSources(c: Cfg, t: Tables, n: Loc, v: Var): (r: set<Ident>)
    requires TracesNonEmpty(t)
  {
    set p | p in t.trace && p in Prev(c.flow, n) :: Current(Exit(t, p), v)
  }

  ghost function RowDst(t: Tables, n: Loc, v: Var): (r: Ident)
    requires TracesNonEmpty(t)
  {
    if n in t.trace then Current(Entry(t, n), v) else Plain(v)
  }

  ghost predicate RowOk(c: Cfg, t: Tables, n: Loc, row: map<Ident, set<Ident>>) {
    && TracesNonEmpty(t)
    && (forall id :: id in row <==> id.v in Phis(t.phi, n) && id == RowDst(t, n, id.v))
    && (forall id :: id in row ==> row[id] == DoneSources(c, t, n, id.v))
  }

  ghost predicate PhiRows(c: Cfg, t: Tables, phinodes: PhiNodes) {
    phinodes.Keys == t.phi.Keys && forall n :: n in phinodes ==> RowOk(c, t, n, phinodes[n])
  }

  // ----- one step of the walk -----

  /** The tables once block loc has trace tr. */
  ghost function Visited(t: Tables, loc: Loc, tr: seq<Versions>): (r: Tables) {
    t.(trace := t.trace[loc := tr])
  }

  lemma VisitedKeeps(t: Tables, loc: Loc, tr: seq<Versions>, n: Loc)
    requires loc !in t.trace && n in t.trace && |t.trace[n]| > 0
    ensures n in Visited(t, loc, tr).trace && |Visited(t, loc, tr).trace[n]| > 0
    ensures Exit(Visited(t, loc, tr), n) == Exit(t, n) && Entry(Visited(t, loc, tr), n) == Entry(t, n)
  {}

  lemma BlocksStep(
    c: Cfg, irdst: Var, idoms: map<Loc, Loc>, t: Tables, blocks: map<Loc, Block>, loc: Loc, tr: seq<Versions>, b: Block)
    requires Blocks(c, irdst, idoms, t, blocks) && loc !in t.trace && loc in c.blocks && |tr| > 0
    requires DoneBlock(c, irdst, Visited(t, loc, tr), loc, b) && EntryOk(c, idoms, Visited(t, loc, tr), loc)
    ensures Blocks(c, irdst, idoms, Visited(t, loc, tr), blocks[loc := b])
  {
    hide BlockRenamed, Increasing, EntryVersions;
    var t', blocks' := Visited(t, loc, tr), blocks[loc := b];
    forall n | n in t'.trace
      ensures n in blocks' && DoneBlock(c, irdst, t', n, blocks'[n]) && EntryOk(c, idoms, t', n)
    {
      if n != loc {
        assert DoneBlock(c, irdst, t, n, blocks[n]) && EntryOk(c, idoms, t, n);
        VisitedKeeps(t, loc, tr, n);
        if n != c.head { VisitedKeeps(t, loc, tr, idoms[n]); }
      }
    }
  }

  /** The children of a block in the dominator tree. */
  ghost predicate AreChildren(c: Cfg, idoms: map<Loc, Loc>, loc: Loc, children: seq<Loc>) {
    && NoDuplicates(children)
    && (forall b :: b in children <==> b in idoms && idoms[b] == loc)
    && (forall b :: b in idoms ==> b in c.blocks && b != c.head)
  }

  /** The children of a pending block are neither done nor pending. */
  lemma ChildrenFresh(
    c: Cfg, irdst: Var, idoms: map<Loc, Loc>, t: Tables, blocks: map<Loc, Block>,
    todo: seq<Loc>, stack: seq<Versions>, loc: Loc, children: seq<Loc>)
    requires Blocks(c, irdst, idoms, t, blocks) && Pending(c, idoms, t, todo, stack)
    requires loc in todo && AreChildren(c, idoms, loc, children)
    ensures forall b :: b in children ==> b !in t.trace && b !in todo
  {
    hide DoneBlock, EntryVersions;
    assert loc !in t.trace;
    forall b | b in children
      ensures b !in t.trace && b !in todo
    {
      if i :| 0 <= i < |todo| && todo[i] == b {
        assert Saved(c, idoms, t, todo[i], stack[i]);
      }
    }
  }

  lemma SavedStep(c: Cfg, idoms: map<Loc, Loc>, t: Tables, loc: Loc, tr: seq<Versions>, n: Loc, ver: Versions)
    requires loc !in t.trace && Saved(c, idoms, t, n, ver)
    ensures Saved(c, idoms, Visited(t, loc, tr), n, ver)
  {
    if n != c.head { VisitedKeeps(t, loc, tr, idoms[n]); }
  }

  lemma InButLast(s: seq<Loc>, x: Loc)
    requires x in s && x != s[|s| - 1]
    ensures x in s[..|s| - 1]
  {
    var i :| 0 <= i < |s| && s[i] == x;
    assert s[..|s| - 1][i] == x;
  }

  lemma PendingStep(
    c: Cfg, irdst: Var, idoms: map<Loc, Loc>, t: Tables, blocks: map<Loc, Block>,
    todo: seq<Loc>, stack: seq<Versions>, tr: seq<Versions>, children: seq<Loc>, saved: seq<Versions>)
    requires Blocks(c, irdst, idoms, t, blocks) && Pending(c, idoms, t, todo, stack) && |todo| > 0 && |tr| > 0
    requires AreChildren(c, idoms, todo[|todo| - 1], children) && |saved| == |children|
    requires forall i :: 0 <= i < |saved| ==> saved[i] == tr[|tr| - 1]
    ensures Pending(
      c, idoms, Visited(t, todo[|todo| - 1], tr),
      todo[..|todo| - 1] + children, stack[..|stack| - 1] + saved)
  {
    hide Blocks;
    var k := |todo| - 1;
    var loc := todo[k];
    var t' := Visited(t, loc, tr);
    var todo', stack' := todo[..k] + children, stack[..k] + saved;
    ChildrenFresh(c, irdst, idoms, t, blocks, todo, stack, loc, children);
    forall i | 0 <= i < |todo'|
      ensures todo'[i] in c.blocks && todo'[i] !in t'.trace && Saved(c, idoms, t', todo'[i], stack'[i])
    {
      if i < k {
        assert todo'[i] == todo[i] && stack'[i] == stack[i];
        SavedStep(c, idoms, t, loc, tr, todo[i], stack[i]);
      } else {
        var b := children[i - k];
        assert todo'[i] == b && b in children && stack'[i] == saved[i - k];
        assert Exit(t', loc) == tr[|tr| - 1];
      }
    }
    forall i | 0 <= i < k
      ensures todo[..k][i] !in children
    {
      assert todo[i] in todo;
    }
    NoDuplicatesJoin(todo[..k], children);
    PendingCovers(c, idoms, t, todo, stack, tr, children);
    hide Saved;
  }

  /** Every block whose immediate dominator is done stays done or pending. */
  lemma PendingCovers(
    c: Cfg, idoms: map<Loc, Loc>, t: Tables, todo: seq<Loc>, stack: seq<Versions>, tr: seq<Versions>, children: seq<Loc>)
    requires Pending(c, idoms, t, todo, stack) && |todo| > 0
    requires AreChildren(c, idoms, todo[|todo| - 1], children)
    ensures var t', todo' := Visited(t, todo[|todo| - 1], tr), todo[..|todo| - 1] + children;
      && (c.head in t'.trace || c.head in todo')
      && (forall n :: n in idoms && idoms[n] in t'.trace ==> n in t'.trace || n in todo')
  {
    hide Saved;
    var loc := todo[|todo| - 1];
    var t', todo' := Visited(t, loc, tr), todo[..|todo| - 1] + children;
    if c.head !in t'.trace { InButLast(todo, c.head); }
    forall n | n in idoms && idoms[n] in t'.trace
      ensures n in t'.trace || n in todo'
    {
      if idoms[n] != loc && n !in t'.trace { InButLast(todo, n); }
    }
  }

  lemma NoDuplicatesJoin(a: seq<Loc>, b: seq<Loc>)
    requires NoDuplicates(a) && NoDuplicates(b) && forall i :: 0 <= i < |a| ==> a[i] !in b
    ensures NoDuplicates(a + b)
  {
    var s := a + b;
    forall i, j | 0 <= i < j < |s|
      ensures s[i] != s[j]
    {
      if i < |a| <= j { assert s[j] == b[j - |a|] && b[j - |a|] in b; }
    }
  }

  // ----- the phis after one step -----

  lemma SourcesStep(c: Cfg, t: Tables, loc: Loc, tr: seq<Versions>, n: Loc, v: Var)
    requires TracesNonEmpty(t) && loc !in t.trace && |tr| > 0
    ensures TracesNonEmpty(Visited(t, loc, tr))
    ensures DoneSources(c, Visited(t, loc, tr), n, v) ==
      DoneSources(c, t, n, v) + if loc in Prev(c.flow, n) then {Current(tr[|tr| - 1], v)} else {}
  {
    var t' := Visited(t, loc, tr);
    forall p | p in t.trace
      ensures Exit(t', p) == Exit(t, p)
    {
      VisitedKeeps(t, loc, tr, p);
    }
    var before, after := DoneSources(c, t, n, v), DoneSources(c, t', n, v);
    forall id | id in before
      ensures id in after
    {
      var p :| p in t.trace && p in Prev(c.flow, n) && id == Current(Exit(t, p), v);
      assert id == Current(Exit(t', p), v);
    }
    assert Exit(t', loc) == tr[|tr| - 1];
  }

  /** The row of n after the visit of loc: new destinations at loc, a new source at its successors. */
  ghost function RowVisited(c: Cfg, loc: Loc, tr: seq<Versions>, n: Loc, row: map<Ident, set<Ident>>): (r: map<Ident, set<Ident>>)
    requires |tr| > 0 && (n == loc ==> PlainRow(row))
  {
    var row1 := if n == loc then Rekeyed(row, tr[0]) else row;
    if Edge(c.flow, loc, n) then AddSource(row1, tr[|tr| - 1]) else row1
  }

  lemma RowValueStep(c: Cfg, t: Tables, loc: Loc, tr: seq<Versions>, n: Loc, row: map<Ident, set<Ident>>, id: Ident)
    requires Coherent(c.flow) && loc !in t.trace && |tr| > 0 && RowOk(c, t, n, row)
    requires n == loc ==> PlainRow(row)
    requires id in RowVisited(c, loc, tr, n, row)
    ensures TracesNonEmpty(Visited(t, loc, tr))
    ensures RowVisited(c, loc, tr, n, row)[id] == DoneSources(c, Visited(t, loc, tr), n, id.v)
  {
    hide Rekeyed, Visited, DoneSources, RowDst, Coherent, PlainRow;
    SourcesStep(c, t, loc, tr, n, id.v);
    CoherentEdge(c.flow, loc, n);
    if n == loc {
      RekeyedValue(row, tr[0], id);
    }
  }

  lemma CoherentEdge(f: Flow<Loc>, a: Loc, b: Loc)
    requires Coherent(f)
    ensures a in Prev(f, b) <==> Edge(f, a, b)
  {}

  lemma RowStep(c: Cfg, t: Tables, loc: Loc, tr: seq<Versions>, n: Loc, row: map<Ident, set<Ident>>)
    requires Coherent(c.flow) && loc !in t.trace && |tr| > 0 && RowOk(c, t, n, row)
    requires n == loc ==> PlainRow(row)
    ensures RowOk(c, Visited(t, loc, tr), n, RowVisited(c, loc, tr, n, row))
  {
    hide Rekeyed, DoneSources, RowDst, Coherent, PlainRow;
    var t' := Visited(t, loc, tr);
    assert TracesNonEmpty(t');
    KeysStep(t, loc, tr, n, row);
    var row2 := RowVisited(c, loc, tr, n, row);
    forall id | id in row2
      ensures row2[id] == DoneSources(c, t', n, id.v)
    {
      RowValueStep(c, t, loc, tr, n, row, id);
    }
  }

  lemma RekeyedValue(row: map<Ident, set<Ident>>, ver: Versions, id: Ident)
    requires PlainRow(row)
    ensures id in Rekeyed(row, ver) <==> Plain(id.v) in row && id == Current(ver, id.v)
    ensures id in Rekeyed(row, ver) ==> Rekeyed(row, ver)[id] == row[Plain(id.v)]
  {
    if Plain(id.v) in row && id == Current(ver, id.v) {
      assert Current(ver, Plain(id.v).v) in Rekeyed(row, ver);
    }
  }

  lemma KeysStep(t: Tables, loc: Loc, tr: seq<Versions>, n: Loc, row: map<Ident, set<Ident>>)
    requires loc !in t.trace && |tr| > 0 && TracesNonEmpty(t) && TracesNonEmpty(Visited(t, loc, tr))
    requires forall id :: id in row <==> id.v in Phis(t.phi, n) && id == RowDst(t, n, id.v)
    requires n == loc ==> PlainRow(row)
    ensures var row1 := if n == loc then Rekeyed(row, tr[0]) else row;
      forall id :: id in row1 <==> id.v in Phis(t.phi, n) && id == RowDst(Visited(t, loc, tr), n, id.v)
  {
    var t' := Visited(t, loc, tr);
    var row1 := if n == loc then Rekeyed(row, tr[0]) else row;
    if n == loc {
      forall id
        ensures id in row1 <==> id.v in Phis(t.phi, n) && id == RowDst(t', n, id.v)
      {
        RekeyedValue(row, tr[0], id);
      }
    } else if n in t.trace {
      VisitedKeeps(t, loc, tr, n);
    }
  }

  /** What the walk does to the phis at block loc. */
  ghost function PhiVisited(phinodes: PhiNodes, loc: Loc, entry: Versions): (r: PhiNodes)
    requires PlainRow(Row(phinodes, loc))
  {
    if loc in phinodes then phinodes[loc := Rekeyed(phinodes[loc], entry)] else phinodes
  }

  lemma PhiRowsStep(c: Cfg, t: Tables, phinodes: PhiNodes, loc: Loc, tr: seq<Versions>)
    requires Coherent(c.flow) && PhiRows(c, t, phinodes) && loc !in t.trace && |tr| > 0
    requires PlainRow(Row(phinodes, loc))
    ensures PhiRows(
      c, Visited(t, loc, tr),
      SuccessorsUpdated(PhiVisited(phinodes, loc, tr[0]), Next(c.flow, loc), tr[|tr| - 1]))
  {
    hide RowOk, PlainRow, Rekeyed, AddSource;
    var p2 := SuccessorsUpdated(PhiVisited(phinodes, loc, tr[0]), Next(c.flow, loc), tr[|tr| - 1]);
    forall n | n in phinodes
      ensures RowOk(c, Visited(t, loc, tr), n, p2[n])
    {
      RowStep(c, t, loc, tr, n, phinodes[n]);
    }
  }

  lemma PlainBeforeVisit(c: Cfg, t: Tables, phinodes: PhiNodes, loc: Loc)
    requires PhiRows(c, t, phinodes) && loc !in t.trace
    ensures PlainRow(Row(phinodes, loc)) && RowVars(Row(phinodes, loc)) == Phis(t.phi, loc)
  {
    if loc in phinodes {
      var row := phinodes[loc];
      assert RowOk(c, t, loc, row);
      forall v | v in Phis(t.phi, loc)
        ensures v in RowVars(row)
      {
        assert Plain(v) in row;
      }
    } else {
      assert RowVars(map[]) == {};
    }
  }

  // ----- the end of the walk -----

  /** When nothing is pending, every block has been visited. */
  lemma {:induction false} AllVisited(c: Cfg, idoms: map<Loc, Loc>, t: Tables, n: Loc)
    requires Pending(c, idoms, t, [], []) && ImmediateDominators(c.flow, c.head, idoms)
    requires forall n :: n in c.blocks <==> Reach(c.flow, c.head, n)
    requires n in c.blocks
    ensures n in t.trace
    decreases StrictSet(c.flow, c.head, c.blocks.Keys, n)
  {
    if n != c.head {
      StrictDominatorsStep(c.flow, c.head, idoms[n], n);
      StrictSetShrinks(c.flow, c.head, c.blocks.Keys, idoms[n], n);
      AllVisited(c, idoms, t, idoms[n]);
    }
  }
}
