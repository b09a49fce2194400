/**
 Dead assignment removal (miasm/analysis/data_flow.py): the definition-use graph, the useful
 assignments, and the rewriting of the blocks.
 */
module DeadRemoval {
  import opened Paths
  import opened Dominators
  import opened DiGraphs
  import opened Ir
  import opened DataFlow
  import opened ReachingDefs
  import opened DeadMeaning
  import opened DeadSearch

  // ----- the definition-use graph -----

  /** Assignment b reads a value that, according to the table, a may have assigned. */
  ghost predicate Reads(blocks: map<Loc, Block>, table: Table, a: Node, b: Node) {
    && IsNode(blocks, b)
    && a.lval in ReadsOf(b.lval, blocks[b.loc][b.index][b.lval])
    && (a.loc, a.index) in At(Get(table, (b.loc, b.index)), a.lval)
  }

  lemma ReadsIsDepends(f: Flow<Loc>, blocks: map<Loc, Block>, table: Table, a: Node, b: Node)
    requires IsReaching(f, blocks, table)
    ensures Reads(blocks, table, a, b) <==> Depends(f, blocks, a, b)
  {
    hide Carried, ReadsOf;
  }

  /** The edges into target from the definitions of x at the given sites. */
  method AddDefinitions(g: DiGraph<Node>, x: Expr, sites: set<Site>, target: Node)
    requires g.Valid()
    modifies g
    ensures g.Valid()
    ensures forall a, b :: (a, b) in g.edges <==>
      (a, b) in old(g.edges) || (b == target && a.lval == x && (a.loc, a.index) in sites)
  {
    var todo := sites;
    while todo != {}
      invariant todo <= sites && g.Valid()
      invariant forall a, b :: (a, b) in g.edges <==>
        (a, b) in old(g.edges) || (b == target && a.lval == x && (a.loc, a.index) in sites - todo)
      decreases todo
    {
      var s :| s in todo;
      todo := todo - {s};
      g.AddUniqEdge(Node(s.0, s.1, x), target);
    }
  }

  /** The edges into target from the definitions, in d, of everything it reads. */
  method AddReads(g: DiGraph<Node>, d: Defs, vars: set<Expr>, target: Node)
    requires g.Valid()
    modifies g
    ensures g.Valid()
    ensures forall a, b :: (a, b) in g.edges <==>
      (a, b) in old(g.edges) || (b == target && a.lval in vars && (a.loc, a.index) in At(d, a.lval))
  {
    var todo := vars;
    while todo != {}
      invariant todo <= vars && g.Valid()
      invariant forall a, b :: (a, b) in g.edges <==>
        (a, b) in old(g.edges) || (b == target && a.lval in vars - todo && (a.loc, a.index) in At(d, a.lval))
      decreases todo
    {
      var x :| x in todo;
      todo := todo - {x};
      AddDefinitions(g, x, At(d, x), target);
    }
  }

  method AddAssign(g: DiGraph<Node>, blocks: map<Loc, Block>, table: Table, n: Loc, i: nat)
    requires g.Valid() && n in blocks && i < |blocks[n]|
    modifies g
    ensures g.Valid()
    ensures forall a, b :: (a, b) in g.edges <==>
      (a, b) in old(g.edges) || (b.loc == n && b.index == i && Reads(blocks, table, a, b))
  {
    hide ReadsOf, At;
    var assigns := blocks[n][i];
    var todo := assigns.Keys;
    while todo != {}
      invariant todo <= assigns.Keys && g.Valid()
      invariant forall a, b :: (a, b) in g.edges <==>
        (a, b) in old(g.edges) || (b.loc == n && b.index == i && b.lval !in todo && Reads(blocks, table, a, b))
      decreases todo
    {
      var x :| x in todo;
      todo := todo - {x};
      var _ := g.AddNode(Node(n, i, x));
      AddReads(g, Get(table, (n, i)), ReadsOf(x, assigns[x]), Node(n, i, x));
    }
  }

  method AddBlock(g: DiGraph<Node>, blocks: map<Loc, Block>, table: Table, n: Loc)
    requires g.Valid() && n in blocks
    modifies g
    ensures g.Valid()
    ensures forall a, b :: (a, b) in g.edges <==> (a, b) in old(g.edges) || (b.loc == n && Reads(blocks, table, a, b))
  {
    hide ReadsOf, At;
    for i := 0 to |blocks[n]|
      invariant g.Valid()
      invariant forall a, b :: (a, b) in g.edges <==>
        (a, b) in old(g.edges) || (b.loc == n && b.index < i && Reads(blocks, table, a, b))
    {
      AddAssign(g, blocks, table, n, i);
    }
  }

  /** The definition-use graph: an edge from each assignment to those that may read its value. */
  method ComputeDefUse(reaching: ReachingDefinitions) returns (g: DiGraph<Node>)
    ensures fresh(g) && g.Valid()
    ensures forall a, b :: (a, b) in g.edges <==> Reads(reaching.blocks, reaching.table, a, b)
  {
    hide Reads;
    var blocks, table := reaching.blocks, reaching.table;
    g := new DiGraph<Node>();
    var todo := blocks.Keys;
    while todo != {}
      invariant fresh(g) && g.Valid() && todo <= blocks.Keys && reaching.table == table
      invariant forall a, b :: (a, b) in g.edges <==> b.loc in blocks && b.loc !in todo && Reads(blocks, table, a, b)
      decreases todo
    {
      var n :| n in todo;
      todo := todo - {n};
      AddBlock(g, blocks, table, n);
    }
    forall a, b | Reads(blocks, table, a, b)
      ensures b.loc in blocks
    {
      ReaderExists(blocks, table, a, b);
    }
  }

  lemma ReaderExists(blocks: map<Loc, Block>, table: Table, a: Node, b: Node)
    requires Reads(blocks, table, a, b)
    ensures b.loc in blocks
  {}

  /** Paths of the graph to a root are chains of dependencies. */
  lemma ReachIsUseful(f: Flow<Loc>, blocks: map<Loc, Block>, e: Exits, g: Flow<Node>, a: Node)
    requires forall x, y :: Edge(g, x, y) <==> Depends(f, blocks, x, y)
    ensures IsUseful(f, blocks, e, a) <==> exists r :: IsRoot(f, blocks, e, r) && Reach(g, a, r)
  {
    hide Depends, IsRoot;
    if IsUseful(f, blocks, e, a) {
      var w :| UsefulChain(f, blocks, e, a, w);
      forall i | 0 <= i < |w| - 1
        ensures Edge(g, w[i], w[i + 1])
      {
        assert Depends(f, blocks, w[i], w[i + 1]);
      }
      assert Between(g, w, a, w[|w| - 1]);
    }
    if r :| IsRoot(f, blocks, e, r) && Reach(g, a, r) {
      var w :| Between(g, w, a, r);
      forall i, j | 0 <= i < |w| - 1 && j == i + 1
        ensures Depends(f, blocks, w[i], w[j])
      {
        assert Edge(g, w[i], w[i + 1]);
      }
      assert UsefulChain(f, blocks, e, a, w);
    }
  }

  // ----- roots -----

  /** The destinations of one block that must stay: cells, the destination register, the exception flags
      and results of calls. */
  method GetBlockUsefulDestinations(irdst: Var, n: Loc, b: Block) returns (useful: set<Node>)
    ensures forall a :: a in useful <==>
      a.loc == n && a.index < |b| && a.lval in b[a.index] && HasEffect(irdst, a.lval, b[a.index][a.lval])
  {
    hide IsUnkillable, HasEffect;
    forall lval, rval ensures IsUnkillable(irdst, lval, rval) <==> HasEffect(irdst, lval, rval) {
      UnkillableHasEffect(irdst, lval, rval);
    }
    useful := {};
    for i := 0 to |b|
      invariant forall a :: a in useful <==>
        a.loc == n && a.index < i && a.lval in b[a.index] && HasEffect(irdst, a.lval, b[a.index][a.lval])
    {
      useful := useful + set x | x in b[i] && IsUnkillable(irdst, x, b[i][x]) :: Node(n, i, x);
    }
  }

  class IrCfg {
    const graph: DiGraph<Loc>
    var blocks: map<Loc, Block>

    constructor (graph: DiGraph<Loc>, blocks: map<Loc, Block>)
      ensures this.graph == graph && this.blocks == blocks
    {
      this.graph, this.blocks := graph, blocks;
    }
  }

  class DeadRemover {
    const exits: Exits

    constructor (exits: Exits)
      ensures this.exits == exits
    {
      this.exits := exits;
    }

    /** The definitions of the out registers that reach the end of a block. */
    method FindOutRegs(f: Flow<Loc>, blocks: map<Loc, Block>, n: Loc) returns (defs: set<Node>)
      requires Coherent(f) && n in blocks
      ensures forall a :: a in defs <==>
        a.lval in exits.outRegs(n) && Carried(f, blocks, a.lval, a.loc, a.index, n, |blocks[n]|)
    {
      hide Carried;
      var worklist := set x | x in exits.outRegs(n) :: (x, n);
      defs := FindDefinitionsFromWorklist(f, blocks, worklist);
      forall a
        ensures IsAnswer(f, blocks, worklist, a) <==>
          a.lval in exits.outRegs(n) && Carried(f, blocks, a.lval, a.loc, a.index, n, |blocks[n]|)
      {
        assert Answers(f, blocks, worklist, a, n) <==>
          a.lval in exits.outRegs(n) && Carried(f, blocks, a.lval, a.loc, a.index, n, |blocks[n]|);
      }
    }

    /** Every definition valid at the end of a block that leads to a missing one. */
    method AddDefForIncompleteLeaf(f: Flow<Loc>, blocks: map<Loc, Block>, table: Table, n: Loc) returns (defs: set<Node>)
      requires Coherent(f) && n in blocks && IsReaching(f, blocks, table)
      ensures forall a :: a in defs <==> Carried(f, blocks, a.lval, a.loc, a.index, n, |blocks[n]|)
    {
      hide Carried;
      var valid := Get(table, (n, |blocks[n]|));
      var worklist := set x | x in valid && valid[x] != {} :: (x, n);
      defs := FindDefinitionsFromWorklist(f, blocks, worklist);
      forall a
        ensures IsAnswer(f, blocks, worklist, a) <==> Carried(f, blocks, a.lval, a.loc, a.index, n, |blocks[n]|)
      {
        assert (a.loc, a.index) in At(valid, a.lval) <==> Carried(f, blocks, a.lval, a.loc, a.index, n, |blocks[n]|);
        assert Answers(f, blocks, worklist, a, n) <==>
          (a.lval, n) in worklist && Carried(f, blocks, a.lval, a.loc, a.index, n, |blocks[n]|);
      }
      var outRegs := FindOutRegs(f, blocks, n);
      defs := defs + outRegs;
    }

    /** What one block forces to stay. */
    method BlockRoots(f: Flow<Loc>, blocks: map<Loc, Block>, table: Table, n: Loc) returns (roots: set<Node>)
      requires Coherent(f) && n in blocks && IsReaching(f, blocks, table)
      ensures forall a :: a in roots <==>
        || (a.loc == n && IsNode(blocks, a) && IsUnkillable(exits.irdst, a.lval, blocks[n][a.index][a.lval]))
        || DemandedFrom(f, blocks, exits, a, n)
    {
      hide IsReaching, IsUnkillable, HasEffect, Carried, Coherent;
      roots := GetBlockUsefulDestinations(exits.irdst, n, blocks[n]);
      forall lval, rval ensures IsUnkillable(exits.irdst, lval, rval) <==> HasEffect(exits.irdst, lval, rval) {
        UnkillableHasEffect(exits.irdst, lval, rval);
      }
      var successors := Next(f, n);
      var keepAll := false;
      for i := 0 to |successors|
        invariant keepAll <==> exists k :: 0 <= k < i && successors[k] !in blocks
      {
        if successors[i] !in blocks {
          keepAll := true;
        }
      }
      assert keepAll <==> HasMissing(f, blocks, n);
      hide HasMissing;
      if keepAll {
        var defs := AddDefForIncompleteLeaf(f, blocks, table, n);
        roots := roots + defs;
      } else if |successors| == 0 {
        var defs := FindOutRegs(f, blocks, n);
        roots := roots + defs;
      }
    }

    method Roots(f: Flow<Loc>, blocks: map<Loc, Block>, table: Table) returns (roots: set<Node>)
      requires Coherent(f) && IsReaching(f, blocks, table)
      ensures forall a :: a in roots <==> IsRoot(f, blocks, exits, a)
    {
      hide IsReaching, IsUnkillable, DemandedFrom, Coherent;
      roots := {};
      var todo := blocks.Keys;
      while todo != {}
        invariant todo <= blocks.Keys
        invariant forall a :: a in roots <==> RootOf(f, blocks, exits, a, blocks.Keys - todo)
        decreases todo
      {
        var n :| n in todo;
        var more := BlockRoots(f, blocks, table, n);
        RootOfStep(f, blocks, exits, blocks.Keys - todo, n);
        roots := roots + more;
        todo := todo - {n};
        assert blocks.Keys - todo == blocks.Keys - (todo + {n}) + {n};
      }
      forall a
        ensures a in roots <==> IsRoot(f, blocks, exits, a)
      {
        RootOfAll(f, blocks, exits, a);
        assert blocks.Keys - todo == blocks.Keys;
      }
    }

    /** The useful assignments: those some root depends on, through any number of reads. */
    method GetUsefulAssignments(f: Flow<Loc>, reaching: ReachingDefinitions, defuse: DiGraph<Node>) returns (useful: set<Node>)
      requires Coherent(f) && IsReaching(f, reaching.blocks, reaching.table) && defuse.Valid()
      requires forall a, b :: (a, b) in defuse.edges <==> Reads(reaching.blocks, reaching.table, a, b)
      ensures AreUseful(f, reaching.blocks, exits, useful)
    {
      hide IsReaching, IsRoot, Reads, Depends, Reach, Coherent, IsUseful;
      var blocks := reaching.blocks;
      var roots := Roots(f, blocks, reaching.table);
      defuse.ViewEdges();
      var g := defuse.View();
      forall a, b
        ensures Edge(g, a, b) <==> Depends(f, blocks, a, b)
      {
        ReadsIsDepends(f, blocks, reaching.table, a, b);
      }
      useful := {};
      var todo := roots;
      while todo != {}
        invariant todo <= roots
        invariant forall a :: a in useful <==> ReachesOne(g, a, roots - todo)
        decreases todo
      {
        var r :| r in todo;
        var parents := ReachableNodes(Reversed(g), r);
        ParentsReach(g, r, parents);
        ReachesMore(g, roots - todo, r);
        useful := useful + set a | a in parents;
        todo := todo - {r};
        assert roots - todo == roots - (todo + {r}) + {r};
      }
      assert roots - todo == roots;
      forall a
        ensures a in useful <==> IsUseful(f, blocks, exits, a)
      {
        ReachIsUseful(f, blocks, exits, g, a);
        assert ReachesOne(g, a, roots) <==> exists r :: IsRoot(f, blocks, exits, r) && Reach(g, a, r);
      }
    }

    /**
     Removes the useless assignments of every block; tells whether there were any. The assignments
     left are those with a chain of reads to one that is seen, and they keep it among themselves.
     */
    method DoDeadRemoval(ircfg: IrCfg) returns (modified: bool, ghost useful: set<Node>)
      requires ircfg.graph.Valid()
      modifies ircfg`blocks
      ensures AreUseful(ircfg.graph.View(), old(ircfg.blocks), exits, useful)
      ensures ircfg.blocks == Pruned(old(ircfg.blocks), useful)
      ensures OnlyMatters(ircfg.graph.View(), old(ircfg.blocks), exits, ircfg.blocks)
      ensures modified <==> ircfg.blocks != old(ircfg.blocks)
    {
      hide IsReaching, Reads, AreUseful, Pruned, Coherent, OnlyMatters;
      var reaching := new ReachingDefinitions(ircfg.graph, ircfg.blocks);
      var defuse := ComputeDefUse(reaching);
      ircfg.graph.ViewEdges();
      var kept := GetUsefulAssignments(ircfg.graph.View(), reaching, defuse);
      useful := kept;
      var blocks;
      RemovalLeaves(ircfg.graph.View(), ircfg.blocks, exits, kept);
      modified, blocks := Prune(ircfg.blocks, kept);
      ircfg.blocks := blocks;
    }
  }

  // ----- helpers -----

  /** The blocks of s force a to stay. */
  ghost predicate RootOf(f: Flow<Loc>, blocks: map<Loc, Block>, e: Exits, a: Node, s: set<Loc>) {
    || (a.loc in s && IsNode(blocks, a) && IsUnkillable(e.irdst, a.lval, blocks[a.loc][a.index][a.lval]))
    || exists n :: n in s && DemandedFrom(f, blocks, e, a, n)
  }

  lemma RootOfStep(f: Flow<Loc>, blocks: map<Loc, Block>, e: Exits, s: set<Loc>, n: Loc)
    requires n in blocks
    ensures forall a :: RootOf(f, blocks, e, a, s + {n}) <==>
      || RootOf(f, blocks, e, a, s)
      || (a.loc == n && IsNode(blocks, a) && IsUnkillable(e.irdst, a.lval, blocks[n][a.index][a.lval]))
      || DemandedFrom(f, blocks, e, a, n)
  {
    hide IsUnkillable, DemandedFrom;
  }

  lemma RootOfAll(f: Flow<Loc>, blocks: map<Loc, Block>, e: Exits, a: Node)
    ensures RootOf(f, blocks, e, a, blocks.Keys) <==> IsRoot(f, blocks, e, a)
  {
    hide IsUnkillable, Carried;
    if n :| DemandedFrom(f, blocks, e, a, n) {
      CarriedDefines(f, blocks, a.lval, a.loc, a.index, n, |blocks[n]|);
    }
  }

  ghost predicate ReachesOne(g: Flow<Node>, a: Node, s: set<Node>) {
    exists r :: r in s && Reach(g, a, r)
  }

  lemma ReachesMore(g: Flow<Node>, s: set<Node>, r: Node)
    ensures forall a :: ReachesOne(g, a, s + {r}) <==> ReachesOne(g, a, s) || Reach(g, a, r)
  {
    hide Reach;
  }

  lemma ParentsReach(g: Flow<Node>, r: Node, parents: seq<Node>)
    requires Coherent(g) && forall a :: a in parents <==> Reach(Reversed(g), r, a)
    ensures forall a :: a in parents <==> Reach(g, a, r)
  {
    forall a
      ensures Reach(Reversed(g), r, a) <==> Reach(g, a, r)
    {
      ReverseReach(g, a, r);
    }
  }

  // ----- rewriting -----

  method PruneAssign(n: Loc, i: nat, a: AssignBlk, useful: set<Node>) returns (modified: bool, a': AssignBlk)
    ensures a' == PrunedAssign(n, i, a, useful) && (modified <==> a' != a)
  {
    modified, a' := false, a;
    var todo := a.Keys;
    while todo != {}
      invariant todo <= a.Keys
      invariant forall x :: x in a' <==> x in a && (x in todo || Node(n, i, x) in useful)
      invariant forall x :: x in a' ==> a'[x] == a[x]
      invariant modified <==> exists x :: x in a && x !in todo && Node(n, i, x) !in useful
      decreases todo
    {
      var x :| x in todo;
      todo := todo - {x};
      if Node(n, i, x) !in useful {
        a' := a' - {x};
        modified := true;
      }
    }
    assert modified ==> a' != a;
  }

  method PruneBlock(n: Loc, b: Block, useful: set<Node>) returns (modified: bool, b': Block)
    ensures b' == PrunedBlock(n, b, useful) && (modified <==> b' != b)
  {
    hide PrunedAssign;
    modified, b' := false, [];
    for i := 0 to |b|
      invariant |b'| == i && (forall k :: 0 <= k < i ==> b'[k] == PrunedAssign(n, k, b[k], useful))
      invariant modified <==> exists k :: 0 <= k < i && b'[k] != b[k]
    {
      var changed, a := PruneAssign(n, i, b[i], useful);
      ghost var was := b';
      b' := b' + [a];
      assert forall k :: 0 <= k < i ==> b'[k] == was[k];
      modified := modified || changed;
    }
  }

  method Prune(blocks: map<Loc, Block>, useful: set<Node>) returns (modified: bool, blocks': map<Loc, Block>)
    ensures blocks' == Pruned(blocks, useful) && (modified <==> blocks' != blocks)
  {
    hide PrunedBlock;
    modified, blocks' := false, blocks;
    var todo := blocks.Keys;
    while todo != {}
      invariant todo <= blocks.Keys && blocks'.Keys == blocks.Keys
      invariant forall n :: n in blocks ==> blocks'[n] == if n in todo then blocks[n] else PrunedBlock(n, blocks[n], useful)
      invariant modified <==> exists n :: n in blocks && blocks'[n] != blocks[n]
      decreases todo
    {
      var n :| n in todo;
      var changed, b := PruneBlock(n, blocks[n], useful);
      ghost var was := blocks';
      todo := todo - {n};
      blocks' := blocks'[n := b];
      assert forall k :: k in blocks && k != n ==> blocks'[k] == was[k];
      modified := modified || changed;
    }
  }
}
