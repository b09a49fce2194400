/**
 The reaching definitions fixpoint (miasm/analysis/data_flow.py, ReachingDefinitions): a
 definition is listed at a point iff some path carries it there.
 */
module ReachingDefs {
  import opened Paths
  import opened DiGraphs
  import opened Ir
  import opened DataFlow

  type Table = map<Site, Defs>

  function Get(table: Table, key: Site): (r: Defs) {
    if key in table then table[key] else map[]
  }

  // ----- the tables at block entries -----

  /** The definitions leaving block p, once p has an entry table. */
  ghost function EndOf(blocks: map<Loc, Block>, entry: map<Loc, Defs>, p: Loc): (r: Defs) {
    if p in blocks && p in entry then Flowed(entry[p], p, blocks[p], |blocks[p]|) else map[]
  }

  /** Some predecessor of n passes the definition on. */
  ghost predicate Passed(f: Flow<Loc>, blocks: map<Loc, Block>, entry: map<Loc, Defs>, n: Loc, x: Expr, s: Site) {
    exists p :: p in Prev(f, n) && s in At(EndOf(blocks, entry, p), x)
  }

  ghost predicate IsMerge(f: Flow<Loc>, blocks: map<Loc, Block>, entry: map<Loc, Defs>, n: Loc, d: Defs) {
    NonEmpty(d) && forall x, s :: s in At(d, x) <==> Passed(f, blocks, entry, n, x, s)
  }

  ghost predicate SoundAt(f: Flow<Loc>, blocks: map<Loc, Block>, n: Loc, d: Defs) {
    forall x, s :: s in At(d, x) ==> ToEntry(f, blocks, x, s.0, s.1, n)
  }

  ghost predicate PassedAt(f: Flow<Loc>, blocks: map<Loc, Block>, entry: map<Loc, Defs>, n: Loc, d: Defs) {
    forall x, s :: s in At(d, x) ==> Passed(f, blocks, entry, n, x, s)
  }

  /** What the iteration keeps: only carried definitions, all of them passed on by predecessors. */
  ghost predicate EntryInv(f: Flow<Loc>, blocks: map<Loc, Block>, entry: map<Loc, Defs>) {
    && entry.Keys <= blocks.Keys
    && (forall n :: n in entry ==> NonEmpty(entry[n]) && SoundAt(f, blocks, n, entry[n]))
    && (forall n :: n in entry ==> PassedAt(f, blocks, entry, n, entry[n]))
  }

  lemma EndCarried(f: Flow<Loc>, blocks: map<Loc, Block>, entry: map<Loc, Defs>, p: Loc, x: Expr, s: Site)
    requires EntryInv(f, blocks, entry) && s in At(EndOf(blocks, entry, p), x)
    ensures p in blocks && Carried(f, blocks, x, s.0, s.1, p, |blocks[p]|)
  {
    hide PassedAt, ToEntry, Carried;
    FlowedCarried(f, blocks, entry[p], x, s.0, s.1, p, |blocks[p]|);
    assert SoundAt(f, blocks, p, entry[p]);
  }

  lemma MergeSound(f: Flow<Loc>, blocks: map<Loc, Block>, entry: map<Loc, Defs>, n: Loc, d: Defs)
    requires Coherent(f) && EntryInv(f, blocks, entry) && IsMerge(f, blocks, entry, n, d) && n in blocks
    ensures SoundAt(f, blocks, n, d)
  {
    hide EntryInv, Carried, ToEntry, Coherent;
    forall x, s | s in At(d, x)
      ensures ToEntry(f, blocks, x, s.0, s.1, n)
    {
      assert Passed(f, blocks, entry, n, x, s);
      var p :| p in Prev(f, n) && s in At(EndOf(blocks, entry, p), x);
      EndCarried(f, blocks, entry, p, x, s);
      assert Edge(f, p, n) by { PrevEdge(f, p, n); }
      CarryExtended(f, blocks, x, s.0, s.1, p, n);
    }
  }

  lemma PrevEdge(f: Flow<Loc>, p: Loc, n: Loc)
    requires Coherent(f)
    ensures p in Prev(f, n) <==> Edge(f, p, n)
  {}

  lemma EndGrows(blocks: map<Loc, Block>, entry: map<Loc, Defs>, n: Loc, d: Defs, p: Loc)
    requires n in entry ==> Below(entry[n], d)
    ensures Below(EndOf(blocks, entry, p), EndOf(blocks, entry[n := d], p))
  {
    if p in blocks && p in entry {
      if p == n {
        FlowedBelow(entry[n], d, n, blocks[n], |blocks[n]|);
      }
    }
  }

  lemma PassedGrows(f: Flow<Loc>, blocks: map<Loc, Block>, entry: map<Loc, Defs>, n: Loc, d: Defs, k: Loc, x: Expr, s: Site)
    requires n in entry ==> Below(entry[n], d)
    requires Passed(f, blocks, entry, k, x, s)
    ensures Passed(f, blocks, entry[n := d], k, x, s)
  {
    hide EndOf;
    var p :| p in Prev(f, k) && s in At(EndOf(blocks, entry, p), x);
    EndGrows(blocks, entry, n, d, p);
    assert s in At(EndOf(blocks, entry[n := d], p), x);
  }

  /** The merge of the predecessors only adds to the table of a block. */
  lemma MergeGrows(f: Flow<Loc>, blocks: map<Loc, Block>, entry: map<Loc, Defs>, n: Loc, d: Defs)
    requires EntryInv(f, blocks, entry) && IsMerge(f, blocks, entry, n, d) && n in entry
    ensures Below(entry[n], d)
  {
    hide SoundAt, Passed;
    assert PassedAt(f, blocks, entry, n, entry[n]);
  }

  lemma EntryStep(f: Flow<Loc>, blocks: map<Loc, Block>, entry: map<Loc, Defs>, n: Loc, d: Defs)
    requires Coherent(f) && EntryInv(f, blocks, entry) && IsMerge(f, blocks, entry, n, d) && n in blocks
    ensures EntryInv(f, blocks, entry[n := d]) && (n in entry ==> Below(entry[n], d))
  {
    hide SoundAt, Passed, Below;
    MergeSound(f, blocks, entry, n, d);
    if n in entry { MergeGrows(f, blocks, entry, n, d); }
    var entry' := entry[n := d];
    forall k, x, s | k in entry' && s in At(entry'[k], x)
      ensures Passed(f, blocks, entry', k, x, s)
    {
      if k != n { assert PassedAt(f, blocks, entry, k, entry[k]); }
      PassedGrows(f, blocks, entry, n, d, k, x, s);
    }
  }

  // ----- the fixpoint -----

  ghost predicate Fixpoint(f: Flow<Loc>, blocks: map<Loc, Block>, entry: map<Loc, Defs>) {
    entry.Keys == blocks.Keys && forall n :: n in blocks ==> IsMerge(f, blocks, entry, n, entry[n])
  }

  /** At the fixpoint every carried definition is listed. */
  lemma {:induction false} FixpointComplete(
    f: Flow<Loc>, blocks: map<Loc, Block>, entry: map<Loc, Defs>, x: Expr, m: Loc, j: nat, n: Loc, w: seq<Loc>)
    requires Coherent(f) && Fixpoint(f, blocks, entry) && CarryPath(f, blocks, x, m, j, n, w)
    ensures n in entry && (m, j) in At(entry[n], x)
    decreases |w|
  {
    hide Coherent;
    var p := w[|w| - 2];
    assert Edge(f, p, n) && p in blocks && n in blocks;
    PrevEdge(f, p, n);
    if |w| > 2 {
      PrefixPath(f, w, |w| - 2);
      FixpointComplete(f, blocks, entry, x, m, j, p, w[..|w| - 1]);
      NotDefinedFlows(entry[p], p, blocks[p], |blocks[p]|, x);
    } else {
      LastFlows(entry[p], p, blocks[p], j, |blocks[p]|, x);
    }
    assert (m, j) in At(EndOf(blocks, entry, p), x);
    assert IsMerge(f, blocks, entry, n, entry[n]) && Passed(f, blocks, entry, n, x, (m, j));
  }

  lemma {:induction false} NotDefinedFlows(d: Defs, n: Loc, b: Block, i: nat, x: Expr)
    requires i <= |b| && NotDefined(b, 0, i, x)
    ensures At(Flowed(d, n, b, i), x) == At(d, x)
  {
    if i > 0 {
      NotDefinedFlows(d, n, b, i - 1, x);
      FlowedStep(d, n, b, i - 1, x);
    }
  }

  lemma {:induction false} LastFlows(d: Defs, n: Loc, b: Block, j: nat, i: nat, x: Expr)
    requires j < i <= |b| && x in b[j] && NotDefined(b, j + 1, i, x)
    ensures At(Flowed(d, n, b, i), x) == {(n, j)}
  {
    FlowedStep(d, n, b, i - 1, x);
    if j < i - 1 { LastFlows(d, n, b, j, i - 1, x); }
  }

  // ----- the dictionary -----

  /** The table holds the entry tables, and what follows from them inside each block. */
  ghost predicate Represents(blocks: map<Loc, Block>, table: Table, entry: map<Loc, Defs>) {
    && entry.Keys <= blocks.Keys
    && (forall key: Site :: key in table <==> key.0 in entry && key.1 <= |blocks[key.0]|)
    && (forall key: Site :: key in table ==> table[key] == Flowed(entry[key.0], key.0, blocks[key.0], key.1))
  }

  /** Every point lists exactly the definitions some path carries to it. */
  ghost predicate IsReaching(f: Flow<Loc>, blocks: map<Loc, Block>, table: Table) {
    && (forall n, i: nat :: n in blocks && i <= |blocks[n]| ==> (n, i) in table)
    && (forall n: Loc, i: nat, x, m: Loc, j: nat :: n in blocks && i <= |blocks[n]| ==>
          ((m, j) in At(Get(table, (n, i)), x) <==> Carried(f, blocks, x, m, j, n, i)))
  }

  lemma FixpointReaching(f: Flow<Loc>, blocks: map<Loc, Block>, table: Table, entry: map<Loc, Defs>)
    requires Coherent(f) && EntryInv(f, blocks, entry) && Fixpoint(f, blocks, entry) && Represents(blocks, table, entry)
    ensures IsReaching(f, blocks, table)
  {
    hide Carried, Coherent, IsMerge, Flowed;
    forall n: Loc, i: nat, x, m: Loc, j: nat | n in blocks && i <= |blocks[n]|
      ensures (m, j) in At(Get(table, (n, i)), x) <==> Carried(f, blocks, x, m, j, n, i)
    {
      assert (n, i) in table;
      FlowedCarried(f, blocks, entry[n], x, m, j, n, i);
      assert SoundAt(f, blocks, n, entry[n]);
      assert (m, j) in At(entry[n], x) ==> ToEntry(f, blocks, x, (m, j).0, (m, j).1, n);
      if ToEntry(f, blocks, x, m, j, n) {
        var w :| CarryPath(f, blocks, x, m, j, n, w);
        FixpointComplete(f, blocks, entry, x, m, j, n, w);
      }
    }
  }

  /** Adds the definitions of e to d, destination by destination. */
  method AddDefs(d0: Defs, e: Defs) returns (d: Defs)
    requires NonEmpty(d0) && NonEmpty(e)
    ensures NonEmpty(d) && forall x :: At(d, x) == At(d0, x) + At(e, x)
  {
    d := d0;
    var todo := e.Keys;
    while todo != {}
      invariant todo <= e.Keys && NonEmpty(d)
      invariant forall x :: At(d, x) == At(d0, x) + if x in todo then {} else At(e, x)
      decreases todo
    {
      var x :| x in todo;
      todo := todo - {x};
      d := d[x := At(d, x) + e[x]];
    }
  }

  ghost predicate TableNonEmpty(table: Table) {
    forall key :: key in table ==> NonEmpty(table[key])
  }

  /** Some of the predecessors listed passes the definition on, according to the table. */
  ghost predicate PassedBy(blocks: map<Loc, Block>, table: Table, preds: seq<Loc>, x: Expr, s: Site) {
    exists k :: 0 <= k < |preds| && EndLists(blocks, table, preds[k], x, s)
  }

  ghost predicate EndLists(blocks: map<Loc, Block>, table: Table, p: Loc, x: Expr, s: Site) {
    p in blocks && s in At(Get(table, (p, |blocks[p]|)), x)
  }

  method MergePredecessors(f: Flow<Loc>, blocks: map<Loc, Block>, table: Table, n: Loc) returns (d: Defs)
    requires TableNonEmpty(table)
    ensures NonEmpty(d) && forall x, s :: s in At(d, x) <==> PassedBy(blocks, table, Prev(f, n), x, s)
  {
    hide PassedBy;
    d := map[];
    var preds := Prev(f, n);
    PassedByNone(blocks, table);
    for i := 0 to |preds|
      invariant NonEmpty(d) && forall x, s :: s in At(d, x) <==> PassedBy(blocks, table, preds[..i], x, s)
    {
      PassedByStep(blocks, table, preds, i);
      if preds[i] in blocks {
        d := AddDefs(d, Get(table, (preds[i], |blocks[preds[i]]|)));
      }
    }
    assert preds[..|preds|] == preds;
  }

  lemma PassedByNone(blocks: map<Loc, Block>, table: Table)
    ensures forall x, s :: !PassedBy(blocks, table, [], x, s)
  {}

  lemma PassedByStep(blocks: map<Loc, Block>, table: Table, preds: seq<Loc>, i: nat)
    requires i < |preds|
    ensures forall x, s :: PassedBy(blocks, table, preds[..i + 1], x, s) <==>
      PassedBy(blocks, table, preds[..i], x, s) || EndLists(blocks, table, preds[i], x, s)
  {
    hide EndLists;
    var now, next := preds[..i], preds[..i + 1];
    forall x, s
      ensures PassedBy(blocks, table, next, x, s) <==> PassedBy(blocks, table, now, x, s) || EndLists(blocks, table, preds[i], x, s)
    {
      if PassedBy(blocks, table, now, x, s) {
        var k :| 0 <= k < |now| && EndLists(blocks, table, now[k], x, s);
        assert next[k] == now[k];
      }
      if EndLists(blocks, table, preds[i], x, s) { assert next[i] == preds[i]; }
      if PassedBy(blocks, table, next, x, s) {
        var k :| 0 <= k < |next| && EndLists(blocks, table, next[k], x, s);
        assert k < i ==> now[k] == next[k];
      }
    }
  }

  /** Merging with the table is merging the ends of the predecessors. */
  lemma MergeOfTable(f: Flow<Loc>, blocks: map<Loc, Block>, table: Table, entry: map<Loc, Defs>, n: Loc, d: Defs)
    requires Represents(blocks, table, entry) && NonEmpty(d)
    requires forall x, s :: s in At(d, x) <==> PassedBy(blocks, table, Prev(f, n), x, s)
    ensures IsMerge(f, blocks, entry, n, d)
  {
    hide Flowed;
    forall p | p in blocks
      ensures Get(table, (p, |blocks[p]|)) == EndOf(blocks, entry, p)
    {
      assert (p, |blocks[p]|) in table <==> p in entry;
    }
    forall x, s
      ensures PassedBy(blocks, table, Prev(f, n), x, s) <==> Passed(f, blocks, entry, n, x, s)
    {
      var preds := Prev(f, n);
      if PassedBy(blocks, table, preds, x, s) {
        var k :| 0 <= k < |preds| && EndLists(blocks, table, preds[k], x, s);
        assert preds[k] in preds && s in At(EndOf(blocks, entry, preds[k]), x);
      }
      if Passed(f, blocks, entry, n, x, s) {
        var p :| p in Prev(f, n) && s in At(EndOf(blocks, entry, p), x);
        var k :| 0 <= k < |preds| && preds[k] == p;
        assert EndLists(blocks, table, preds[k], x, s);
      }
    }
  }

  // ----- termination -----

  /** Every listed definition: a finite set that only grows. */
  ghost function Listed(entry: map<Loc, Defs>): (r: set<(Loc, Expr, Site)>) {
    set n, x, s | n in entry && x in entry[n] && s in entry[n][x] :: (n, x, s)
  }

  ghost function AllSites(blocks: map<Loc, Block>): (r: set<Site>) {
    set m, j | m in blocks && 0 <= j < |blocks[m]| :: (m, j)
  }

  ghost function AllDestinations(blocks: map<Loc, Block>): (r: set<Expr>) {
    set m, j, x | m in blocks && 0 <= j < |blocks[m]| && x in blocks[m][j] :: x
  }

  ghost function AllListed(blocks: map<Loc, Block>): (r: set<(Loc, Expr, Site)>) {
    set n, x, s | n in blocks && x in AllDestinations(blocks) && s in AllSites(blocks) :: (n, x, s)
  }

  lemma ListedBounded(f: Flow<Loc>, blocks: map<Loc, Block>, entry: map<Loc, Defs>)
    requires EntryInv(f, blocks, entry)
    ensures Listed(entry) <= AllListed(blocks)
  {
    hide PassedAt;
    forall n, x, s | n in entry && x in entry[n] && s in entry[n][x]
      ensures (n, x, s) in AllListed(blocks)
    {
      assert SoundAt(f, blocks, n, entry[n]) && s in At(entry[n], x);
      var w :| CarryPath(f, blocks, x, s.0, s.1, n, w);
      assert DefinesAt(blocks, s.0, s.1, x);
    }
  }

  lemma ListedGrows(entry: map<Loc, Defs>, n: Loc, d: Defs)
    requires n in entry ==> Below(entry[n], d)
    ensures Listed(entry) <= Listed(entry[n := d])
    ensures n in entry && NonEmpty(d) && NonEmpty(entry[n]) && d != entry[n] ==> Listed(entry) != Listed(entry[n := d])
  {
    var entry' := entry[n := d];
    forall k, x, s | k in entry && x in entry[k] && s in entry[k][x]
      ensures (k, x, s) in Listed(entry')
    {
      if k == n { assert s in At(entry[n], x) && s in At(d, x); }
      assert x in entry'[k] && s in entry'[k][x];
    }
    if n in entry && NonEmpty(d) && NonEmpty(entry[n]) && Listed(entry) == Listed(entry') {
      forall x, s | s in At(d, x)
        ensures s in At(entry[n], x)
      {
        assert (n, x, s) in Listed(entry');
      }
      SameDefs(entry[n], d);
    }
  }

  // ----- the class -----

  /** The table with the row of block n rewritten from its entry. */
  ghost predicate RowWritten(blocks: map<Loc, Block>, table: Table, table': Table, n: Loc, d: Defs, i: nat)
    requires n in blocks
  {
    && (forall key: Site :: key !in table || key.0 != n ==> (key in table' <==> key in table || (key.0 == n && key.1 <= i)))
    && (forall key: Site :: key in table ==> key in table')
    && (forall key: Site :: key in table && (key.0 != n || key.1 > i) ==> table'[key] == table[key])
    && (forall k: nat :: k <= i && k <= |blocks[n]| ==> (n, k) in table' && table'[(n, k)] == Flowed(d, n, blocks[n], k))
  }

  lemma RowRepresents(blocks: map<Loc, Block>, table: Table, table': Table, entry: map<Loc, Defs>, n: Loc, d: Defs)
    requires n in blocks && Represents(blocks, table, entry) && RowWritten(blocks, table, table', n, d, |blocks[n]|)
    ensures Represents(blocks, table', entry[n := d])
  {
    hide Flowed;
    forall key: Site | key in table'
      ensures table'[key] == Flowed(entry[n := d][key.0], key.0, blocks[key.0], key.1)
    {
      if key.0 == n { assert key == (n, key.1); }
    }
  }

  lemma RowNext(blocks: map<Loc, Block>, table: Table, table': Table, n: Loc, d: Defs, i: nat, e: Defs)
    requires n in blocks && i < |blocks[n]| && RowWritten(blocks, table, table', n, d, i)
    requires e == Flowed(d, n, blocks[n], i + 1)
    ensures RowWritten(blocks, table, table'[(n, i + 1) := e], n, d, i + 1)
  {
    hide Flowed;
  }

  class ReachingDefinitions {
    const graph: DiGraph<Loc>
    const blocks: map<Loc, Block>
    var table: Table

    constructor (graph: DiGraph<Loc>, blocks: map<Loc, Block>)
      requires graph.Valid()
      ensures this.graph == graph && this.blocks == blocks && IsReaching(graph.View(), blocks, table)
    {
      this.graph, this.blocks, table := graph, blocks, map[];
      new;
      Compute();
    }

    function GetDefinitions(loc: Loc, index: nat): (r: Defs)
      reads this
    {
      Get(table, (loc, index))
    }

    /** Stores the effect of one assignment block. */
    method ProcessAssignblock(n: Loc, i: nat) returns (modified: bool)
      requires n in blocks && i < |blocks[n]|
      modifies this`table
      ensures table == old(table)[(n, i + 1) := Transfer(Get(old(table), (n, i)), n, i, blocks[n][i])]
      ensures modified <==> table != old(table)
    {
      var defs := Transfer(GetDefinitions(n, i), n, i, blocks[n][i]);
      modified := (n, i + 1) !in table || table[(n, i + 1)] != defs;
      if modified {
        table := table[(n, i + 1) := defs];
      }
    }

    /** Fetches the definitions of the predecessors and, when they changed, propagates them. */
    method ProcessBlock(n: Loc, ghost entry: map<Loc, Defs>) returns (modified: bool, ghost d: Defs)
      requires graph.Valid() && n in blocks
      requires Represents(blocks, table, entry) && EntryInv(graph.View(), blocks, entry)
      modifies this`table
      ensures IsMerge(graph.View(), blocks, entry, n, d)
      ensures modified <==> n !in entry || entry[n] != d
      ensures Represents(blocks, table, entry[n := d])
      ensures !modified ==> entry[n := d] == entry
    {
      hide Represents, EntryInv, IsMerge, Flowed, RowWritten, PassedBy;
      RepresentsNonEmpty(graph.View(), blocks, table, entry);
      var merged := MergePredecessors(graph.View(), blocks, table, n);
      d := merged;
      MergeOfTable(graph.View(), blocks, table, entry, n, d);
      EntryRow(blocks, table, entry, n);
      modified := (n, 0) !in table || table[(n, 0)] != merged;
      if !modified {
        return;
      }
      ghost var before := table;
      table := table[(n, 0) := merged];
      RowFirst(blocks, before, n, d);
      for i := 0 to |blocks[n]|
        invariant RowWritten(blocks, before, table, n, d, i) && modified
      {
        RowAt(blocks, before, table, n, d, i);
        RowNext(blocks, before, table, n, d, i, Flowed(d, n, blocks[n], i + 1));
        FlowedNext(d, n, blocks[n], i);
        var _ := ProcessAssignblock(n, i);
      }
      RowRepresents(blocks, before, table, entry, n, d);
    }

    /** Runs to the fixpoint. */
    method Compute()
      requires graph.Valid() && table == map[]
      modifies this`table
      ensures IsReaching(graph.View(), blocks, table)
    {
      hide Represents, EntryInv, IsMerge, IsReaching, Listed, AllListed, Fixpoint;
      graph.ViewEdges();
      ghost var entry: map<Loc, Defs> := map[];
      ghost var f := graph.View();
      EmptyTables(f, blocks);
      var modified := true;
      while modified
        invariant graph.Valid() && graph.View() == f && Represents(blocks, table, entry) && EntryInv(f, blocks, entry)
        invariant !modified ==> Fixpoint(f, blocks, entry)
        decreases blocks.Keys - entry.Keys, AllListed(blocks) - Listed(entry), modified
      {
        modified, entry := Pass(entry);
      }
      FixpointReaching(f, blocks, table, entry);
    }

    /** One pass over all blocks: either nothing changed and the tables are the fixpoint, or they grew. */
    method Pass(ghost entry0: map<Loc, Defs>) returns (modified: bool, ghost entry: map<Loc, Defs>)
      requires graph.Valid() && Represents(blocks, table, entry0) && EntryInv(graph.View(), blocks, entry0)
      modifies this`table
      ensures Represents(blocks, table, entry) && EntryInv(graph.View(), blocks, entry)
      ensures !modified ==> entry == entry0 && Fixpoint(graph.View(), blocks, entry)
      ensures entry0.Keys <= entry.Keys <= blocks.Keys && Listed(entry0) <= Listed(entry) <= AllListed(blocks)
      ensures modified ==> entry0.Keys != entry.Keys || Listed(entry0) != Listed(entry)
    {
      hide Represents, EntryInv, IsMerge, Listed, AllListed, Below;
      graph.ViewEdges();
      ghost var f := graph.View();
      modified, entry := false, entry0;
      var todo := blocks.Keys;
      EntryKeys(f, blocks, entry0);
      while todo != {}
        invariant todo <= blocks.Keys && graph.View() == f && graph.Valid()
        invariant Represents(blocks, table, entry) && EntryInv(f, blocks, entry)
        invariant entry0.Keys <= entry.Keys && Listed(entry0) <= Listed(entry)
        invariant !modified ==> entry == entry0 && forall n :: n in blocks && n !in todo ==> n in entry && IsMerge(f, blocks, entry, n, entry[n])
        invariant modified ==> entry0.Keys != entry.Keys || Listed(entry0) != Listed(entry)
        decreases todo
      {
        var n :| n in todo;
        todo := todo - {n};
        var changed;
        ghost var d;
        changed, d := ProcessBlock(n, entry);
        EntryStep(f, blocks, entry, n, d);
        EntryGrows(f, blocks, entry, n, d);
        modified := modified || changed;
        entry := entry[n := d];
      }
      EntryKeys(f, blocks, entry);
      ListedBounded(f, blocks, entry);
    }
  }

  lemma EntryKeys(f: Flow<Loc>, blocks: map<Loc, Block>, entry: map<Loc, Defs>)
    requires EntryInv(f, blocks, entry)
    ensures entry.Keys <= blocks.Keys
  {}

  /** A changed table makes the listed definitions, or the blocks seen, more numerous. */
  lemma EntryGrows(f: Flow<Loc>, blocks: map<Loc, Block>, entry: map<Loc, Defs>, n: Loc, d: Defs)
    requires EntryInv(f, blocks, entry) && IsMerge(f, blocks, entry, n, d) && (n in entry ==> Below(entry[n], d))
    ensures Listed(entry) <= Listed(entry[n := d])
    ensures n in entry && entry[n] != d ==> Listed(entry) != Listed(entry[n := d])
  {
    hide Listed, Below, SoundAt, PassedAt, Passed;
    ListedGrows(entry, n, d);
  }

  lemma EmptyTables(f: Flow<Loc>, blocks: map<Loc, Block>)
    ensures Represents(blocks, map[], map[]) && EntryInv(f, blocks, map[])
  {}

  lemma RepresentsNonEmpty(f: Flow<Loc>, blocks: map<Loc, Block>, table: Table, entry: map<Loc, Defs>)
    requires Represents(blocks, table, entry) && EntryInv(f, blocks, entry)
    ensures TableNonEmpty(table)
  {
    hide NonEmpty, SoundAt, PassedAt, Flowed;
    forall key | key in table
      ensures NonEmpty(table[key])
    {
      FlowedNonEmpty(entry[key.0], key.0, blocks[key.0], key.1);
    }
  }

  lemma EntryRow(blocks: map<Loc, Block>, table: Table, entry: map<Loc, Defs>, n: Loc)
    requires Represents(blocks, table, entry)
    ensures (n, 0) in table <==> n in entry
    ensures n in entry ==> table[(n, 0)] == entry[n]
    ensures n in entry ==> entry[n := entry[n]] == entry
  {
    if (n, 0) in table { assert table[(n, 0)] == Flowed(entry[n], n, blocks[n], 0); }
  }

  lemma RowFirst(blocks: map<Loc, Block>, table: Table, n: Loc, d: Defs)
    requires n in blocks
    ensures RowWritten(blocks, table, table[(n, 0) := d], n, d, 0)
  {
  }

  lemma RowAt(blocks: map<Loc, Block>, table: Table, table': Table, n: Loc, d: Defs, i: nat)
    requires n in blocks && i <= |blocks[n]| && RowWritten(blocks, table, table', n, d, i)
    ensures Get(table', (n, i)) == Flowed(d, n, blocks[n], i)
  {}

  lemma FlowedNext(d: Defs, n: Loc, b: Block, i: nat)
    requires i < |b|
    ensures Flowed(d, n, b, i + 1) == Transfer(Flowed(d, n, b, i), n, i, b[i])
  {}
}
