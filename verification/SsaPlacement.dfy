/**
 Where phis go (miasm/analysis/ssa.py, _init_variable_defs and _place_phi): on the iterated
 dominance frontier of the blocks that assign a variable, and nowhere else.
 */
module SsaPlacement {
  import opened Paths
  import opened Dominators
  import opened Ir
  import opened SsaForm
  import opened SsaWalk

  // ----- the blocks assigning each variable -----

  function Sites(defs: map<Var, set<Loc>>, v: Var): (r: set<Loc>) {
    if v in defs then defs[v] else {}
  }

  function AddSite(defs: map<Var, set<Loc>>, v: Var, n: Loc): (r: map<Var, set<Loc>>) {
    defs[v := Sites(defs, v) + {n}]
  }

  /** Registers block n for every variable of vs. */
  method AddSites(defs0: map<Var, set<Loc>>, vs: set<Var>, n: Loc) returns (defs: map<Var, set<Loc>>)
    ensures forall v, x :: x in Sites(defs, v) <==> x in Sites(defs0, v) || (x == n && v in vs)
  {
    defs := defs0;
    var todo := vs;
    while todo != {}
      invariant todo <= vs
      invariant forall v, x :: x in Sites(defs, v) <==> x in Sites(defs0, v) || (x == n && v in vs - todo)
      decreases todo
    {
      var v :| v in todo;
      ghost var before, left := defs, todo;
      todo := todo - {v};
      defs := AddSite(defs, v, n);
      forall w, x
        ensures x in Sites(defs, w) <==> x in Sites(defs0, w) || (x == n && w in vs - todo)
      {
        assert x in Sites(before, w) <==> x in Sites(defs0, w) || (x == n && w in vs - left);
      }
    }
  }

  ghost predicate DefinedBefore(irdst: Var, b: Block, i: nat, v: Var) {
    exists k :: 0 <= k < i && k < |b| && v in Defined(irdst, b[k])
  }

  lemma DefinedBeforeStep(irdst: Var, b: Block, i: nat, v: Var)
    requires i < |b|
    ensures DefinedBefore(irdst, b, i + 1, v) <==> DefinedBefore(irdst, b, i, v) || v in Defined(irdst, b[i])
    ensures DefinedBefore(irdst, b, |b|, v) <==> DefinedInBlock(irdst, b, v)
  {}

  method AddBlockSites(irdst: Var, defs0: map<Var, set<Loc>>, n: Loc, b: Block) returns (defs: map<Var, set<Loc>>)
    ensures forall v, x :: x in Sites(defs, v) <==> x in Sites(defs0, v) || (x == n && DefinedInBlock(irdst, b, v))
  {
    hide DefinedBefore, DefinedInBlock;
    defs := defs0;
    forall v
      ensures !DefinedBefore(irdst, b, 0, v)
      ensures DefinedBefore(irdst, b, |b|, v) <==> DefinedInBlock(irdst, b, v)
    {
      DefinedEnds(irdst, b, v);
    }
    for i := 0 to |b|
      invariant forall v, x :: x in Sites(defs, v) <==> x in Sites(defs0, v) || (x == n && DefinedBefore(irdst, b, i, v))
    {
      forall v
        ensures DefinedBefore(irdst, b, i + 1, v) <==> DefinedBefore(irdst, b, i, v) || v in Defined(irdst, b[i])
      {
        DefinedBeforeStep(irdst, b, i, v);
      }
      defs := AddSites(defs, Defined(irdst, b[i]), n);
    }
  }

  lemma DefinedEnds(irdst: Var, b: Block, v: Var)
    ensures !DefinedBefore(irdst, b, 0, v)
    ensures DefinedBefore(irdst, b, |b|, v) <==> DefinedInBlock(irdst, b, v)
  {}

  /** Block x, met in the walk, assigns v. */
  ghost predicate SiteIn(irdst: Var, blocks: map<Loc, Block>, order: seq<Loc>, v: Var, x: Loc) {
    x in order && x in blocks && DefinedInBlock(irdst, blocks[x], v)
  }

  lemma SiteInStep(irdst: Var, blocks: map<Loc, Block>, order: seq<Loc>, i: nat)
    requires i < |order|
    ensures order[..i + 1] == order[..i] + [order[i]]
    ensures forall v, x :: SiteIn(irdst, blocks, order[..i + 1], v, x) <==>
      SiteIn(irdst, blocks, order[..i], v, x) || (x == order[i] && x in blocks && DefinedInBlock(irdst, blocks[x], v))
  {
    hide DefinedInBlock;
    assert order[..i + 1] == order[..i] + [order[i]];
  }

  /** The blocks assigning each variable; refused when some block cannot be reached. */
  method VariableDefs(f: Flow<Loc>, head: Loc, irdst: Var, blocks: map<Loc, Block>)
      returns (ok: bool, defs: map<Var, set<Loc>>)
    ensures ok <==> forall n :: n in blocks ==> Reach(f, head, n)
    ensures forall v, x :: x in Sites(defs, v) <==>
      x in blocks && Reach(f, head, x) && DefinedInBlock(irdst, blocks[x], v)
  {
    hide DefinedInBlock, Reach, NoDuplicates, DiscoveryOrder, InTurn;
    var order := WalkFirst(f, head, true);
    var visited: set<Loc> := {};
    defs := map[];
    for i := 0 to |order|
      invariant forall x :: x in visited <==> x in order[..i] && x in blocks
      invariant forall v, x :: x in Sites(defs, v) <==> SiteIn(irdst, blocks, order[..i], v, x)
    {
      SiteInStep(irdst, blocks, order, i);
      if order[i] in blocks {
        visited := visited + {order[i]};
        defs := AddBlockSites(irdst, defs, order[i], blocks[order[i]]);
      }
    }
    assert order[..|order|] == order;
    ok := visited == blocks.Keys;
  }

  // ----- the phis of one variable -----

  /** s holds the frontier of the sites and of its own elements. */
  ghost predicate FrontierClosed(frontier: map<Loc, set<Loc>>, sites: set<Loc>, s: set<Loc>) {
    forall x :: x in sites || x in s ==> Front(frontier, x) <= s
  }

  /** s is the iterated frontier of the sites: the least closed set. */
  ghost predicate IteratedFrontier(frontier: map<Loc, set<Loc>>, sites: set<Loc>, s: set<Loc>) {
    FrontierClosed(frontier, sites, s) && BelowClosed(frontier, sites, s)
  }

  ghost predicate BelowClosed(frontier: map<Loc, set<Loc>>, sites: set<Loc>, s: set<Loc>) {
    forall s' :: FrontierClosed(frontier, sites, s') ==> s <= s'
  }

  /** The phi of v is present, still empty, at the places of s. */
  ghost function WithPhi(phinodes: PhiNodes, v: Var, s: set<Loc>): (r: PhiNodes) {
    map n | n in phinodes.Keys + s ::
      if n in s then Row(phinodes, n)[Plain(v) := {}] else Row(phinodes, n)
  }

  lemma WithPhiNothing(phinodes: PhiNodes, v: Var)
    ensures WithPhi(phinodes, v, {}) == phinodes
  {}

  lemma WithPhiStep(phinodes: PhiNodes, v: Var, s: set<Loc>, node: Loc)
    ensures WithPhi(phinodes, v, s + {node}) ==
      WithPhi(phinodes, v, s)[node := Row(WithPhi(phinodes, v, s), node)[Plain(v) := {}]]
  {
    var p := WithPhi(phinodes, v, s);
    assert node in s ==> p[node] == Row(phinodes, node)[Plain(v) := {}];
    assert Row(p, node)[Plain(v) := {}] == Row(phinodes, node)[Plain(v) := {}];
  }

  /** The frontier of every processed place has a phi. */
  ghost predicate PlaceSettled(
    frontier: map<Loc, set<Loc>>, sites: set<Loc>, done: set<Loc>, todo: set<Loc>, intodo: set<Loc>)
  {
    && intodo == sites + done && todo <= intodo
    && (forall x :: x in intodo && x !in todo ==> Front(frontier, x) <= done)
    && BelowClosed(frontier, sites, done)
  }

  /** What the worklist keeps while place busy is processed: all but the places left have a phi. */
  ghost predicate PlaceState(
    frontier: map<Loc, set<Loc>>, sites: set<Loc>, done: set<Loc>, todo: set<Loc>, intodo: set<Loc>, busy: Loc, left: set<Loc>)
  {
    && intodo == sites + done && todo <= intodo
    && (forall x :: x in intodo && x !in todo ==> Front(frontier, x) <= done + if x == busy then left else {})
    && BelowClosed(frontier, sites, done)
  }

  lemma PlaceOne(
    frontier: map<Loc, set<Loc>>, sites: set<Loc>, done: set<Loc>, todo: set<Loc>, intodo: set<Loc>,
    busy: Loc, left: set<Loc>, node: Loc)
    requires PlaceState(frontier, sites, done, todo, intodo, busy, left) && busy in intodo
    requires node in left && node in Front(frontier, busy)
    ensures node in done ==> PlaceState(frontier, sites, done, todo, intodo, busy, left - {node})
    ensures node !in done ==>
      var todo' := if node in intodo then todo else todo + {node};
      PlaceState(frontier, sites, done + {node}, todo', intodo + {node}, busy, left - {node})
  {
    forall s' | FrontierClosed(frontier, sites, s')
      ensures done + {node} <= s'
    {
      assert done <= s';
      assert Front(frontier, busy) <= s';
    }
  }

  ghost function FrontierUniverse(frontier: map<Loc, set<Loc>>, sites: set<Loc>): (u: set<Loc>) {
    sites + set x, y | x in frontier && y in frontier[x] :: y
  }

  lemma FrontInUniverse(frontier: map<Loc, set<Loc>>, sites: set<Loc>, x: Loc, y: Loc)
    requires y in Front(frontier, x)
    ensures y in FrontierUniverse(frontier, sites)
  {}

  /** Places the phis of v from the blocks that assign it. */
  method PlaceVariable(frontier: map<Loc, set<Loc>>, v: Var, sites: set<Loc>, phinodes0: PhiNodes)
      returns (phinodes: PhiNodes, done: set<Loc>)
    ensures IteratedFrontier(frontier, sites, done) && phinodes == WithPhi(phinodes0, v, done)
  {
    hide WithPhi, FrontierUniverse, BelowClosed, PlaceState;
    phinodes, done := phinodes0, {};
    var todo, intodo := sites, sites;
    ghost var u := FrontierUniverse(frontier, sites);
    PlaceStart(frontier, sites);
    WithPhiNothing(phinodes0, v);
    while todo != {}
      invariant PlaceSettled(frontier, sites, done, todo, intodo)
      invariant intodo <= u && phinodes == WithPhi(phinodes0, v, done)
      decreases u - (intodo - todo)
    {
      var loc :| loc in todo;
      ghost var before := intodo - todo;
      PlaceBusy(frontier, sites, done, todo, intodo, loc);
      todo := todo - {loc};
      var left := Front(frontier, loc);
      while left != {}
        invariant left <= Front(frontier, loc) && loc in intodo && loc !in todo && loc !in before
        invariant before <= intodo - todo
        invariant PlaceState(frontier, sites, done, todo, intodo, loc, left)
        invariant intodo <= u && phinodes == WithPhi(phinodes0, v, done)
        decreases left
      {
        var node :| node in left;
        PlaceOne(frontier, sites, done, todo, intodo, loc, left, node);
        FrontInUniverse(frontier, sites, loc, node);
        left := left - {node};
        if node in done {
          continue;
        }
        WithPhiStep(phinodes0, v, done, node);
        phinodes := phinodes[node := Row(phinodes, node)[Plain(v) := {}]];
        done := done + {node};
        if node !in intodo {
          todo := todo + {node};
        }
        intodo := intodo + {node};
      }
      PlaceRest(frontier, sites, done, todo, intodo, loc);
      assert loc in u - before;
    }
  }

  lemma PlaceStart(frontier: map<Loc, set<Loc>>, sites: set<Loc>)
    ensures PlaceSettled(frontier, sites, {}, sites, sites)
    ensures sites <= FrontierUniverse(frontier, sites)
  {}

  lemma PlaceBusy(
    frontier: map<Loc, set<Loc>>, sites: set<Loc>, done: set<Loc>, todo: set<Loc>, intodo: set<Loc>, loc: Loc)
    requires PlaceSettled(frontier, sites, done, todo, intodo)
    ensures PlaceState(frontier, sites, done, todo - {loc}, intodo, loc, Front(frontier, loc))
  {}

  lemma PlaceRest(
    frontier: map<Loc, set<Loc>>, sites: set<Loc>, done: set<Loc>, todo: set<Loc>, intodo: set<Loc>, loc: Loc)
    requires PlaceState(frontier, sites, done, todo, intodo, loc, {})
    ensures PlaceSettled(frontier, sites, done, todo, intodo)
  {}

  // ----- the phis of all variables -----

  /** Where the rows of phis stand. */
  ghost function PhiOf(phinodes: PhiNodes): (r: map<Loc, set<Var>>) {
    map n | n in phinodes :: RowVars(phinodes[n])
  }

  ghost predicate EmptyPhis(row: map<Ident, set<Ident>>) {
    row != map[] && forall id :: id in row ==> id.Plain? && row[id] == {}
  }

  /** The rows hold an empty phi for v at n exactly when n is a place of v. */
  ghost predicate PlacedRows(phinodes: PhiNodes, places: map<Var, set<Loc>>) {
    && (forall n :: n in phinodes ==> EmptyPhis(phinodes[n]))
    && (forall n, v :: Plain(v) in Row(phinodes, n) <==> n in Sites(places, v))
  }

  lemma PlacedStep(phinodes: PhiNodes, places: map<Var, set<Loc>>, v: Var, s: set<Loc>)
    requires PlacedRows(phinodes, places) && v !in places
    ensures PlacedRows(WithPhi(phinodes, v, s), places[v := s])
  {
    var p', q' := WithPhi(phinodes, v, s), places[v := s];
    forall n, w
      ensures Plain(w) in Row(p', n) <==> n in Sites(q', w)
    {
      assert Plain(w) in Row(phinodes, n) <==> n in Sites(places, w);
    }
  }

  /** Each variable has its iterated frontier. */
  ghost predicate Iterated(frontier: map<Loc, set<Loc>>, defs: map<Var, set<Loc>>, places: map<Var, set<Loc>>) {
    forall v :: v in places ==> v in defs && IteratedFrontier(frontier, defs[v], places[v])
  }

  method PlaceAll(frontier: map<Loc, set<Loc>>, defs: map<Var, set<Loc>>)
      returns (phinodes: PhiNodes, ghost places: map<Var, set<Loc>>)
    ensures PlacedRows(phinodes, places) && places.Keys == defs.Keys && Iterated(frontier, defs, places)
  {
    hide PlacedRows, WithPhi, IteratedFrontier;
    phinodes, places := map[], map[];
    PlacedNothing();
    var todo := defs.Keys;
    while todo != {}
      invariant todo <= defs.Keys && places.Keys == defs.Keys - todo
      invariant PlacedRows(phinodes, places) && Iterated(frontier, defs, places)
      decreases todo
    {
      var v :| v in todo;
      ghost var before := phinodes;
      var done;
      phinodes, done := PlaceVariable(frontier, v, defs[v], phinodes);
      PlacedStep(before, places, v, done);
      places := places[v := done];
      todo := todo - {v};
    }
  }

  lemma PlacedNothing()
    ensures PlacedRows(map[], map[])
  {}

  /** Phis are exactly the rows. */
  lemma PhisOfRows(phinodes: PhiNodes, places: map<Var, set<Loc>>, n: Loc, v: Var)
    requires PlacedRows(phinodes, places)
    ensures v in Phis(PhiOf(phinodes), n) <==> n in Sites(places, v)
  {
    hide Sites;
    assert Plain(v) in Row(phinodes, n) <==> n in Sites(places, v);
    if n in phinodes {
      var row := phinodes[n];
      assert Plain(v) in row ==> Plain(v).v in RowVars(row);
      if v in RowVars(row) {
        var id :| id in row && id.v == v;
        assert EmptyPhis(row) && id == Plain(v);
      }
    }
  }

  /** The tables of definitions of a graph. */
  ghost predicate DefinedSites(c: Cfg, irdst: Var, defs: map<Var, set<Loc>>) {
    forall v, x :: x in Sites(defs, v) <==> x in c.blocks && DefinedInBlock(irdst, c.blocks[x], v)
  }

  lemma NothingInFrontHead(c: Cfg, x: Loc, y: Loc)
    requires CompleteCfg(c) && InFrontier(c.flow, c.head, x, y)
    ensures y != c.head
  {
    var p :| Edge(c.flow, p, y) && FrontierVia(c.flow, c.head, x, p, y);
    assert p in Prev(c.flow, y);
  }

  /** The phis placed are closed under the dominance frontier. */
  lemma PlacedClosed(
    c: Cfg, irdst: Var, frontier: map<Loc, set<Loc>>, defs: map<Var, set<Loc>>, phinodes: PhiNodes, places: map<Var, set<Loc>>)
    requires CompleteCfg(c) && FrontierTable(c.flow, c.head, frontier) && DefinedSites(c, irdst, defs)
    requires PlacedRows(phinodes, places) && places.Keys == defs.Keys && Iterated(frontier, defs, places)
    ensures PhiClosed(c, irdst, PhiOf(phinodes))
  {
    hide CompleteCfg, PlacedRows, DefinedInBlock, InFrontier, PhiOf;
    var phi := PhiOf(phinodes);
    forall x, y, v | x in c.blocks && InFrontier(c.flow, c.head, x, y) && WritesVar(c, irdst, phi, x, v)
      ensures v in Phis(phi, y)
    {
      NothingInFrontHead(c, x, y);
      PhisOfRows(phinodes, places, x, v);
      PhisOfRows(phinodes, places, y, v);
      assert y in Front(frontier, x);
      assert x in Sites(defs, v) || x in Sites(places, v);
      assert IteratedFrontier(frontier, defs[v], places[v]);
      assert Front(frontier, x) <= places[v];
    }
  }

  /** Any set of phis closed under the frontier holds the phis placed: the form is minimal. */
  lemma PlacedMinimal(
    c: Cfg, irdst: Var, frontier: map<Loc, set<Loc>>, defs: map<Var, set<Loc>>, phinodes: PhiNodes, places: map<Var, set<Loc>>,
    phi': map<Loc, set<Var>>, n: Loc, v: Var)
    requires CompleteCfg(c) && FrontierTable(c.flow, c.head, frontier) && DefinedSites(c, irdst, defs)
    requires PlacedRows(phinodes, places) && places.Keys == defs.Keys && Iterated(frontier, defs, places)
    requires PhiClosed(c, irdst, phi') && v in Phis(PhiOf(phinodes), n)
    ensures v in Phis(phi', n)
  {
    hide PlacedRows, PhiOf, DefinedInBlock, CompleteCfg, InFrontier, FrontierClosed, PhiClosed, FrontierTable, DefinedSites;
    PhisOfRows(phinodes, places, n, v);
    var s' := set y | y in phi' && v in phi'[y];
    ClosedPlaces(c, irdst, frontier, defs, phi', v, s');
    assert IteratedFrontier(frontier, defs[v], places[v]);
  }

  /** The places of v among phis closed under the frontier. */
  lemma ClosedPlaces(
    c: Cfg, irdst: Var, frontier: map<Loc, set<Loc>>, defs: map<Var, set<Loc>>, phi': map<Loc, set<Var>>, v: Var, s': set<Loc>)
    requires CompleteCfg(c) && FrontierTable(c.flow, c.head, frontier) && DefinedSites(c, irdst, defs)
    requires PhiClosed(c, irdst, phi') && v in defs && s' == set y | y in phi' && v in phi'[y]
    ensures FrontierClosed(frontier, defs[v], s')
  {
    hide DefinedInBlock, CompleteCfg, InFrontier;
    forall x, y | (x in defs[v] || x in s') && y in Front(frontier, x)
      ensures y in s'
    {
      FrontierReachable(c, x, y);
      assert x in defs[v] ==> x in Sites(defs, v);
      assert WritesVar(c, irdst, phi', x, v);
    }
  }

  lemma FrontierReachable(c: Cfg, x: Loc, y: Loc)
    requires CompleteCfg(c) && InFrontier(c.flow, c.head, x, y)
    ensures x in c.blocks
  {
    var p :| Edge(c.flow, p, y) && FrontierVia(c.flow, c.head, x, p, y);
    DominatorReachable(c.flow, c.head, x, p);
  }

  // ----- enough phis -----

  /** A path from i to n that leaves i for good. */
  ghost predicate LeavesFor(f: Flow<Loc>, q: seq<Loc>, i: Loc, n: Loc) {
    Between(f, q, i, n) && forall j :: 0 < j < |q| ==> q[j] != i
  }

  /** Whatever lies on such a path from the immediate dominator is strictly dominated by it. */
  lemma BetweenDominated(f: Flow<Loc>, head: Loc, i: Loc, n: Loc, q: seq<Loc>, k: nat)
    requires IsImmediateDominator(f, head, i, n) && LeavesFor(f, q, i, n) && 0 < k < |q|
    requires Reach(f, head, i)
    ensures Reach(f, head, q[k]) && StrictlyDominates(f, head, i, q[k])
  {
    PrefixPath(f, q, k);
    assert Between(f, q[..k + 1], i, q[k]);
    ReachTrans(f, head, i, q[k]);
    forall p | Between(f, p, head, q[k])
      ensures i in p
    {
      SuffixPath(f, q, k);
      JoinPaths(f, p, q[k..]);
      var r := p + q[k..][1..];
      assert Between(f, r, head, n) && i in r;
      assert i !in q[k..][1..];
    }
  }

  /** x does not strictly dominate n: along a path from x, the first block x does not
      strictly dominate is in its frontier. */
  lemma {:induction false} FrontierOnPath(f: Flow<Loc>, head: Loc, q: seq<Loc>, k: nat, e: nat, j: nat) returns (y: nat)
    requires IsPath(f, q) && k < j <= e < |q| && Reach(f, head, q[k]) && !StrictlyDominates(f, head, q[k], q[e])
    requires Dominates(f, head, q[k], q[j - 1]) && Reach(f, head, q[j - 1])
    ensures j <= y <= e && InFrontier(f, head, q[k], q[y])
    decreases e - j
  {
    assert Edge(f, q[j - 1], q[j]);
    if StrictlyDominates(f, head, q[k], q[j]) {
      ReachStep(f, head, q[j - 1], q[j]);
      y := FrontierOnPath(f, head, q, k, e, j + 1);
    } else {
      y := j;
      assert FrontierVia(f, head, q[k], q[j - 1], q[j]);
    }
  }

  /** A block that writes v between the immediate dominator of n and n forces a phi for v at n. */
  lemma {:induction false} WriterForcesPhi(
    c: Cfg, irdst: Var, phi: map<Loc, set<Var>>, i: Loc, n: Loc, q: seq<Loc>, k: nat, v: Var)
    requires CompleteCfg(c) && PhiClosed(c, irdst, phi) && IsImmediateDominator(c.flow, c.head, i, n)
    requires LeavesFor(c.flow, q, i, n) && 0 < k < |q| - 1 && i in c.blocks
    requires q[k] in c.blocks && WritesVar(c, irdst, phi, q[k], v)
    ensures v in Phis(phi, n)
    decreases |q| - k
  {
    hide WritesVar, InFrontier, PhiClosed, CompleteCfg;
    CfgReach(c, i);
    BetweenDominated(c.flow, c.head, i, n, q, k);
    if StrictlyDominates(c.flow, c.head, q[k], n) {
      DominatesAntisym(c.flow, c.head, i, q[k]);
    }
    DominatesSelf(c.flow, c.head, q[k]);
    var y := FrontierOnPath(c.flow, c.head, q, k, |q| - 1, k + 1);
    PhiAt(c, irdst, phi, q[k], q[y], v);
    if y < |q| - 1 {
      BetweenDominated(c.flow, c.head, i, n, q, y);
      CfgReach(c, q[y]);
      PhiWrites(c, irdst, phi, q[y], v);
      WriterForcesPhi(c, irdst, phi, i, n, q, y, v);
    }
  }

  lemma CfgReach(c: Cfg, n: Loc)
    requires CompleteCfg(c)
    ensures n in c.blocks <==> Reach(c.flow, c.head, n)
  {}

  lemma PhiAt(c: Cfg, irdst: Var, phi: map<Loc, set<Var>>, x: Loc, y: Loc, v: Var)
    requires PhiClosed(c, irdst, phi) && x in c.blocks && WritesVar(c, irdst, phi, x, v) && InFrontier(c.flow, c.head, x, y)
    ensures v in Phis(phi, y)
  {}

  lemma PhiWrites(c: Cfg, irdst: Var, phi: map<Loc, set<Var>>, x: Loc, v: Var)
    requires x in c.blocks && v in Phis(phi, x)
    ensures WritesVar(c, irdst, phi, x, v)
  {}

  /** Phi placement is sufficient: without a phi for v at n, no block strictly between the
      immediate dominator of n and n, on any path that leaves the dominator for good, assigns
      v or holds a phi for it; and every predecessor carries the version leaving that dominator. */
  lemma PhiSufficient(c: Cfg, irdst: Var, idoms: map<Loc, Loc>, t: Tables, n: Loc, v: Var)
    requires CompleteCfg(c) && VersionTables(c, irdst, idoms, t) && n in idoms && v !in Phis(t.phi, n)
    ensures forall q, k :: LeavesFor(c.flow, q, idoms[n], n) && 0 < k < |q| - 1 ==>
      q[k] in c.blocks && !WritesVar(c, irdst, t.phi, q[k], v)
    ensures forall p :: Edge(c.flow, p, n) ==> p in c.blocks && Same(Exit(t, p), Exit(t, idoms[n]), v)
  {
    hide WritesVar, LeavesFor, PhiClosed, EntryVersions, StepVersions, CompleteCfg;
    var i := idoms[n];
    CfgReach(c, i);
    forall q, k | LeavesFor(c.flow, q, i, n) && 0 < k < |q| - 1
      ensures q[k] in c.blocks && !WritesVar(c, irdst, t.phi, q[k], v)
    {
      BetweenDominated(c.flow, c.head, i, n, q, k);
      CfgReach(c, q[k]);
      if WritesVar(c, irdst, t.phi, q[k], v) {
        WriterForcesPhi(c, irdst, t.phi, i, n, q, k, v);
      }
    }
    forall p | Edge(c.flow, p, n)
      ensures p in c.blocks && Same(Exit(t, p), Exit(t, i), v)
    {
      EdgeFromBlock(c, p, n);
      PredecessorsAgree(c, irdst, idoms, t, n, p, v);
    }
  }

  lemma EdgeFromBlock(c: Cfg, p: Loc, n: Loc)
    requires CompleteCfg(c) && Edge(c.flow, p, n)
    ensures p in c.blocks
  {}
}
