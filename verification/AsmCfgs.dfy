/**
 The graph of disassembled blocks (AsmCFG, miasm/core/asmblock.py): edges that carry the
 constraints of the blocks' destinations, and the destinations still missing, each with the
 blocks waiting for it.
 */
module AsmCfgs {
  import opened Asm

  type Edges = map<(int, int), Constraint>
  type Pendings = map<int, set<(int, Constraint)>>

  method Pop<T>(s: set<T>) returns (x: T, rest: set<T>)
    requires s != {}
    ensures x in s && rest == s - {x} && |rest| < |s|
  {
    x :| x in s;
    rest := s - {x};
  }

  /** Block n has destination d with constraint c. */
  ghost predicate Dst(blocks: map<int, AsmBlock>, n: int, d: int, c: Constraint) {
    n in blocks && d in blocks[n].bto && blocks[n].bto[d] == c
  }

  ghost predicate HasEdge(edges: Edges, n: int, d: int, c: Constraint) {
    (n, d) in edges && edges[(n, d)] == c
  }

  function Waiting(pendings: Pendings, d: int): (r: set<(int, Constraint)>) {
    if d in pendings then pendings[d] else {}
  }

  ghost predicate EdgesInside(blocks: map<int, AsmBlock>, edges: Edges) {
    forall n, d, c :: HasEdge(edges, n, d, c) ==> n in blocks && d in blocks
  }

  /** Edges out of the blocks of s are their destinations that exist. */
  ghost predicate EdgesFor(blocks: map<int, AsmBlock>, s: set<int>, edges: Edges) {
    forall n, d, c :: n in s ==> (HasEdge(edges, n, d, c) <==> d in blocks && Dst(blocks, n, d, c))
  }

  /** The pendings are the missing destinations of the blocks of s. */
  ghost predicate PendingsFor(blocks: map<int, AsmBlock>, s: set<int>, pendings: Pendings) {
    && (forall d :: d in pendings ==> pendings[d] != {})
    && (forall d, w, c :: (w, c) in Waiting(pendings, d) <==> d !in blocks && w in s && Dst(blocks, w, d, c))
  }

  /** The graph says exactly what the blocks say. */
  ghost predicate Synced(blocks: map<int, AsmBlock>, edges: Edges, pendings: Pendings) {
    EdgesInside(blocks, edges) && EdgesFor(blocks, blocks.Keys, edges) && PendingsFor(blocks, blocks.Keys, pendings)
  }

  /** What holds while blocks are being split: pendings are true, but edges may be stale. */
  ghost predicate Loose(blocks: map<int, AsmBlock>, edges: Edges, pendings: Pendings) {
    EdgesInside(blocks, edges) && PendingsTrue(blocks, pendings)
  }

  ghost predicate PendingsTrue(blocks: map<int, AsmBlock>, pendings: Pendings) {
    forall d, w, c :: (w, c) in Waiting(pendings, d) ==> d !in blocks && Dst(blocks, w, d, c)
  }

  /** edges1 is edges0 and the edges from the waiters ws to n. */
  ghost predicate WaitersLinked(edges0: Edges, edges1: Edges, n: int, ws: set<(int, Constraint)>) {
    forall m, d, c :: HasEdge(edges1, m, d, c) <==> HasEdge(edges0, m, d, c) || (d == n && (m, c) in ws)
  }

  /** edges1 is edges0 and the edges from n to the destinations ds that exist. */
  ghost predicate DstsLinked(blocks: map<int, AsmBlock>, edges0: Edges, edges1: Edges, n: int, ds: set<int>) {
    forall m, d, c :: HasEdge(edges1, m, d, c) <==>
      HasEdge(edges0, m, d, c) || (m == n && d in ds && d in blocks && Dst(blocks, n, d, c))
  }

  /** pendings1 is pendings0 and n waiting for the destinations ds that are missing. */
  ghost predicate DstsPending(blocks: map<int, AsmBlock>, pendings0: Pendings, pendings1: Pendings, n: int, ds: set<int>) {
    && (forall d, w, c :: (w, c) in Waiting(pendings1, d) <==>
      (w, c) in Waiting(pendings0, d) || (w == n && d in ds && d !in blocks && Dst(blocks, n, d, c)))
    && (forall d :: d in pendings1 ==> pendings1[d] != {} || (d in pendings0 && pendings0[d] == {}))
  }

  // ----- adding a block -----

  lemma WaiterStep(blocks: map<int, AsmBlock>, edges0: Edges, edges: Edges, pendings: Pendings, n: int,
    todo: set<(int, Constraint)>, p: (int, Constraint))
    requires Loose(blocks, edges0, pendings) && n !in blocks && n in pendings && p in todo && todo <= pendings[n]
    requires WaitersLinked(edges0, edges, n, pendings[n] - todo)
    ensures (p.0, n) !in edges && p.0 in blocks && n in blocks[p.0].bto
    ensures WaitersLinked(edges0, edges[(p.0, n) := p.1], n, pendings[n] - (todo - {p}))
  {
    var ws := pendings[n];
    assert ws == Waiting(pendings, n);
    assert (p.0, p.1) in ws;
    assert Dst(blocks, p.0, n, p.1);
    assert forall c :: (p.0, c) in ws ==> c == p.1 by {
      assert forall c :: (p.0, c) in Waiting(pendings, n) ==> Dst(blocks, p.0, n, c);
    }
    assert (p.0, n) in edges ==> HasEdge(edges, p.0, n, edges[(p.0, n)]);
    var edges' := edges[(p.0, n) := p.1];
    forall m, d, c
      ensures HasEdge(edges', m, d, c) <==> HasEdge(edges0, m, d, c) || (d == n && (m, c) in ws - (todo - {p}))
    {
      assert (m, d) != (p.0, n) ==> (HasEdge(edges', m, d, c) <==> HasEdge(edges, m, d, c));
      assert (m, d) == (p.0, n) ==> !HasEdge(edges, m, d, c) && !HasEdge(edges0, m, d, c);
    }
  }

  lemma NoneLinked(blocks: map<int, AsmBlock>, edges: Edges, pendings: Pendings, n: int)
    ensures DstsLinked(blocks, edges, edges, n, {}) && DstsPending(blocks, pendings, pendings, n, {})
  {}

  lemma DstStep(blocks: map<int, AsmBlock>, edges0: Edges, edges: Edges, pendings0: Pendings, pendings: Pendings, n: int,
    todo: set<int>, d: int)
    requires n in blocks && (forall x, c :: !HasEdge(edges0, n, x, c)) && d in todo && todo <= blocks[n].bto.Keys
    requires DstsLinked(blocks, edges0, edges, n, blocks[n].bto.Keys - todo)
    requires DstsPending(blocks, pendings0, pendings, n, blocks[n].bto.Keys - todo)
    ensures (n, d) !in edges
    ensures var c, ds := blocks[n].bto[d], blocks[n].bto.Keys - (todo - {d});
      && DstsLinked(blocks, edges0, if d in blocks then edges[(n, d) := c] else edges, n, ds)
      && DstsPending(blocks, pendings0, if d in blocks then pendings else pendings[d := Waiting(pendings, d) + {(n, c)}], n, ds)
  {
    if (n, d) in edges { assert HasEdge(edges, n, d, edges[(n, d)]); }
    LinkStep(blocks, edges0, edges, n, blocks[n].bto.Keys - todo, d);
    PendStep(blocks, pendings0, pendings, n, blocks[n].bto.Keys - todo, d);
    assert blocks[n].bto.Keys - todo + {d} == blocks[n].bto.Keys - (todo - {d});
  }

  lemma LinkStep(blocks: map<int, AsmBlock>, edges0: Edges, edges: Edges, n: int, ds: set<int>, d: int)
    requires n in blocks && d in blocks[n].bto && (n, d) !in edges && DstsLinked(blocks, edges0, edges, n, ds)
    ensures DstsLinked(blocks, edges0, if d in blocks then edges[(n, d) := blocks[n].bto[d]] else edges, n, ds + {d})
  {
    var edges' := if d in blocks then edges[(n, d) := blocks[n].bto[d]] else edges;
    forall m, x, c
      ensures HasEdge(edges', m, x, c) <==>
        HasEdge(edges0, m, x, c) || (m == n && x in ds + {d} && x in blocks && Dst(blocks, n, x, c))
    {
      assert (m, x) != (n, d) ==> (HasEdge(edges', m, x, c) <==> HasEdge(edges, m, x, c));
      assert (m, x) == (n, d) ==> !HasEdge(edges, m, x, c);
    }
  }

  lemma PendStep(blocks: map<int, AsmBlock>, pendings0: Pendings, pendings: Pendings, n: int, ds: set<int>, d: int)
    requires n in blocks && d in blocks[n].bto && DstsPending(blocks, pendings0, pendings, n, ds)
    ensures DstsPending(blocks, pendings0,
      if d in blocks then pendings else pendings[d := Waiting(pendings, d) + {(n, blocks[n].bto[d])}], n, ds + {d})
  {
    var p := (n, blocks[n].bto[d]);
    var pendings' := if d in blocks then pendings else pendings[d := Waiting(pendings, d) + {p}];
    assert d !in blocks ==> p in pendings'[d];
    forall x, w, c
      ensures (w, c) in Waiting(pendings', x) <==>
        (w, c) in Waiting(pendings0, x) || (w == n && x in ds + {d} && x !in blocks && Dst(blocks, n, x, c))
    {
      assert x != d ==> Waiting(pendings', x) == Waiting(pendings, x);
    }
  }

  lemma NoEdges(blocks: map<int, AsmBlock>, edges0: Edges, edges1: Edges, pendings: Pendings, n: int)
    requires Loose(blocks, edges0, pendings) && n !in blocks && WaitersLinked(edges0, edges1, n, Waiting(pendings, n))
    ensures forall d, c :: !HasEdge(edges1, n, d, c)
  {
    forall d, c
      ensures !HasEdge(edges1, n, d, c)
    {
      assert (n, c) in Waiting(pendings, n) ==> Dst(blocks, n, n, c);
    }
  }

  ghost predicate Added(blocks: map<int, AsmBlock>, edges0: Edges, edges1: Edges, edges2: Edges,
    pendings0: Pendings, pendings2: Pendings, n: int, b: AsmBlock)
  {
    && n !in blocks && WaitersLinked(edges0, edges1, n, Waiting(pendings0, n))
    && DstsLinked(blocks[n := b], edges1, edges2, n, b.bto.Keys)
    && DstsPending(blocks[n := b], pendings0 - {n}, pendings2, n, b.bto.Keys)
  }

  lemma AddedLoose(blocks: map<int, AsmBlock>, edges0: Edges, edges1: Edges, edges2: Edges,
    pendings0: Pendings, pendings2: Pendings, n: int, b: AsmBlock)
    requires Loose(blocks, edges0, pendings0) && Added(blocks, edges0, edges1, edges2, pendings0, pendings2, n, b)
    ensures Loose(blocks[n := b], edges2, pendings2)
  {
    var blocks' := blocks[n := b];
    forall m, d, c | HasEdge(edges2, m, d, c)
      ensures m in blocks' && d in blocks'
    {
      assert HasEdge(edges1, m, d, c) || (m == n && d in blocks');
      assert HasEdge(edges1, m, d, c) ==> HasEdge(edges0, m, d, c) || (d == n && (m, c) in Waiting(pendings0, n));
      assert (m, c) in Waiting(pendings0, n) ==> Dst(blocks, m, n, c);
    }
    forall d, w, c | (w, c) in Waiting(pendings2, d)
      ensures d !in blocks' && Dst(blocks', w, d, c)
    {
      assert (w, c) in Waiting(pendings0 - {n}, d) ==> d != n && (w, c) in Waiting(pendings0, d);
      assert Dst(blocks, w, d, c) ==> Dst(blocks', w, d, c);
    }
  }

  lemma AddedSynced(blocks: map<int, AsmBlock>, edges0: Edges, edges1: Edges, edges2: Edges,
    pendings0: Pendings, pendings2: Pendings, n: int, b: AsmBlock)
    requires Synced(blocks, edges0, pendings0) && Added(blocks, edges0, edges1, edges2, pendings0, pendings2, n, b)
    ensures Synced(blocks[n := b], edges2, pendings2)
  {
    AddedLoose(blocks, edges0, edges1, edges2, pendings0, pendings2, n, b);
    AddedEdges(blocks, edges0, edges1, edges2, pendings0, pendings2, n, b);
    AddedPendings(blocks, edges0, edges1, edges2, pendings0, pendings2, n, b);
  }

  lemma AddedEdges(blocks: map<int, AsmBlock>, edges0: Edges, edges1: Edges, edges2: Edges,
    pendings0: Pendings, pendings2: Pendings, n: int, b: AsmBlock)
    requires Synced(blocks, edges0, pendings0) && Added(blocks, edges0, edges1, edges2, pendings0, pendings2, n, b)
    ensures EdgesFor(blocks[n := b], blocks[n := b].Keys, edges2)
  {
    var blocks' := blocks[n := b];
    forall m, d, c | m in blocks'
      ensures HasEdge(edges2, m, d, c) <==> d in blocks' && Dst(blocks', m, d, c)
    {
      assert HasEdge(edges2, m, d, c) <==> HasEdge(edges1, m, d, c) || (m == n && d in blocks' && Dst(blocks', m, d, c));
      assert HasEdge(edges1, m, d, c) <==> HasEdge(edges0, m, d, c) || (d == n && (m, c) in Waiting(pendings0, n));
      assert (m, c) in Waiting(pendings0, n) <==> m in blocks && Dst(blocks, m, n, c);
      assert m != n ==> (Dst(blocks', m, d, c) <==> Dst(blocks, m, d, c));
    }
  }

  lemma AddedPendings(blocks: map<int, AsmBlock>, edges0: Edges, edges1: Edges, edges2: Edges,
    pendings0: Pendings, pendings2: Pendings, n: int, b: AsmBlock)
    requires Synced(blocks, edges0, pendings0) && Added(blocks, edges0, edges1, edges2, pendings0, pendings2, n, b)
    ensures PendingsFor(blocks[n := b], blocks[n := b].Keys, pendings2)
  {
    var blocks' := blocks[n := b];
    forall d, w, c
      ensures (w, c) in Waiting(pendings2, d) <==> d !in blocks' && w in blocks'.Keys && Dst(blocks', w, d, c)
    {
      assert (w, c) in Waiting(pendings0 - {n}, d) <==> d != n && (w, c) in Waiting(pendings0, d);
      assert w != n ==> (Dst(blocks', w, d, c) <==> Dst(blocks, w, d, c));
    }
  }

  // ----- rebuilding the edges -----

  /** edges1 is edges0 but for the edges from n to the existing destinations ds, which have their constraints. */
  ghost predicate Updated(blocks: map<int, AsmBlock>, edges0: Edges, edges1: Edges, n: int, ds: set<int>) {
    forall m, d, c :: HasEdge(edges1, m, d, c) <==>
      if m == n && d in ds && d in blocks then Dst(blocks, n, d, c) else HasEdge(edges0, m, d, c)
  }

  /** edges1 is edges0 without the edges from n to the members of gone that are no destinations. */
  ghost predicate Dropped(blocks: map<int, AsmBlock>, edges0: Edges, edges1: Edges, n: int, gone: set<int>)
    requires n in blocks
  {
    forall m, d, c :: HasEdge(edges1, m, d, c) <==> HasEdge(edges0, m, d, c) && !(m == n && d in gone && d !in blocks[n].bto)
  }

  /** edges1 is edges0 but for the edges from n, which are its destinations that exist. */
  ghost predicate Rebuilt(blocks: map<int, AsmBlock>, edges0: Edges, edges1: Edges, n: int) {
    forall m, d, c :: HasEdge(edges1, m, d, c) <==>
      if m == n then d in blocks && Dst(blocks, n, d, c) else HasEdge(edges0, m, d, c)
  }

  lemma NoneUpdated(blocks: map<int, AsmBlock>, edges: Edges, n: int)
    requires n in blocks
    ensures Updated(blocks, edges, edges, n, {}) && Dropped(blocks, edges, edges, n, {})
  {}

  lemma UpdateStep(blocks: map<int, AsmBlock>, edges0: Edges, edges: Edges, n: int, ds: set<int>, d: int)
    requires n in blocks && d in blocks[n].bto && Updated(blocks, edges0, edges, n, ds)
    ensures Updated(blocks, edges0, if d in blocks then edges[(n, d) := blocks[n].bto[d]] else edges, n, ds + {d})
  {
    var edges' := if d in blocks then edges[(n, d) := blocks[n].bto[d]] else edges;
    forall m, x, c
      ensures HasEdge(edges', m, x, c) <==>
        if m == n && x in ds + {d} && x in blocks then Dst(blocks, n, x, c) else HasEdge(edges0, m, x, c)
    {
      assert (m, x) != (n, d) ==> (HasEdge(edges', m, x, c) <==> HasEdge(edges, m, x, c));
    }
  }

  lemma UpdatedInside(blocks: map<int, AsmBlock>, edges0: Edges, edges1: Edges, n: int)
    requires EdgesInside(blocks, edges0) && n in blocks && Updated(blocks, edges0, edges1, n, blocks[n].bto.Keys)
    ensures forall d :: (n, d) in edges1 ==> d in blocks
  {
    forall d | (n, d) in edges1
      ensures d in blocks
    {
      var c := edges1[(n, d)];
      assert HasEdge(edges1, n, d, c);
      assert HasEdge(edges0, n, d, c) ==> d in blocks;
    }
  }

  lemma DropStep(blocks: map<int, AsmBlock>, edges0: Edges, edges: Edges, n: int, gone: set<int>, d: int)
    requires n in blocks && Dropped(blocks, edges0, edges, n, gone)
    ensures Dropped(blocks, edges0, if d !in blocks[n].bto then edges - {(n, d)} else edges, n, gone + {d})
  {
    var edges' := if d !in blocks[n].bto then edges - {(n, d)} else edges;
    forall m, x, c
      ensures HasEdge(edges', m, x, c) <==> HasEdge(edges0, m, x, c) && !(m == n && x in gone + {d} && x !in blocks[n].bto)
    {
      assert (m, x) != (n, d) ==> (HasEdge(edges', m, x, c) <==> HasEdge(edges, m, x, c));
    }
  }

  lemma BlockRebuilt(blocks: map<int, AsmBlock>, edges0: Edges, edges1: Edges, edges2: Edges, n: int, gone: set<int>)
    requires EdgesInside(blocks, edges0) && n in blocks && Updated(blocks, edges0, edges1, n, blocks[n].bto.Keys)
    requires Dropped(blocks, edges1, edges2, n, gone) && forall d :: (n, d) in edges1 ==> d in gone
    ensures Rebuilt(blocks, edges0, edges2, n)
  {
    forall m, d, c
      ensures HasEdge(edges2, m, d, c) <==>
        if m == n then d in blocks && Dst(blocks, n, d, c) else HasEdge(edges0, m, d, c)
    {
      assert HasEdge(edges1, n, d, c) ==> d in gone;
      assert HasEdge(edges1, m, d, c) ==> HasEdge(edges0, m, d, c) || (m == n && d in blocks);
    }
  }

  lemma RebuildStep(blocks: map<int, AsmBlock>, edges0: Edges, edges1: Edges, pendings0: Pendings, pendings1: Pendings,
    s: set<int>, n: int)
    requires n in blocks && EdgesInside(blocks, edges0) && EdgesFor(blocks, s, edges0) && PendingsFor(blocks, s, pendings0)
    requires Rebuilt(blocks, edges0, edges1, n) && DstsPending(blocks, pendings0, pendings1, n, blocks[n].bto.Keys)
    ensures EdgesInside(blocks, edges1) && EdgesFor(blocks, s + {n}, edges1) && PendingsFor(blocks, s + {n}, pendings1)
  {
    forall m, d, c | m in s + {n}
      ensures HasEdge(edges1, m, d, c) <==> d in blocks && Dst(blocks, m, d, c)
    {
      assert m != n ==> (HasEdge(edges1, m, d, c) <==> HasEdge(edges0, m, d, c));
    }
  }

  // ----- splitting a block -----

  ghost predicate Forgotten(pendings0: Pendings, pendings1: Pendings, n: int, ds: set<int>) {
    forall d, w, c :: (w, c) in Waiting(pendings1, d) <==> (w, c) in Waiting(pendings0, d) && !(w == n && d in ds)
  }

  lemma ForgetStep(pendings0: Pendings, pendings: Pendings, n: int, ds: set<int>, d: int)
    requires Forgotten(pendings0, pendings, n, ds)
    ensures Forgotten(pendings0, if d in pendings then pendings[d := set p | p in pendings[d] && p.0 != n] else pendings,
      n, ds + {d})
  {
    var pendings' := if d in pendings then pendings[d := set p | p in pendings[d] && p.0 != n] else pendings;
    forall x, w, c
      ensures (w, c) in Waiting(pendings', x) <==> (w, c) in Waiting(pendings0, x) && !(w == n && x in ds + {d})
    {
      assert x != d ==> Waiting(pendings', x) == Waiting(pendings, x);
    }
  }

  /** The first part of a split block waits for nothing. */
  lemma SplitLoose(blocks: map<int, AsmBlock>, edges: Edges, pendings0: Pendings, pendings1: Pendings, n: int, b: AsmBlock)
    requires Loose(blocks, edges, pendings0) && n in blocks && Forgotten(pendings0, pendings1, n, blocks[n].bto.Keys)
    ensures Loose(blocks[n := b], edges, pendings1)
  {
    var blocks' := blocks[n := b];
    forall d, w, c | (w, c) in Waiting(pendings1, d)
      ensures d !in blocks' && Dst(blocks', w, d, c)
    {
      assert (w, c) in Waiting(pendings0, d);
      assert Dst(blocks, w, d, c);
    }
    assert blocks'.Keys == blocks.Keys;
  }

  lemma SyncedLoose(blocks: map<int, AsmBlock>, edges: Edges, pendings: Pendings)
    requires Synced(blocks, edges, pendings)
    ensures Loose(blocks, edges, pendings)
  {}

  // ----- the graph -----

  class AsmCfg {
    var blocks: map<int, AsmBlock>
    var edges: Edges
    var pendings: Pendings

    constructor ()
      ensures blocks == map[] && edges == map[] && pendings == map[]
      ensures Synced(blocks, edges, pendings)
    {
      blocks, edges, pendings := map[], map[], map[];
    }

    /** The known constraint of an edge may not change; the source block gets the destination if it lacks it. */
    method AddEdge(src: int, dst: int, c: Constraint)
      requires (src, dst) in edges ==> edges[(src, dst)] == c
      modifies this
      ensures edges == old(edges)[(src, dst) := c] && pendings == old(pendings)
      ensures blocks == if (src, dst) !in old(edges) && src in old(blocks) && dst !in old(blocks)[src].bto
        then old(blocks)[src := old(blocks)[src].(bto := old(blocks)[src].bto[dst := c])] else old(blocks)
    {
      if (src, dst) in edges { return; }
      if src in blocks && dst !in blocks[src].bto {
        blocks := blocks[src := blocks[src].(bto := blocks[src].bto[dst := c])];
      }
      edges := edges[(src, dst) := c];
    }

    method DelEdge(src: int, dst: int)
      requires src in blocks && dst in blocks && (src, dst) in edges
      modifies this
      ensures edges == old(edges) - {(src, dst)} && pendings == old(pendings)
      ensures blocks == if dst in old(blocks)[src].bto
        then old(blocks)[src := old(blocks)[src].(bto := old(blocks)[src].bto - {dst})] else old(blocks)
    {
      if dst in blocks[src].bto {
        blocks := blocks[src := blocks[src].(bto := blocks[src].bto - {dst})];
      }
      edges := edges - {(src, dst)};
    }

    /** Edges from the blocks that were waiting for n, which is not yet a block. */
    method ResolveWaiters(n: int)
      requires Loose(blocks, edges, pendings) && n !in blocks && n in pendings
      modifies this
      ensures blocks == old(blocks) && pendings == old(pendings) - {n}
      ensures WaitersLinked(old(edges), edges, n, old(pendings)[n])
    {
      var todo := pendings[n];
      assert Waiting(pendings, n) == todo;
      while todo != {}
        invariant todo <= old(pendings)[n] && blocks == old(blocks) && pendings == old(pendings)
        invariant WaitersLinked(old(edges), edges, n, old(pendings)[n] - todo)
        decreases |todo|
      {
        var p, rest := Pop(todo);
        WaiterStep(blocks, old(edges), edges, old(pendings), n, todo, p);
        todo := rest;
        AddEdge(p.0, n, p.1);
      }
      pendings := pendings - {n};
    }

    /** Edges and pendings of the destinations of the new block n. */
    method LinkDsts(n: int)
      requires n in blocks && (forall d, c :: !HasEdge(edges, n, d, c))
      modifies this
      ensures blocks == old(blocks)
      ensures DstsLinked(blocks, old(edges), edges, n, blocks[n].bto.Keys)
      ensures DstsPending(blocks, old(pendings), pendings, n, blocks[n].bto.Keys)
    {
      hide DstsLinked, DstsPending;
      var b := blocks[n];
      var todo := b.bto.Keys;
      NoneLinked(blocks, edges, pendings, n);
      assert b.bto.Keys - todo == {};
      while todo != {}
        invariant todo <= b.bto.Keys && blocks == old(blocks)
        invariant DstsLinked(blocks, old(edges), edges, n, b.bto.Keys - todo)
        invariant DstsPending(blocks, old(pendings), pendings, n, b.bto.Keys - todo)
        decreases |todo|
      {
        var d, rest := Pop(todo);
        var c := b.bto[d];
        DstStep(blocks, old(edges), edges, old(pendings), pendings, n, todo, d);
        todo := rest;
        if d !in blocks {
          pendings := pendings[d := Waiting(pendings, d) + {(n, c)}];
        } else {
          AddEdge(n, d, c);
        }
      }
      assert b.bto.Keys - todo == b.bto.Keys;
    }

    /** Adding a block keeps the graph in step with the blocks; a known location is left alone. */
    method AddBlock(n: int, b: AsmBlock) returns (status: bool)
      requires Loose(blocks, edges, pendings)
      modifies this
      ensures status == (n !in old(blocks))
      ensures blocks == if status then old(blocks)[n := b] else old(blocks)
      ensures !status ==> edges == old(edges) && pendings == old(pendings)
      ensures Loose(blocks, edges, pendings)
      ensures Synced(old(blocks), old(edges), old(pendings)) ==> Synced(blocks, edges, pendings)
    {
      status := n !in blocks;
      if !status { return; }
      ghost var ws := Waiting(pendings, n);
      assert WaitersLinked(edges, edges, n, {});
      if n in pendings {
        ResolveWaiters(n);
      }
      assert pendings == old(pendings) - {n};
      ghost var edges1 := edges;
      NoEdges(old(blocks), old(edges), edges, old(pendings), n);
      blocks := blocks[n := b];
      LinkDsts(n);
      AddedLoose(old(blocks), old(edges), edges1, edges, old(pendings), pendings, n, b);
      if Synced(old(blocks), old(edges), old(pendings)) {
        AddedSynced(old(blocks), old(edges), edges1, edges, old(pendings), pendings, n, b);
      }
    }

    /** Edges and pendings of n from its destinations, and no other edge from n. */
    method RebuildBlock(n: int)
      requires EdgesInside(blocks, edges) && n in blocks
      modifies this
      ensures blocks == old(blocks) && Rebuilt(blocks, old(edges), edges, n)
      ensures DstsPending(blocks, old(pendings), pendings, n, blocks[n].bto.Keys)
    {
      UpdateDsts(n);
      ghost var edges1 := edges;
      UpdatedInside(blocks, old(edges), edges, n);
      var succs := set e | e in edges && e.0 == n :: e.1;
      DropStale(n, succs);
      BlockRebuilt(blocks, old(edges), edges1, edges, n, succs);
    }

    method UpdateDsts(n: int)
      requires n in blocks
      modifies this
      ensures blocks == old(blocks) && Updated(blocks, old(edges), edges, n, blocks[n].bto.Keys)
      ensures DstsPending(blocks, old(pendings), pendings, n, blocks[n].bto.Keys)
    {
      hide Updated, DstsPending;
      NoneLinked(blocks, edges, pendings, n);
      NoneUpdated(blocks, edges, n);
      var b := blocks[n];
      var todo := b.bto.Keys;
      assert b.bto.Keys - todo == {};
      while todo != {}
        invariant todo <= b.bto.Keys && blocks == old(blocks)
        invariant Updated(blocks, old(edges), edges, n, b.bto.Keys - todo)
        invariant DstsPending(blocks, old(pendings), pendings, n, b.bto.Keys - todo)
        decreases |todo|
      {
        var d, rest := Pop(todo);
        var c := b.bto[d];
        UpdateStep(blocks, old(edges), edges, n, b.bto.Keys - todo, d);
        PendStep(blocks, old(pendings), pendings, n, b.bto.Keys - todo, d);
        assert b.bto.Keys - todo + {d} == b.bto.Keys - rest;
        todo := rest;
        if d !in blocks {
          pendings := pendings[d := Waiting(pendings, d) + {(n, c)}];
        } else if (n, d) in edges {
          edges := edges[(n, d) := c];
        } else {
          AddEdge(n, d, c);
        }
      }
      assert b.bto.Keys - todo == b.bto.Keys;
    }

    method DropStale(n: int, succs: set<int>)
      requires n in blocks && forall d :: d in succs ==> d in blocks && (n, d) in edges
      modifies this
      ensures blocks == old(blocks) && pendings == old(pendings) && Dropped(blocks, old(edges), edges, n, succs)
    {
      hide Dropped;
      NoneUpdated(blocks, edges, n);
      var todo := succs;
      assert succs - todo == {};
      while todo != {}
        invariant todo <= succs && blocks == old(blocks) && pendings == old(pendings)
        invariant forall d :: d in todo ==> (n, d) in edges
        invariant Dropped(blocks, old(edges), edges, n, succs - todo)
        decreases |todo|
      {
        var d, rest := Pop(todo);
        DropStep(blocks, old(edges), edges, n, succs - todo, d);
        assert succs - todo + {d} == succs - rest;
        todo := rest;
        if d !in blocks[n].bto {
          DelEdge(n, d);
        }
      }
      assert succs - todo == succs;
    }

    /** Puts edges and pendings back in step with the blocks, however stale they were. */
    method RebuildEdges()
      requires EdgesInside(blocks, edges)
      modifies this
      ensures blocks == old(blocks) && Synced(blocks, edges, pendings)
    {
      pendings := map[];
      assert EdgesFor(blocks, {}, edges) && PendingsFor(blocks, {}, pendings);
      hide EdgesInside, EdgesFor, PendingsFor, Rebuilt, DstsPending;
      var todo := blocks.Keys;
      assert blocks.Keys - todo == {};
      while todo != {}
        invariant todo <= blocks.Keys && blocks == old(blocks)
        invariant EdgesInside(blocks, edges) && EdgesFor(blocks, blocks.Keys - todo, edges)
        invariant PendingsFor(blocks, blocks.Keys - todo, pendings)
        decreases |todo|
      {
        var n, rest := Pop(todo);
        ghost var edges0, pendings0 := edges, pendings;
        RebuildBlock(n);
        RebuildStep(blocks, edges0, edges, pendings0, pendings, blocks.Keys - todo, n);
        assert blocks.Keys - todo + {n} == blocks.Keys - rest;
        todo := rest;
      }
      assert blocks.Keys - todo == blocks.Keys;
    }

    /** Block n no longer waits for the destinations ds. */
    method ForgetWaiter(n: int, ds: set<int>)
      modifies this`pendings
      ensures Forgotten(old(pendings), pendings, n, ds)
    {
      var todo := ds;
      assert ds - todo == {};
      while todo != {}
        invariant todo <= ds && Forgotten(old(pendings), pendings, n, ds - todo)
        decreases |todo|
      {
        var d, rest := Pop(todo);
        ForgetStep(old(pendings), pendings, n, ds - todo, d);
        assert ds - todo + {d} == ds - rest;
        todo := rest;
        if d in pendings {
          pendings := pendings[d := set p | p in pendings[d] && p.0 != n];
        }
      }
      assert ds - todo == ds;
    }
  }
}
