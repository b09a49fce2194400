/**
 Strongly connected components by an explicit-stack walk with boundaries, after Gabow
 (miasm/core/graph.py, compute_strongly_connected_components).
 */
module Components {
  import opened Paths
  import opened Dominators

  // ----- the walk, as a value -----

  /** stack: the nodes visited and not yet in a component; bounds: where its segments start
      (positions plus one); pos: the positions of the open nodes, the path of the walk; rest: for
      each open node, the successors still to handle; next: the node about to be visited, if any. */
  datatype Walk<N> = Walk(
    stack: seq<N>, bounds: seq<nat>, pos: seq<nat>, rest: seq<seq<N>>, finished: set<N>, next: seq<N>)

  ghost predicate Shape<N(!new)>(nodes: set<N>, w: Walk<N>) {
    && NoDuplicates(w.stack) && w.finished <= nodes
    && (forall v :: v in w.stack ==> v in nodes && v !in w.finished)
    && |w.next| <= 1 && (forall v :: v in w.next ==> v in nodes && v !in w.stack && v !in w.finished)
  }

  ghost predicate Increasing(s: seq<nat>) {
    forall i, j :: 0 <= i < j < |s| ==> s[i] < s[j]
  }

  /** Open nodes lie on the stack in order; segments start at open nodes, the first at the bottom. */
  ghost predicate Layout<N>(w: Walk<N>) {
    && Increasing(w.pos) && (forall i :: 0 <= i < |w.pos| ==> w.pos[i] < |w.stack|) && |w.rest| == |w.pos|
    && Increasing(w.bounds) && (forall i :: 0 <= i < |w.bounds| ==> w.bounds[i] >= 1 && w.bounds[i] - 1 in w.pos)
    && (w.stack == [] <==> w.pos == []) && (w.stack == [] <==> w.bounds == [])
    && (w.stack != [] ==> w.pos[0] == 0 && w.bounds[0] == 1)
  }

  /** A segment starts after position p, at or before position q. */
  ghost predicate Parted(bounds: seq<nat>, p: nat, q: nat) {
    exists k :: 0 <= k < |bounds| && p < bounds[k] - 1 <= q
  }

  /** Lower nodes reach higher ones; inside a segment the converse holds too. */
  ghost predicate Connected<N(!new)>(f: Flow<N>, w: Walk<N>) {
    && (forall p, q :: 0 <= p < q < |w.stack| ==> Reach(f, w.stack[p], w.stack[q]))
    && (forall p, q :: 0 <= p < q < |w.stack| && !Parted(w.bounds, p, q) ==> Reach(f, w.stack[q], w.stack[p]))
  }

  /** Where the edge to v from the node at position p leads: a finished component, or a segment
      that is not below. */
  ghost predicate Settled<N>(w: Walk<N>, p: nat, v: N) {
    v in w.finished || exists q: nat :: q < |w.stack| && w.stack[q] == v && (q >= p || !Parted(w.bounds, q, p))
  }

  /** The edge to v from the node at position p is still to handle. */
  ghost predicate Waiting<N>(w: Walk<N>, p: nat, v: N) {
    || (exists i :: 0 <= i < |w.pos| && i < |w.rest| && w.pos[i] == p && v in w.rest[i])
    || (w.pos != [] && p == w.pos[|w.pos| - 1] && v in w.next)
  }

  ghost predicate EdgesHandled<N(!new)>(f: Flow<N>, w: Walk<N>) {
    forall p: nat, v :: p < |w.stack| && Edge(f, w.stack[p], v) ==> Settled(w, p, v) || Waiting(w, p, v)
  }

  // ----- components -----

  ghost predicate IsClass<N(!new)>(f: Flow<N>, c: set<N>) {
    c != {} && forall a, b :: a in c ==> (b in c <==> Reach(f, a, b) && Reach(f, b, a))
  }

  /** The components found: disjoint classes covering the finished nodes, none reaching a later one. */
  ghost predicate Found<N(!new)>(f: Flow<N>, finished: set<N>, sccs: seq<set<N>>) {
    && Closed(f, finished)
    && (forall i :: 0 <= i < |sccs| ==> IsClass(f, sccs[i]) && sccs[i] <= finished)
    && (forall v :: v in finished ==> exists i :: 0 <= i < |sccs| && v in sccs[i])
    && (forall i, j, a, b :: 0 <= i < j < |sccs| && a in sccs[i] && b in sccs[j] ==> !Reach(f, a, b))
  }

  lemma ReachFrom<N(!new)>(f: Flow<N>, s: set<N>, a: N, b: N)
    requires Closed(f, s) && a in s && Reach(f, a, b)
    ensures b in s
  {
    var p :| Between(f, p, a, b);
    ClosedContainsReach(f, s, p);
  }

  // ----- visiting a node -----

  ghost function Visited<N>(f: Flow<N>, w: Walk<N>): (w': Walk<N>)
    requires |w.next| == 1
  {
    var x, n := w.next[0], |w.stack|;
    Walk(w.stack + [x], w.bounds + [n + 1], w.pos + [n], w.rest + [Next(f, x)], w.finished, [])
  }

  /** Every node of the stack reaches the top open node. */
  lemma ReachTop<N(!new)>(f: Flow<N>, w: Walk<N>, p: nat)
    requires Layout(w) && Connected(f, w) && p < |w.stack|
    ensures w.pos != [] && Reach(f, w.stack[p], w.stack[w.pos[|w.pos| - 1]])
  {
    var top := w.pos[|w.pos| - 1];
    ReachSelf(f, w.stack[p]);
    if p > top {
      forall k | 0 <= k < |w.bounds|
        ensures !(top < w.bounds[k] - 1)
      {
        var i :| 0 <= i < |w.pos| && w.pos[i] == w.bounds[k] - 1;
      }
      assert !Parted(w.bounds, top, p);
    }
  }

  lemma VisitShape<N(!new)>(f: Flow<N>, nodes: set<N>, w: Walk<N>)
    requires Shape(nodes, w) && |w.next| == 1
    ensures Shape(nodes, Visited(f, w))
  {
    var w', n, x := Visited(f, w), |w.stack|, w.next[0];
    assert x in w.next;
    forall i, j | 0 <= i < j < |w'.stack|
      ensures w'.stack[i] != w'.stack[j]
    {
      assert w.stack[i] in w.stack;
    }
  }

  lemma IncreasingAppend(s: seq<nat>, x: nat)
    requires Increasing(s) && forall i :: 0 <= i < |s| ==> s[i] < x
    ensures Increasing(s + [x])
  {}

  lemma BoundsBelow<N(!new)>(w: Walk<N>, i: nat)
    requires Layout(w) && i < |w.bounds|
    ensures 1 <= w.bounds[i] <= |w.stack|
  {
    var k :| 0 <= k < |w.pos| && w.pos[k] == w.bounds[i] - 1;
  }

  lemma VisitLayout<N(!new)>(f: Flow<N>, w: Walk<N>)
    requires Layout(w) && |w.next| == 1
    ensures Layout(Visited(f, w))
  {
    hide Increasing;
    var w', n := Visited(f, w), |w.stack|;
    forall i | 0 <= i < |w.bounds|
      ensures w.bounds[i] < n + 1
    {
      BoundsBelow(w, i);
    }
    IncreasingAppend(w.pos, n);
    IncreasingAppend(w.bounds, n + 1);
    forall i | 0 <= i < |w'.bounds|
      ensures w'.bounds[i] >= 1 && w'.bounds[i] - 1 in w'.pos
    {
      if i < |w.bounds| {
        assert w.bounds[i] - 1 in w.pos;
      } else {
        assert w'.pos[|w.pos|] == n;
      }
    }
  }

  lemma VisitConnected<N(!new)>(f: Flow<N>, w: Walk<N>)
    requires Layout(w) && Connected(f, w) && |w.next| == 1
    requires w.pos != [] ==> Edge(f, w.stack[w.pos[|w.pos| - 1]], w.next[0])
    ensures Connected(f, Visited(f, w))
  {
    var w', n := Visited(f, w), |w.stack|;
    forall p, q | 0 <= p < q < |w'.stack|
      ensures Reach(f, w'.stack[p], w'.stack[q])
      ensures !Parted(w'.bounds, p, q) ==> Reach(f, w'.stack[q], w'.stack[p])
    {
      if q == n {
        ReachTop(f, w, p);
        ReachStep(f, w.stack[p], w.stack[w.pos[|w.pos| - 1]], w.next[0]);
        assert w'.bounds[|w.bounds|] == n + 1;
        assert Parted(w'.bounds, p, q);
      } else if Parted(w.bounds, p, q) {
        var k :| 0 <= k < |w.bounds| && p < w.bounds[k] - 1 <= q;
        assert w'.bounds[k] == w.bounds[k];
        assert Parted(w'.bounds, p, q);
      }
    }
  }

  lemma VisitEdges<N(!new)>(f: Flow<N>, w: Walk<N>)
    requires Layout(w) && EdgesHandled(f, w) && |w.next| == 1
    ensures EdgesHandled(f, Visited(f, w))
  {
    var w', n := Visited(f, w), |w.stack|;
    forall p: nat, v | p < |w'.stack| && Edge(f, w'.stack[p], v)
      ensures Settled(w', p, v) || Waiting(w', p, v)
    {
      if p == n {
        assert w'.pos[|w.pos|] == n && w'.rest[|w.pos|] == Next(f, w.next[0]);
      } else {
        VisitEdge(f, w, p, v);
      }
    }
  }

  lemma VisitEdge<N(!new)>(f: Flow<N>, w: Walk<N>, p: nat, v: N)
    requires Layout(w) && |w.next| == 1 && p < |w.stack| && (Settled(w, p, v) || Waiting(w, p, v))
    ensures Settled(Visited(f, w), p, v) || Waiting(Visited(f, w), p, v)
  {
    var w', n := Visited(f, w), |w.stack|;
    if Settled(w, p, v) {
      if v !in w.finished {
        var q: nat :| q < |w.stack| && w.stack[q] == v && (q >= p || !Parted(w.bounds, q, p));
        assert w'.stack[q] == v;
        if q < p { NotPartedMore(w.bounds, n + 1, q, p); }
      }
    } else if i :| 0 <= i < |w.pos| && i < |w.rest| && w.pos[i] == p && v in w.rest[i] {
      assert w'.pos[i] == p && w'.rest[i] == w.rest[i];
    } else {
      assert v == w.next[0] && w'.stack[n] == v;
    }
  }

  lemma NotPartedMore(bounds: seq<nat>, b: nat, p: nat, q: nat)
    requires !Parted(bounds, p, q) && b - 1 > q
    ensures !Parted(bounds + [b], p, q)
  {
    if k :| 0 <= k < |bounds + [b]| && p < (bounds + [b])[k] - 1 <= q {
      assert k < |bounds| ==> bounds[k] == (bounds + [b])[k];
    }
  }

  // ----- handling an edge -----

  /** The top open node has one successor less to handle, and segments above position q are merged. */
  ghost function Handled<N>(w: Walk<N>, bounds: seq<nat>, next: seq<N>): (w': Walk<N>)
    requires |w.rest| > 0 && w.rest[|w.rest| - 1] != []
  {
    var k := |w.rest| - 1;
    w.(bounds := bounds, rest := w.rest[k := w.rest[k][..|w.rest[k]| - 1]], next := next)
  }

  /** bounds' keeps the segments starting at or below q. */
  ghost predicate Contracted(bounds: seq<nat>, bounds': seq<nat>, q: nat) {
    && bounds' <= bounds && (forall k :: 0 <= k < |bounds'| ==> bounds'[k] - 1 <= q)
    && (forall k :: |bounds'| <= k < |bounds| ==> bounds[k] - 1 > q)
  }

  lemma ContractedParted(bounds: seq<nat>, bounds': seq<nat>, q: nat, a: nat, b: nat)
    requires Contracted(bounds, bounds', q)
    ensures Parted(bounds', a, b) ==> Parted(bounds, a, b)
    ensures a >= q ==> !Parted(bounds', a, b)
    ensures b <= q ==> (Parted(bounds, a, b) ==> Parted(bounds', a, b))
  {
    if k :| 0 <= k < |bounds'| && a < bounds'[k] - 1 <= b {
      assert bounds[k] == bounds'[k];
    }
    if k :| 0 <= k < |bounds| && a < bounds[k] - 1 <= b {
      if b <= q { assert k < |bounds'| && bounds'[k] == bounds[k]; }
    }
  }

  /** Merging the segments down to that of a successor keeps every segment strongly connected. */
  lemma ContractConnected<N(!new)>(f: Flow<N>, w: Walk<N>, bounds': seq<nat>, q: nat)
    requires Layout(w) && Connected(f, w) && q < |w.stack| && Contracted(w.bounds, bounds', q)
    requires w.pos != [] && Edge(f, w.stack[w.pos[|w.pos| - 1]], w.stack[q])
    ensures Connected(f, w.(bounds := bounds'))
  {
    forall a, b | 0 <= a < b < |w.stack| && !Parted(bounds', a, b)
      ensures Reach(f, w.stack[b], w.stack[a])
    {
      if Parted(w.bounds, a, b) {
        ContractedParted(w.bounds, bounds', q, a, b);
        ReachTop(f, w, b);
        ReachStep(f, w.stack[b], w.stack[w.pos[|w.pos| - 1]], w.stack[q]);
        if a < q {
          LessParted(bounds', a, q, b);
          ContractedParted(w.bounds, bounds', q, a, q);
        } else {
          ReachSelf(f, w.stack[a]);
        }
        ReachTrans(f, w.stack[b], w.stack[q], w.stack[a]);
      }
    }
  }

  lemma LessParted(bounds: seq<nat>, a: nat, b: nat, c: nat)
    requires b <= c && !Parted(bounds, a, c)
    ensures !Parted(bounds, a, b)
  {}

  lemma HandleLayout<N(!new)>(nodes: set<N>, w: Walk<N>, bounds': seq<nat>, next: seq<N>, q: nat)
    requires Shape(nodes, w) && Layout(w) && Contracted(w.bounds, bounds', q)
    requires |w.rest| > 0 && w.rest[|w.rest| - 1] != [] && w.next == []
    requires |next| <= 1 && forall v :: v in next ==> v in nodes && v !in w.stack && v !in w.finished
    ensures Shape(nodes, Handled(w, bounds', next)) && Layout(Handled(w, bounds', next))
  {
    if |bounds'| > 0 { assert bounds'[0] == w.bounds[0]; }
    assert w.bounds[0] == 1;
    forall i | 0 <= i < |bounds'|
      ensures bounds'[i] >= 1 && bounds'[i] - 1 in w.pos
    {
      assert bounds'[i] == w.bounds[i];
    }
  }

  lemma HandleEdges<N(!new)>(f: Flow<N>, w: Walk<N>, bounds': seq<nat>, next: seq<N>, q: nat, y: N)
    requires Layout(w) && EdgesHandled(f, w) && Contracted(w.bounds, bounds', q)
    requires |w.rest| > 0 && w.rest[|w.rest| - 1] != [] && w.next == []
    requires y == w.rest[|w.rest| - 1][|w.rest[|w.rest| - 1]| - 1]
    requires y in next || y in w.finished || (q < |w.stack| && w.stack[q] == y)
    ensures EdgesHandled(f, Handled(w, bounds', next))
  {
    var w' := Handled(w, bounds', next);
    forall p: nat, v | p < |w'.stack| && Edge(f, w'.stack[p], v)
      ensures Settled(w', p, v) || Waiting(w', p, v)
    {
      HandleEdge(w, bounds', next, q, y, p, v);
    }
  }

  lemma HandleEdge<N(!new)>(w: Walk<N>, bounds': seq<nat>, next: seq<N>, q: nat, y: N, p: nat, v: N)
    requires Layout(w) && Contracted(w.bounds, bounds', q)
    requires |w.rest| > 0 && w.rest[|w.rest| - 1] != [] && w.next == []
    requires y == w.rest[|w.rest| - 1][|w.rest[|w.rest| - 1]| - 1]
    requires y in next || y in w.finished || (q < |w.stack| && w.stack[q] == y)
    requires p < |w.stack| && (Settled(w, p, v) || Waiting(w, p, v))
    ensures Settled(Handled(w, bounds', next), p, v) || Waiting(Handled(w, bounds', next), p, v)
  {
    var w' := Handled(w, bounds', next);
    var k := |w.rest| - 1;
    if Settled(w, p, v) {
      if v !in w.finished {
        var r: nat :| r < |w.stack| && w.stack[r] == v && (r >= p || !Parted(w.bounds, r, p));
        if r < p { ContractedParted(w.bounds, bounds', q, r, p); }
      }
    } else {
      var i :| 0 <= i < |w.pos| && i < |w.rest| && w.pos[i] == p && v in w.rest[i];
      if i == k {
        LastOrBefore(w.rest[k], v);
      }
      if i == k && v == y {
        if y !in next && y !in w.finished && q < p { ContractedParted(w.bounds, bounds', q, q, p); }
      }
    }
  }

  // ----- leaving a node -----

  ghost function Left<N>(w: Walk<N>): (w': Walk<N>)
    requires |w.pos| > 0 && |w.rest| == |w.pos|
  {
    w.(pos := w.pos[..|w.pos| - 1], rest := w.rest[..|w.rest| - 1])
  }

  /** A node without anything left to handle waits for no edge. */
  lemma NoWaiting<N(!new)>(w: Walk<N>, p: nat, v: N)
    requires Layout(w) && w.next == [] && |w.pos| > 0 && w.rest[|w.rest| - 1] == [] && p >= w.pos[|w.pos| - 1]
    ensures !Waiting(w, p, v)
  {
    forall i | 0 <= i < |w.pos| && w.pos[i] == p
      ensures i == |w.pos| - 1
    {
    }
  }

  /** An open node that starts no segment is left; its segment stays. */
  lemma LeaveLayout<N(!new)>(nodes: set<N>, w: Walk<N>)
    requires Shape(nodes, w) && Layout(w) && |w.pos| > 0
    requires w.bounds != [] && w.bounds[|w.bounds| - 1] != w.pos[|w.pos| - 1] + 1
    ensures Shape(nodes, Left(w)) && Layout(Left(w))
  {
    hide Shape;
    assert Shape(nodes, Left(w)) by { LeaveShape(nodes, w); }
    var w', k := Left(w), |w.pos| - 1;
    forall i | 0 <= i < |w.bounds|
      ensures w.bounds[i] - 1 in w'.pos
    {
      var j :| 0 <= j < |w.pos| && w.pos[j] == w.bounds[i] - 1;
      var j' :| 0 <= j' < |w.pos| && w.pos[j'] == w.bounds[|w.bounds| - 1] - 1;
      assert j' < k && w.pos[j'] < w.pos[k];
      assert j < k && w'.pos[j] == w.pos[j];
    }
    assert w.bounds[0] - 1 in w'.pos;
  }

  lemma LeaveShape<N(!new)>(nodes: set<N>, w: Walk<N>)
    requires Shape(nodes, w) && |w.pos| > 0 && |w.rest| == |w.pos|
    ensures Shape(nodes, Left(w))
  {}

  lemma LeaveEdges<N(!new)>(f: Flow<N>, w: Walk<N>)
    requires Layout(w) && Connected(f, w) && EdgesHandled(f, w) && w.next == [] && |w.pos| > 0 && w.rest[|w.rest| - 1] == []
    ensures Connected(f, Left(w)) && EdgesHandled(f, Left(w))
  {
    var w' := Left(w);
    forall p: nat, v | p < |w'.stack| && Edge(f, w'.stack[p], v)
      ensures Settled(w', p, v) || Waiting(w', p, v)
    {
      assert Settled(w, p, v) ==> Settled(w', p, v);
      if Waiting(w, p, v) { WaitingLeft(w, p, v); }
    }
  }

  lemma WaitingLeft<N(!new)>(w: Walk<N>, p: nat, v: N)
    requires Layout(w) && w.next == [] && |w.pos| > 0 && w.rest[|w.rest| - 1] == [] && Waiting(w, p, v)
    ensures Waiting(Left(w), p, v)
  {
    var i :| 0 <= i < |w.pos| && i < |w.rest| && w.pos[i] == p && v in w.rest[i];
    assert Left(w).pos[i] == p && Left(w).rest[i] == w.rest[i];
  }

  // ----- a component -----

  ghost function Emitted<N>(w: Walk<N>): (w': Walk<N>)
    requires |w.pos| > 0 && |w.rest| == |w.pos| && w.bounds != [] && w.pos[|w.pos| - 1] <= |w.stack|
  {
    var top := w.pos[|w.pos| - 1];
    Walk(
      w.stack[..top], w.bounds[..|w.bounds| - 1], w.pos[..|w.pos| - 1], w.rest[..|w.rest| - 1],
      w.finished + Members(w.stack[top..]), [])
  }

  ghost function Members<N>(s: seq<N>): (r: set<N>) {
    set v | v in s
  }

  /** The walk is about to emit the segment of its top open node. */
  ghost predicate Emits<N(!new)>(f: Flow<N>, nodes: set<N>, w: Walk<N>) {
    && Shape(nodes, w) && Layout(w) && Connected(f, w) && EdgesHandled(f, w) && w.next == []
    && |w.pos| > 0 && w.rest[|w.rest| - 1] == []
    && w.bounds != [] && w.bounds[|w.bounds| - 1] == w.pos[|w.pos| - 1] + 1
  }

  /** Every edge from the segment emitted stays in it, or leads to a finished component. */
  lemma SegmentClosed<N(!new)>(f: Flow<N>, nodes: set<N>, w: Walk<N>, p: nat, v: N)
    requires Emits(f, nodes, w) && w.pos[|w.pos| - 1] <= p < |w.stack| && Edge(f, w.stack[p], v)
    ensures v in w.finished || v in w.stack[w.pos[|w.pos| - 1]..]
  {
    hide Connected, Settled, Waiting, Shape;
    assert Settled(w, p, v) || Waiting(w, p, v);
    NoWaiting(w, p, v);
    SettledTop(w, p, v);
  }

  lemma SettledTop<N(!new)>(w: Walk<N>, p: nat, v: N)
    requires Settled(w, p, v) && w.pos != [] && w.pos[|w.pos| - 1] <= p < |w.stack|
    requires w.bounds != [] && w.bounds[|w.bounds| - 1] == w.pos[|w.pos| - 1] + 1
    ensures v in w.finished || v in w.stack[w.pos[|w.pos| - 1]..]
  {
    var top := w.pos[|w.pos| - 1];
    if v !in w.finished {
      var q: nat :| q < |w.stack| && w.stack[q] == v && (q >= p || !Parted(w.bounds, q, p));
      assert w.bounds[|w.bounds| - 1] - 1 == top;
      assert q >= top;
      assert w.stack[top..][q - top] == v;
    }
  }

  lemma EmitClosed<N(!new)>(f: Flow<N>, nodes: set<N>, w: Walk<N>)
    requires Emits(f, nodes, w) && Closed(f, w.finished)
    ensures Closed(f, Emitted(w).finished)
  {
    var top := w.pos[|w.pos| - 1];
    var c := Members(w.stack[top..]);
    forall a, b | a in w.finished + c && Edge(f, a, b)
      ensures b in w.finished + c
    {
      if a !in w.finished {
        var i :| 0 <= i < |w.stack[top..]| && w.stack[top..][i] == a;
        assert w.stack[top + i] == a;
        SegmentClosed(f, nodes, w, top + i, b);
      }
    }
  }

  /** The segment emitted is a class of mutually reachable nodes. */
  lemma EmitClass<N(!new)>(f: Flow<N>, nodes: set<N>, w: Walk<N>)
    requires Emits(f, nodes, w) && Closed(f, w.finished)
    ensures IsClass(f, Members(w.stack[w.pos[|w.pos| - 1]..]))
    ensures forall a :: a in Members(w.stack[w.pos[|w.pos| - 1]..]) ==> a !in w.finished
  {
    var top := w.pos[|w.pos| - 1];
    var c := Members(w.stack[top..]);
    assert w.stack[top..][0] in c;
    EmitClosed(f, nodes, w);
    forall a | a in c
      ensures a in w.stack
    {
      var i :| 0 <= i < |w.stack[top..]| && w.stack[top..][i] == a;
      assert w.stack[top + i] == a;
    }
    forall a, b | a in c
      ensures b in c <==> Reach(f, a, b) && Reach(f, b, a)
    {
      if b in c {
        SegmentMutual(f, nodes, w, a, b);
        SegmentMutual(f, nodes, w, b, a);
      }
      if Reach(f, a, b) && Reach(f, b, a) {
        ReachFrom(f, w.finished + c, a, b);
        if b in w.finished { ReachFrom(f, w.finished, b, a); }
      }
    }
  }

  lemma SegmentMutual<N(!new)>(f: Flow<N>, nodes: set<N>, w: Walk<N>, a: N, b: N)
    requires Emits(f, nodes, w)
    requires a in w.stack[w.pos[|w.pos| - 1]..] && b in w.stack[w.pos[|w.pos| - 1]..]
    ensures Reach(f, a, b)
  {
    var top := w.pos[|w.pos| - 1];
    var i :| 0 <= i < |w.stack[top..]| && w.stack[top..][i] == a;
    var j :| 0 <= j < |w.stack[top..]| && w.stack[top..][j] == b;
    assert w.stack[top + i] == a && w.stack[top + j] == b;
    ReachSelf(f, a);
    if j < i {
      forall k | 0 <= k < |w.bounds|
        ensures w.bounds[k] - 1 <= top
      {
      }
      assert !Parted(w.bounds, top + j, top + i);
    }
  }

  lemma EmitShape<N(!new)>(f: Flow<N>, nodes: set<N>, w: Walk<N>)
    requires Emits(f, nodes, w)
    ensures Shape(nodes, Emitted(w))
  {
    var top := w.pos[|w.pos| - 1];
    forall v | v in w.stack[top..]
      ensures v in w.stack
    {
    }
    forall v | v in w.stack[..top]
      ensures v !in w.stack[top..] && v in w.stack
    {
    }
  }

  lemma EmitLayout<N(!new)>(f: Flow<N>, nodes: set<N>, w: Walk<N>)
    requires Emits(f, nodes, w)
    ensures Layout(Emitted(w))
  {
    hide EdgesHandled, Connected, Shape;
    var w', top, k := Emitted(w), w.pos[|w.pos| - 1], |w.pos| - 1;
    forall i | 0 <= i < |w'.bounds|
      ensures w'.bounds[i] >= 1 && w'.bounds[i] - 1 in w'.pos
    {
      var j :| 0 <= j < |w.pos| && w.pos[j] == w.bounds[i] - 1;
      assert w.bounds[i] < w.bounds[|w.bounds| - 1];
      assert j != k && w'.pos[j] == w.pos[j];
    }
    assert k > 0 ==> w.pos[0] < w.pos[k];
    assert |w.bounds| > 1 ==> w.bounds[0] < w.bounds[|w.bounds| - 1];
  }

  lemma EmitConnected<N(!new)>(f: Flow<N>, nodes: set<N>, w: Walk<N>)
    requires Emits(f, nodes, w)
    ensures Connected(f, Emitted(w))
  {
    var w', top := Emitted(w), w.pos[|w.pos| - 1];
    forall p, q | 0 <= p < q < |w'.stack| && !Parted(w'.bounds, p, q)
      ensures Reach(f, w'.stack[q], w'.stack[p])
    {
      forall k | 0 <= k < |w.bounds| && p < w.bounds[k] - 1
        ensures w.bounds[k] - 1 > q
      {
        if k < |w.bounds| - 1 { assert w'.bounds[k] == w.bounds[k]; }
      }
      assert !Parted(w.bounds, p, q);
    }
  }

  lemma EmitEdges<N(!new)>(f: Flow<N>, nodes: set<N>, w: Walk<N>)
    requires Emits(f, nodes, w)
    ensures EdgesHandled(f, Emitted(w))
  {
    hide Settled, Waiting, Shape, Connected;
    var w' := Emitted(w);
    forall p: nat, v | p < |w'.stack| && Edge(f, w'.stack[p], v)
      ensures Settled(w', p, v) || Waiting(w', p, v)
    {
      assert w.stack[p] == w'.stack[p];
      assert Settled(w, p, v) || Waiting(w, p, v);
      hide EdgesHandled;
      if Settled(w, p, v) { EmitSettled(w, p, v); } else { EmitWaiting(w, p, v); }
    }
  }

  lemma EmitSettled<N(!new)>(w: Walk<N>, p: nat, v: N)
    requires |w.pos| > 0 && |w.rest| == |w.pos| && w.bounds != [] && p < w.pos[|w.pos| - 1] < |w.stack| && Settled(w, p, v)
    ensures Settled(Emitted(w), p, v)
  {
    var w', top := Emitted(w), w.pos[|w.pos| - 1];
    if v !in w.finished {
      var q: nat :| q < |w.stack| && w.stack[q] == v && (q >= p || !Parted(w.bounds, q, p));
      if q >= top {
        assert w.stack[top..][q - top] == v;
      } else {
        assert w'.stack[q] == v;
        if q < p { FewerBounds(w.bounds, q, p); }
      }
    }
  }

  lemma EmitWaiting<N(!new)>(w: Walk<N>, p: nat, v: N)
    requires |w.pos| > 0 && |w.rest| == |w.pos| && w.bounds != [] && p < w.pos[|w.pos| - 1] < |w.stack| && w.next == []
    requires Waiting(w, p, v)
    ensures Waiting(Emitted(w), p, v)
  {
    var w' := Emitted(w);
    var i :| 0 <= i < |w.pos| && i < |w.rest| && w.pos[i] == p && v in w.rest[i];
    assert w'.pos[i] == p && w'.rest[i] == w.rest[i];
  }

  lemma FewerBounds(bounds: seq<nat>, p: nat, q: nat)
    requires bounds != [] && !Parted(bounds, p, q)
    ensures !Parted(bounds[..|bounds| - 1], p, q)
  {
    var less := bounds[..|bounds| - 1];
    assert forall k :: 0 <= k < |less| ==> less[k] == bounds[k];
  }

  lemma EmitFound<N(!new)>(f: Flow<N>, nodes: set<N>, w: Walk<N>, sccs: seq<set<N>>)
    requires Emits(f, nodes, w) && Found(f, w.finished, sccs)
    ensures Found(f, Emitted(w).finished, sccs + [Members(w.stack[w.pos[|w.pos| - 1]..])])
  {
    hide Emits, Reach, IsClass;
    var c := EmittedSet(f, nodes, w);
    var all := w.finished + c;
    var sccs' := sccs + [c];
    EmitClosed(f, nodes, w);
    EmitClass(f, nodes, w);
    forall v | v in all
      ensures exists i :: 0 <= i < |sccs'| && v in sccs'[i]
    {
      if v in c {
        assert sccs'[|sccs|] == c;
      } else {
        var i :| 0 <= i < |sccs| && v in sccs[i];
        assert sccs'[i] == sccs[i];
      }
    }
    forall i, j, a, b | 0 <= i < j < |sccs'| && a in sccs'[i] && b in sccs'[j]
      ensures !Reach(f, a, b)
    {
      if j == |sccs| && Reach(f, a, b) { ReachFrom(f, w.finished, a, b); }
    }
  }

  ghost function EmittedSet<N(!new)>(f: Flow<N>, nodes: set<N>, w: Walk<N>): (c: set<N>)
    requires Emits(f, nodes, w)
    ensures c == Members(w.stack[w.pos[|w.pos| - 1]..]) && Emitted(w).finished == w.finished + c
  {
    Members(w.stack[w.pos[|w.pos| - 1]..])
  }

  // ----- the explicit stack -----

  datatype Phase = VisitNode | HandleRecursion | MergeNode

  datatype Entry<N> = Entry(state: Phase, node: N)

  function Handles<N>(ws: seq<N>): (r: seq<Entry<N>>) {
    seq(|ws|, i requires 0 <= i < |ws| => Entry(HandleRecursion, ws[i]))
  }

  /** What is left to do: for each open node, leaving it once its successors are handled. */
  ghost function Frames<N>(stack: seq<N>, pos: seq<nat>, rest: seq<seq<N>>): (r: seq<Entry<N>>)
    requires |rest| == |pos| && forall i :: 0 <= i < |pos| ==> pos[i] < |stack|
  {
    if pos == [] then []
    else
      var k := |pos| - 1;
      Frames(stack, pos[..k], rest[..k]) + [Entry(MergeNode, stack[pos[k]])] + Handles(rest[k])
  }

  ghost function TodoOf<N>(w: Walk<N>): (r: seq<Entry<N>>)
    requires Layout(w)
  {
    Frames(w.stack, w.pos, w.rest) + if w.next == [] then [] else [Entry(VisitNode, w.next[0])]
  }

  lemma {:induction false} FramesStack<N>(stack: seq<N>, stack': seq<N>, pos: seq<nat>, rest: seq<seq<N>>)
    requires |rest| == |pos| && forall i :: 0 <= i < |pos| ==> pos[i] < |stack| && pos[i] < |stack'| && stack[pos[i]] == stack'[pos[i]]
    ensures Frames(stack, pos, rest) == Frames(stack', pos, rest)
    decreases |pos|
  {
    if pos != [] {
      var k := |pos| - 1;
      FramesStack(stack, stack', pos[..k], rest[..k]);
    }
  }

  lemma HandlesLast<N>(ws: seq<N>)
    requires ws != []
    ensures Handles(ws) == Handles(ws[..|ws| - 1]) + [Entry(HandleRecursion, ws[|ws| - 1])]
  {}

  /** After the visit of a node, the walk leaves it after its successors. */
  lemma TodoVisited<N(!new)>(f: Flow<N>, w: Walk<N>)
    requires |w.next| == 1 && Layout(w) && Layout(Visited(f, w))
    ensures TodoOf(Visited(f, w)) == Frames(w.stack, w.pos, w.rest) + [Entry(MergeNode, w.next[0])] + Handles(Next(f, w.next[0]))
    ensures TodoOf(w) == Frames(w.stack, w.pos, w.rest) + [Entry(VisitNode, w.next[0])]
  {
    var w', k := Visited(f, w), |w.pos|;
    assert w'.pos[..k] == w.pos && w'.rest[..k] == w.rest;
    FramesStack(w.stack, w'.stack, w.pos, w.rest);
  }

  lemma TodoHandled<N(!new)>(w: Walk<N>, bounds': seq<nat>, next: seq<N>)
    requires Layout(w) && |w.rest| > 0 && w.rest[|w.rest| - 1] != [] && w.next == [] && Layout(Handled(w, bounds', next))
    ensures var ws := w.rest[|w.rest| - 1];
      TodoOf(w) == Frames(w.stack, w.pos, Handled(w, bounds', next).rest) + [Entry(HandleRecursion, ws[|ws| - 1])]
  {
    var k := |w.rest| - 1;
    var w' := Handled(w, bounds', next);
    HandlesLast(w.rest[k]);
    assert w'.rest[..k] == w.rest[..k];
    var head := Frames(w.stack, w.pos[..k], w.rest[..k]) + [Entry(MergeNode, w.stack[w.pos[k]])];
    assert Frames(w.stack, w.pos, w.rest) == head + Handles(w.rest[k]);
    assert Frames(w.stack, w.pos, w'.rest) == head + Handles(w'.rest[k]);
  }

  lemma TodoLeft<N(!new)>(w: Walk<N>, w': Walk<N>)
    requires Layout(w) && |w.pos| > 0 && w.rest[|w.rest| - 1] == [] && w.next == [] && Layout(w')
    requires w'.pos == w.pos[..|w.pos| - 1] && w'.rest == w.rest[..|w.rest| - 1] && w'.next == []
    requires w'.stack <= w.stack
    ensures TodoOf(w) == TodoOf(w') + [Entry(MergeNode, w.stack[w.pos[|w.pos| - 1]])]
  {
    FramesStack(w.stack, w'.stack, w'.pos, w'.rest);
    assert Handles<N>([]) == [];
  }

  lemma TodoEmpty<N(!new)>(w: Walk<N>)
    requires Layout(w) && TodoOf(w) == []
    ensures w.stack == [] && w.next == []
  {}

  // ----- the whole state -----

  /** The walk as a value is what the program's variables hold, and the components so far are right. */
  ghost predicate WalkInv<N(!new)>(f: Flow<N>, nodes: set<N>, w: Walk<N>, sccs: seq<set<N>>) {
    && Shape(nodes, w) && Layout(w) && Connected(f, w) && EdgesHandled(f, w) && RestOk(f, w)
    && Found(f, w.finished, sccs)
  }

  /** What is left to handle are edges of the graph. */
  ghost predicate RestOk<N(!new)>(f: Flow<N>, w: Walk<N>)
    requires Layout(w)
  {
    && (forall i, y :: 0 <= i < |w.pos| && y in w.rest[i] ==> Edge(f, w.stack[w.pos[i]], y))
    && (w.pos != [] ==> forall y :: y in w.next ==> Edge(f, w.stack[w.pos[|w.pos| - 1]], y))
  }

  ghost predicate Indexed<N(!new)>(nodes: set<N>, w: Walk<N>, index: map<N, nat>, counter: nat) {
    && index.Keys == nodes && counter >= |nodes|
    && (forall p :: 0 <= p < |w.stack| ==> w.stack[p] in index && index[w.stack[p]] == p + 1)
    && (forall v :: v in w.finished ==> v in index && index[v] > |nodes|)
    && (forall v :: v in nodes && v !in w.stack && v !in w.finished ==> index[v] == 0)
  }

  lemma {:induction false} DistinctBelow<N(!new)>(s: seq<N>, nodes: set<N>)
    requires NoDuplicates(s) && forall v :: v in s ==> v in nodes
    ensures |s| <= |nodes|
  {
    if s != [] {
      var last, t := s[|s| - 1], s[..|s| - 1];
      forall v | v in t
        ensures v in nodes - {last}
      {
      }
      DistinctBelow(t, nodes - {last});
    }
  }

  lemma VisitInv<N(!new)>(f: Flow<N>, nodes: set<N>, w: Walk<N>, sccs: seq<set<N>>)
    requires WalkInv(f, nodes, w, sccs) && |w.next| == 1
    ensures WalkInv(f, nodes, Visited(f, w), sccs) && Layout(w) && Layout(Visited(f, w))
  {
    hide Shape, Connected, EdgesHandled, Found;
    VisitShape(f, nodes, w);
    VisitLayout(f, w);
    assert w.next[0] in w.next;
    VisitConnected(f, w);
    VisitEdges(f, w);
    var w' := Visited(f, w);
    forall i, y | 0 <= i < |w'.pos| && y in w'.rest[i]
      ensures Edge(f, w'.stack[w'.pos[i]], y)
    {
      if i < |w.pos| { assert w'.pos[i] == w.pos[i] && w'.rest[i] == w.rest[i]; }
    }
  }

  lemma HandleInv<N(!new)>(
    f: Flow<N>, nodes: set<N>, w: Walk<N>, sccs: seq<set<N>>, bounds': seq<nat>, next: seq<N>, q: nat, y: N)
    requires WalkInv(f, nodes, w, sccs) && Layout(w)
    requires |w.rest| > 0 && w.rest[|w.rest| - 1] != [] && w.next == [] && Contracted(w.bounds, bounds', q)
    requires y == w.rest[|w.rest| - 1][|w.rest[|w.rest| - 1]| - 1]
    requires (next == [y] && y in nodes && y !in w.stack && y !in w.finished) || (next == [] && (y in w.finished || (q < |w.stack| && w.stack[q] == y)))
    requires next != [] || y in w.finished ==> bounds' == w.bounds
    ensures WalkInv(f, nodes, Handled(w, bounds', next), sccs) && Layout(Handled(w, bounds', next))
  {
    hide Shape, Connected, EdgesHandled, Found;
    var k := |w.rest| - 1;
    var w' := Handled(w, bounds', next);
    HandleLayout(nodes, w, bounds', next, q);
    assert y in w.rest[k] && Edge(f, w.stack[w.pos[k]], y);
    if next == [] && y !in w.finished {
      ContractConnected(f, w, bounds', q);
    }
    SameConnected(f, w.(bounds := bounds'), w');
    HandleEdges(f, w, bounds', next, q, y);
    forall i, v | 0 <= i < |w'.pos| && v in w'.rest[i]
      ensures Edge(f, w'.stack[w'.pos[i]], v)
    {
      assert v in w.rest[i];
    }
  }

  lemma SameConnected<N(!new)>(f: Flow<N>, w: Walk<N>, w': Walk<N>)
    requires w'.stack == w.stack && w'.bounds == w.bounds
    ensures Connected(f, w) <==> Connected(f, w')
  {}

  lemma LeaveInv<N(!new)>(f: Flow<N>, nodes: set<N>, w: Walk<N>, sccs: seq<set<N>>)
    requires WalkInv(f, nodes, w, sccs) && Layout(w) && w.next == [] && |w.pos| > 0 && w.rest[|w.rest| - 1] == []
    requires w.bounds != [] && w.bounds[|w.bounds| - 1] != w.pos[|w.pos| - 1] + 1
    ensures WalkInv(f, nodes, Left(w), sccs) && Layout(Left(w))
  {
    hide Shape, Connected, EdgesHandled, Found;
    LeaveLayout(nodes, w);
    LeaveEdges(f, w);
    var w' := Left(w);
    assert RestOk(f, w');
  }

  lemma EmitInv<N(!new)>(f: Flow<N>, nodes: set<N>, w: Walk<N>, sccs: seq<set<N>>)
    requires WalkInv(f, nodes, w, sccs) && Layout(w) && w.next == [] && |w.pos| > 0 && w.rest[|w.rest| - 1] == []
    requires w.bounds != [] && w.bounds[|w.bounds| - 1] == w.pos[|w.pos| - 1] + 1
    ensures WalkInv(f, nodes, Emitted(w), sccs + [Members(w.stack[w.pos[|w.pos| - 1]..])]) && Layout(Emitted(w))
  {
    hide Shape, Connected, EdgesHandled, Found;
    assert Emits(f, nodes, w);
    EmitShape(f, nodes, w);
    EmitLayout(f, nodes, w);
    EmitConnected(f, nodes, w);
    EmitEdges(f, nodes, w);
    EmitFound(f, nodes, w, sccs);
    var w' := Emitted(w);
    forall i, y | 0 <= i < |w'.pos| && y in w'.rest[i]
      ensures Edge(f, w'.stack[w'.pos[i]], y)
    {
      assert w'.pos[i] == w.pos[i] && w'.rest[i] == w.rest[i];
    }
  }

  // ----- the method -----

  /** Segments starting above index i are merged into the one below. */
  method Contract(boundaries: seq<nat>, i: nat) returns (r: seq<nat>)
    requires Increasing(boundaries) && boundaries != [] && boundaries[0] == 1 && i >= 1
    ensures Contracted(boundaries, r, i - 1) && r != []
  {
    r := boundaries;
    while i < r[|r| - 1]
      invariant r <= boundaries && r != [] && forall k :: |r| <= k < |boundaries| ==> boundaries[k] > i
      decreases |r|
    {
      r := r[..|r| - 1];
    }
  }

  /** Pops the segment of v off the stack. */
  method PopComponent<N(==,!new)>(stack0: seq<N>, index0: map<N, nat>, v: N, counter: nat, ghost p: nat)
      returns (stack: seq<N>, index: map<N, nat>, scc: set<N>)
    requires NoDuplicates(stack0) && p < |stack0| && stack0[p] == v && counter > |stack0|
    requires (forall x :: x in stack0 ==> x in index0) && index0[v] == p + 1
    ensures stack == stack0[..p] && scc == Members(stack0[p..])
    ensures index.Keys == index0.Keys && forall x :: x in index0 ==> index[x] == if x in scc then counter else index0[x]
  {
    stack, index, scc := stack0, index0, {};
    while index[v] <= |stack|
      invariant p <= |stack| <= |stack0| && stack == stack0[..|stack|] && v in index
      invariant index.Keys == index0.Keys && index[v] == if |stack| > p then p + 1 else counter
      invariant scc == Members(stack0[|stack|..])
      invariant forall x :: x in index0 ==> index[x] == if x in scc then counter else index0[x]
      decreases |stack|
    {
      var popped := stack[|stack| - 1];
      ghost var n := |stack| - 1;
      assert popped == stack0[n] && stack0[n..] == [popped] + stack0[n + 1..];
      stack := stack[..|stack| - 1];
      index := index[popped := counter];
      scc := scc + {popped};
      assert n > p ==> stack0[n] != stack0[p];
    }
  }

  ghost predicate MachineInv<N(!new)>(
    f: Flow<N>, nodes: set<N>, w: Walk<N>, sccs: seq<set<N>>, todo: seq<Entry<N>>, index: map<N, nat>, counter: nat, done: set<N>)
  {
    WalkInv(f, nodes, w, sccs) && Layout(w) && todo == TodoOf(w) && Indexed(nodes, w, index, counter) && done <= w.finished
  }

  lemma IndexVisited<N(!new)>(f: Flow<N>, nodes: set<N>, w: Walk<N>, index: map<N, nat>, counter: nat)
    requires Indexed(nodes, w, index, counter) && Shape(nodes, w) && |w.next| == 1
    ensures Indexed(nodes, Visited(f, w), index[w.next[0] := |w.stack| + 1], counter)
  {
    var x := w.next[0];
    assert x in w.next;
    forall p | 0 <= p < |w.stack|
      ensures w.stack[p] != x
    {
      assert w.stack[p] in w.stack;
    }
  }

  lemma IndexEmitted<N(!new)>(nodes: set<N>, w: Walk<N>, index: map<N, nat>, index': map<N, nat>, counter: nat, scc: set<N>)
    requires Indexed(nodes, w, index, counter) && Shape(nodes, w) && Layout(w) && w.pos != [] && w.bounds != [] && w.next == []
    requires scc == Members(w.stack[w.pos[|w.pos| - 1]..]) && index'.Keys == index.Keys
    requires forall x :: x in index ==> index'[x] == if x in scc then counter + 1 else index[x]
    ensures Indexed(nodes, Emitted(w), index', counter + 1)
  {
    var w', top := Emitted(w), w.pos[|w.pos| - 1];
    EmittedParts(nodes, w, scc);
    hide Layout, Emitted;
    forall p | 0 <= p < |w'.stack|
      ensures w'.stack[p] in index' && index'[w'.stack[p]] == p + 1
    {
      assert w'.stack[p] == w.stack[p];
    }
  }

  /** What leaves the stack is finished, and nothing else changes. */
  lemma EmittedParts<N(!new)>(nodes: set<N>, w: Walk<N>, scc: set<N>)
    requires Shape(nodes, w) && Layout(w) && w.pos != [] && w.bounds != [] && w.next == []
    requires scc == Members(w.stack[w.pos[|w.pos| - 1]..])
    ensures w.pos[|w.pos| - 1] < |w.stack| && Emitted(w).stack == w.stack[..w.pos[|w.pos| - 1]]
    ensures Emitted(w).finished == w.finished + scc
    ensures forall v :: v in w.stack <==> v in Emitted(w).stack || v in scc
    ensures forall v :: v in scc ==> v !in Emitted(w).stack
  {
    var top := w.pos[|w.pos| - 1];
    assert w.stack == w.stack[..top] + w.stack[top..];
  }

  lemma TodoTop<N(!new)>(w: Walk<N>)
    requires Layout(w) && TodoOf(w) != []
    ensures w.next == [] ==> w.pos != []
    ensures var top := TodoOf(w)[|TodoOf(w)| - 1];
      if w.next != [] then top == Entry(VisitNode, w.next[0])
      else if w.rest[|w.rest| - 1] != [] then
        top == Entry(HandleRecursion, w.rest[|w.rest| - 1][|w.rest[|w.rest| - 1]| - 1])
      else top == Entry(MergeNode, w.stack[w.pos[|w.pos| - 1]])
  {
    if w.next == [] && w.rest[|w.rest| - 1] != [] {
      HandlesLast(w.rest[|w.rest| - 1]);
    }
  }

  lemma StackSmall<N(!new)>(f: Flow<N>, nodes: set<N>, w: Walk<N>, sccs: seq<set<N>>)
    requires WalkInv(f, nodes, w, sccs)
    ensures |w.stack| <= |nodes| && Shape(nodes, w)
    ensures forall k :: 0 <= k < |w.bounds| ==> 1 <= w.bounds[k] <= |w.stack|
  {
    hide Connected, EdgesHandled, Found;
    DistinctBelow(w.stack, nodes);
    forall k | 0 <= k < |w.bounds|
      ensures 1 <= w.bounds[k] <= |w.stack|
    {
      var i :| 0 <= i < |w.pos| && w.pos[i] == w.bounds[k] - 1;
    }
  }

  /** The top of the walk is a visit. */
  lemma StepVisit<N(!new)>(
    f: Flow<N>, nodes: set<N>, w: Walk<N>, sccs: seq<set<N>>, todo: seq<Entry<N>>, index: map<N, nat>, counter: nat, done: set<N>)
    requires MachineInv(f, nodes, w, sccs, todo, index, counter, done) && |w.next| == 1
    ensures |todo| > 0 && w.next[0] in nodes && w.next[0] !in w.finished && w.next[0] !in w.stack
    ensures MachineInv(
      f, nodes, Visited(f, w), sccs, todo[..|todo| - 1] + [Entry(MergeNode, w.next[0])] + Handles(Next(f, w.next[0])),
      index[w.next[0] := |w.stack| + 1], counter, done)
  {
    hide WalkInv, Shape, Indexed;
    StackSmall(f, nodes, w, sccs);
    VisitInv(f, nodes, w, sccs);
    TodoVisited(f, w);
    IndexVisited(f, nodes, w, index, counter);
    NextNew(nodes, w);
    var frames := Frames(w.stack, w.pos, w.rest);
    assert todo[..|todo| - 1] == frames;
  }

  lemma NextNew<N(!new)>(nodes: set<N>, w: Walk<N>)
    requires Shape(nodes, w) && |w.next| == 1
    ensures w.next[0] in nodes && w.next[0] !in w.finished && w.next[0] !in w.stack
  {
    assert w.next[0] in w.next;
  }

  /** The top of the walk is an edge to y; bounds and next are what handling it leaves. */
  lemma StepHandle<N(!new)>(
    f: Flow<N>, nodes: set<N>, w: Walk<N>, sccs: seq<set<N>>, todo: seq<Entry<N>>, index: map<N, nat>, counter: nat, done: set<N>,
    bounds': seq<nat>, next: seq<N>, q: nat, y: N)
    requires MachineInv(f, nodes, w, sccs, todo, index, counter, done)
    requires |w.rest| > 0 && w.rest[|w.rest| - 1] != [] && w.next == [] && Contracted(w.bounds, bounds', q)
    requires y == w.rest[|w.rest| - 1][|w.rest[|w.rest| - 1]| - 1]
    requires (next == [y] && y in nodes && y !in w.stack && y !in w.finished) || (next == [] && (y in w.finished || (q < |w.stack| && w.stack[q] == y)))
    requires next != [] || y in w.finished ==> bounds' == w.bounds
    ensures |todo| > 0
    ensures MachineInv(
      f, nodes, Handled(w, bounds', next), sccs,
      if next == [] then todo[..|todo| - 1] else todo[..|todo| - 1] + [Entry(VisitNode, y)], index, counter, done)
    ensures Known(Handled(w, bounds', next)) == Known(w)
  {
    hide WalkInv, Contracted;
    HandleInv(f, nodes, w, sccs, bounds', next, q, y);
    TodoHandled(w, bounds', next);
    var frames := Frames(w.stack, w.pos, Handled(w, bounds', next).rest);
    assert todo[..|todo| - 1] == frames;
  }

  lemma StepLeave<N(!new)>(
    f: Flow<N>, nodes: set<N>, w: Walk<N>, sccs: seq<set<N>>, todo: seq<Entry<N>>, index: map<N, nat>, counter: nat, done: set<N>)
    requires MachineInv(f, nodes, w, sccs, todo, index, counter, done) && w.next == [] && |w.pos| > 0 && |w.rest| == |w.pos|
    requires w.rest[|w.rest| - 1] == [] && w.bounds != [] && w.bounds[|w.bounds| - 1] != w.pos[|w.pos| - 1] + 1
    ensures |todo| > 0 && MachineInv(f, nodes, Left(w), sccs, todo[..|todo| - 1], index, counter, done)
    ensures Known(Left(w)) == Known(w)
  {
    hide WalkInv, Layout;
    LeaveInv(f, nodes, w, sccs);
    TodoLeft(w, Left(w));
    assert todo[..|todo| - 1] == TodoOf(Left(w));
  }

  lemma StepEmit<N(!new)>(
    f: Flow<N>, nodes: set<N>, w: Walk<N>, sccs: seq<set<N>>, todo: seq<Entry<N>>, index: map<N, nat>, index': map<N, nat>,
    counter: nat, done: set<N>, scc: set<N>)
    requires MachineInv(f, nodes, w, sccs, todo, index, counter, done) && w.next == [] && |w.pos| > 0 && |w.rest| == |w.pos|
    requires w.rest[|w.rest| - 1] == [] && w.bounds != [] && w.bounds[|w.bounds| - 1] == w.pos[|w.pos| - 1] + 1
    requires w.pos[|w.pos| - 1] < |w.stack| && scc == Members(w.stack[w.pos[|w.pos| - 1]..]) && index'.Keys == index.Keys
    requires forall x :: x in index ==> index'[x] == if x in scc then counter + 1 else index[x]
    ensures |todo| > 0 && w.stack[w.pos[|w.pos| - 1]] in scc
    ensures MachineInv(
      f, nodes, Emitted(w), sccs + [scc], todo[..|todo| - 1], index', counter + 1, done + {w.stack[w.pos[|w.pos| - 1]]})
  {
    hide WalkInv, Layout, Indexed, Shape;
    EmitInv(f, nodes, w, sccs);
    StackSmall(f, nodes, w, sccs);
    TodoLeft(w, Emitted(w));
    IndexEmitted(nodes, w, index, index', counter, scc);
    assert todo[..|todo| - 1] == TodoOf(Emitted(w));
    assert w.stack[w.pos[|w.pos| - 1]..][0] in scc;
  }

  /** All nodes met so far are in components. */
  ghost predicate Rested<N(!new)>(f: Flow<N>, nodes: set<N>, finished: set<N>, sccs: seq<set<N>>, index: map<N, nat>, counter: nat) {
    && finished <= nodes && Found(f, finished, sccs)
    && index.Keys == nodes && counter >= |nodes|
    && (forall v :: v in nodes ==> if v in finished then index[v] > |nodes| else index[v] == 0)
  }

  lemma StartMachine<N(!new)>(
    f: Flow<N>, nodes: set<N>, finished: set<N>, sccs: seq<set<N>>, index: map<N, nat>, counter: nat, node: N)
    requires Rested(f, nodes, finished, sccs, index, counter) && node in nodes && node !in finished
    ensures MachineInv(f, nodes, Walk([], [], [], [], finished, [node]), sccs, [Entry(VisitNode, node)], index, counter, {})
  {
    hide Found;
  }

  lemma EndMachine<N(!new)>(
    f: Flow<N>, nodes: set<N>, w: Walk<N>, sccs: seq<set<N>>, index: map<N, nat>, counter: nat, done: set<N>)
    requires MachineInv(f, nodes, w, sccs, [], index, counter, done)
    ensures Rested(f, nodes, w.finished, sccs, index, counter) && w.stack == [] && w.bounds == [] && w.next == []
  {
    hide Found, Connected, EdgesHandled;
    TodoEmpty(w);
  }

  ghost function Known<N>(w: Walk<N>): (r: set<N>) {
    w.finished + Members(w.stack)
  }

  /** What is on top of the list, in terms of the walk. */
  lemma MachineTop<N(!new)>(
    f: Flow<N>, nodes: set<N>, w: Walk<N>, sccs: seq<set<N>>, todo: seq<Entry<N>>, index: map<N, nat>, counter: nat, done: set<N>)
    requires MachineInv(f, nodes, w, sccs, todo, index, counter, done) && todo != []
    ensures |w.rest| == |w.pos| && |w.next| <= 1 && index.Keys == nodes
    ensures w.next != [] ==> todo[|todo| - 1] == Entry(VisitNode, w.next[0]) && w.next[0] !in done
    ensures w.next == [] ==> |w.pos| > 0 && w.pos[|w.pos| - 1] < |w.stack| && w.bounds != [] && Increasing(w.bounds) && w.bounds[0] == 1
    ensures w.next == [] && w.rest[|w.rest| - 1] != [] ==>
      todo[|todo| - 1] == Entry(HandleRecursion, w.rest[|w.rest| - 1][|w.rest[|w.rest| - 1]| - 1])
    ensures w.next == [] && w.rest[|w.rest| - 1] == [] ==>
      todo[|todo| - 1] == Entry(MergeNode, w.stack[w.pos[|w.pos| - 1]]) && w.stack[w.pos[|w.pos| - 1]] !in done
  {
    hide Connected, EdgesHandled, Found, TodoOf, RestOk;
    TodoTop(w);
    StackSmall(f, nodes, w, sccs);
    if w.next != [] { NextNew(nodes, w); }
    if w.next == [] && w.rest[|w.rest| - 1] == [] { assert w.stack[w.pos[|w.pos| - 1]] in w.stack; }
  }

  /** The successor on top of the list is a node, and its index says where it is. */
  lemma HandleFacts<N(!new)>(
    f: Flow<N>, nodes: set<N>, w: Walk<N>, sccs: seq<set<N>>, todo: seq<Entry<N>>, index: map<N, nat>, counter: nat, done: set<N>, y: N)
    requires MachineInv(f, nodes, w, sccs, todo, index, counter, done) && (forall a, b :: a in nodes && Edge(f, a, b) ==> b in nodes)
    requires |w.rest| == |w.pos| > 0 && w.rest[|w.rest| - 1] != [] && w.next == []
    requires y == w.rest[|w.rest| - 1][|w.rest[|w.rest| - 1]| - 1]
    ensures y in nodes && y in index && (y in done ==> y in w.finished)
    ensures index[y] == 0 ==> y !in w.stack && y !in w.finished
    ensures index[y] != 0 && y !in w.finished ==> index[y] <= |w.stack| && w.stack[index[y] - 1] == y
    ensures y in w.finished ==> index[y] > |w.stack|
    ensures Contracted(w.bounds, w.bounds, |w.stack|)
    ensures forall k :: 0 <= k < |w.bounds| ==> w.bounds[k] <= |w.stack|
  {
    hide Connected, EdgesHandled, Found, TodoOf;
    StackSmall(f, nodes, w, sccs);
    var k := |w.rest| - 1;
    assert y in w.rest[k];
    assert w.stack[w.pos[k]] in w.stack;
    assert Edge(f, w.stack[w.pos[k]], y);
    if y in w.stack { var p :| 0 <= p < |w.stack| && w.stack[p] == y; }
  }

  lemma ContractFacts<N>(w: Walk<N>, bounds': seq<nat>, i: nat)
    requires i >= 1 && Contracted(w.bounds, bounds', i - 1) && forall k :: 0 <= k < |w.bounds| ==> w.bounds[k] <= |w.stack|
    ensures i > |w.stack| ==> bounds' == w.bounds
  {
    assert |bounds'| < |w.bounds| ==> w.bounds[|bounds'|] - 1 > i - 1;
  }

  lemma MergeFacts<N(!new)>(
    f: Flow<N>, nodes: set<N>, w: Walk<N>, sccs: seq<set<N>>, todo: seq<Entry<N>>, index: map<N, nat>, counter: nat, done: set<N>)
    requires MachineInv(f, nodes, w, sccs, todo, index, counter, done) && w.pos != [] && w.pos[|w.pos| - 1] < |w.stack|
    ensures NoDuplicates(w.stack) && |w.stack| <= counter && forall x :: x in w.stack ==> x in index
    ensures w.stack[w.pos[|w.pos| - 1]] in index && index[w.stack[w.pos[|w.pos| - 1]]] == w.pos[|w.pos| - 1] + 1
  {
    hide Connected, EdgesHandled, Found, TodoOf, RestOk, Layout;
    StackSmall(f, nodes, w, sccs);
  }

  lemma KnownVisited<N(!new)>(f: Flow<N>, nodes: set<N>, w: Walk<N>)
    requires |w.next| == 1 && w.next[0] in nodes && w.next[0] !in w.finished && w.next[0] !in w.stack
    ensures Known(Visited(f, w)) == Known(w) + {w.next[0]}
    ensures w.next[0] in nodes - Known(w)
  {}

  lemma KnownEnd<N(!new)>(w: Walk<N>)
    requires w.stack == [] && w.next == []
    ensures Known(w) == w.finished
  {}

  lemma KnownEmitted<N(!new)>(w: Walk<N>)
    requires |w.pos| > 0 && |w.rest| == |w.pos| && w.bounds != [] && w.pos[|w.pos| - 1] <= |w.stack|
    ensures Known(Emitted(w)) == Known(w)
  {
    var top := w.pos[|w.pos| - 1];
    assert w.stack == w.stack[..top] + w.stack[top..];
  }

  /** The components of the nodes found from one of them. */
  method Explore<N(==,!new)>(
    f: Flow<N>, nodes: set<N>, node: N, index0: map<N, nat>, counter0: nat, sccs0: seq<set<N>>, ghost finished0: set<N>)
      returns (index: map<N, nat>, counter: nat, sccs: seq<set<N>>, ghost finished: set<N>)
    requires forall a, b :: a in nodes && Edge(f, a, b) ==> b in nodes
    requires Rested(f, nodes, finished0, sccs0, index0, counter0) && node in nodes && node !in finished0
    ensures Rested(f, nodes, finished, sccs, index, counter) && finished0 <= finished && node in finished
  {
    hide WalkInv, Layout, Indexed, MachineInv, Rested, Contracted, TodoOf, Known, Members, NoDuplicates;
    index, counter, sccs := index0, counter0, sccs0;
    var stack: seq<N> := [];
    var boundaries: seq<nat> := [];
    var todo := [Entry(VisitNode, node)];
    var done: set<N> := {};
    ghost var w := Walk([], [], [], [], finished0, [node]);
    StartMachine(f, nodes, finished0, sccs0, index0, counter0, node);
    while todo != []
      invariant MachineInv(f, nodes, w, sccs, todo, index, counter, done) && stack == w.stack && boundaries == w.bounds
      invariant finished0 <= w.finished && (node in Known(w) || node in w.next) && |w.next| <= 1
      decreases nodes - Known(w), |todo|, w.next == []
    {
      MachineTop(f, nodes, w, sccs, todo, index, counter, done);
      var current := todo[|todo| - 1];
      if w.next == [] && w.rest[|w.rest| - 1] != [] {
        HandleFacts(f, nodes, w, sccs, todo, index, counter, done, current.node);
      }
      if current.node in done {
        // a component has been made of it
        StepHandle(f, nodes, w, sccs, todo, index, counter, done, w.bounds, [], |w.stack|, current.node);
        w := Handled(w, w.bounds, []);
        todo := todo[..|todo| - 1];
        continue;
      }
      match current.state
      case VisitNode =>
        StepVisit(f, nodes, w, sccs, todo, index, counter, done);
        KnownVisited(f, nodes, w);
        stack := stack + [current.node];
        index := index[current.node := |stack|];
        boundaries := boundaries + [index[current.node]];
        todo := todo[..|todo| - 1] + [Entry(MergeNode, current.node)] + Handles(Next(f, current.node));
        w := Visited(f, w);
      case HandleRecursion =>
        if index[current.node] == 0 {
          StepHandle(f, nodes, w, sccs, todo, index, counter, done, w.bounds, [current.node], |w.stack|, current.node);
          w := Handled(w, w.bounds, [current.node]);
          todo := todo[..|todo| - 1] + [Entry(VisitNode, current.node)];
        } else {
          boundaries := Contract(boundaries, index[current.node]);
          ContractFacts(w, boundaries, index[current.node]);
          StepHandle(
            f, nodes, w, sccs, todo, index, counter, done, boundaries, [],
            if current.node in w.finished then |w.stack| else index[current.node] - 1, current.node);
          w := Handled(w, boundaries, []);
          todo := todo[..|todo| - 1];
        }
      case MergeNode =>
        MergeFacts(f, nodes, w, sccs, todo, index, counter, done);
        KnownEmitted(w);
        if index[current.node] == boundaries[|boundaries| - 1] {
          boundaries := boundaries[..|boundaries| - 1];
          counter := counter + 1;
          var index', scc;
          stack, index', scc := PopComponent(stack, index, current.node, counter, w.pos[|w.pos| - 1]);
          StepEmit(f, nodes, w, sccs, todo, index, index', counter - 1, done, scc);
          done := done + {current.node};
          index := index';
          sccs := sccs + [scc];
          w := Emitted(w);
        } else {
          StepLeave(f, nodes, w, sccs, todo, index, counter, done);
          w := Left(w);
        }
        todo := todo[..|todo| - 1];
    }
    EndMachine(f, nodes, w, sccs, index, counter, done);
    KnownEnd(w);
    finished := w.finished;
  }

  /** Partitions the nodes into their classes of mutual reachability, each class after those it reaches. */
  method StronglyConnectedComponents<N(==,!new)>(f: Flow<N>, nodes: set<N>) returns (sccs: seq<set<N>>)
    requires forall a, b :: a in nodes && Edge(f, a, b) ==> b in nodes
    ensures forall i :: 0 <= i < |sccs| ==> IsClass(f, sccs[i]) && sccs[i] <= nodes
    ensures forall v :: v in nodes ==> exists i :: 0 <= i < |sccs| && v in sccs[i]
    ensures forall i, j, a, b :: 0 <= i < j < |sccs| && a in sccs[i] && b in sccs[j] ==> !Reach(f, a, b)
  {
    hide Reach, IsClass;
    sccs := [];
    var counter: nat := |nodes|;
    var index := map v | v in nodes :: 0;
    ghost var finished: set<N> := {};
    var left := nodes;
    while left != {}
      invariant left <= nodes && Rested(f, nodes, finished, sccs, index, counter) && nodes - left <= finished
      decreases left
    {
      var node :| node in left;
      left := left - {node};
      if index[node] != 0 {
        continue;
      }
      index, counter, sccs, finished := Explore(f, nodes, node, index, counter, sccs, finished);
    }
    assert finished == nodes;
  }
}
