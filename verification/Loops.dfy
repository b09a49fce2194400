/**
 The cycle test (miasm/core/graph.py, has_loop): one list serves as the stack of a depth-first
 walk, so a node may be listed several times and be met again while it is still open.
 */
module Loops {
  import opened Paths
  import opened Dominators

  ghost predicate HasCycle<N(!new)>(f: Flow<N>) {
    exists a, b :: Edge(f, a, b) && Reach(f, b, a)
  }

  /** Open nodes form a path; above each, on the list, are successors still to look at. */
  ghost predicate OpenPath<N(!new)>(f: Flow<N>, path: seq<N>, rest: seq<seq<N>>) {
    && |rest| == |path| && NoDuplicates(path)
    && (forall i, j :: 0 <= i < |path| - 1 && j == i + 1 ==> Edge(f, path[i], path[j]))
    && (forall i, y :: 0 <= i < |path| && y in rest[i] ==> Edge(f, path[i], y))
  }

  /** Every successor of an open node is finished, listed above it, or the next open node. */
  ghost predicate Looked<N(!new)>(f: Flow<N>, path: seq<N>, rest: seq<seq<N>>, order: seq<N>) {
    forall i, y :: 0 <= i < |path| && i < |rest| && Edge(f, path[i], y) ==> LookedAt(path, rest, order, i, y)
  }

  ghost predicate LookedAt<N>(path: seq<N>, rest: seq<seq<N>>, order: seq<N>, i: nat, y: N) {
    y in order || (i < |rest| && y in rest[i]) || (i + 1 < |path| && y == path[i + 1])
  }

  /** Finished nodes, each after all its successors. */
  ghost predicate Finished<N(!new)>(f: Flow<N>, order: seq<N>) {
    NoDuplicates(order) && forall i, y :: 0 <= i < |order| && Edge(f, order[i], y) ==> y in order[..i]
  }

  ghost function Frames<N>(path: seq<N>, rest: seq<seq<N>>): (r: seq<N>)
    requires |rest| == |path|
  {
    if path == [] then []
    else
      var k := |path| - 1;
      Frames(path[..k], rest[..k]) + [path[k]] + rest[k]
  }

  // ----- cycles -----

  lemma PathReaches<N(!new)>(f: Flow<N>, path: seq<N>, rest: seq<seq<N>>, j: nat)
    requires OpenPath(f, path, rest) && j < |path|
    ensures Reach(f, path[j], path[|path| - 1])
  {
    var p := path[j..];
    forall i | 0 <= i < |p| - 1
      ensures Edge(f, p[i], p[i + 1])
    {
      assert Edge(f, path[j + i], path[j + i + 1]);
    }
    assert Between(f, p, path[j], path[|path| - 1]);
  }

  /** An edge from the top open node to an open node closes a cycle. */
  lemma BackEdge<N(!new)>(f: Flow<N>, path: seq<N>, rest: seq<seq<N>>, y: N)
    requires OpenPath(f, path, rest) && path != [] && y in path && Edge(f, path[|path| - 1], y)
    ensures HasCycle(f)
  {
    var j :| 0 <= j < |path| && path[j] == y;
    PathReaches(f, path, rest, j);
  }

  /** A node met again while open has a successor that is open. */
  lemma OpenSuccessor<N(!new)>(f: Flow<N>, path: seq<N>, rest: seq<seq<N>>, y: N)
    requires OpenPath(f, path, rest) && path != [] && y in path && Edge(f, path[|path| - 1], y)
    ensures exists z :: z in Next(f, y) && z in path
  {
    var j :| 0 <= j < |path| && path[j] == y;
    if j < |path| - 1 {
      assert Edge(f, path[j], path[j + 1]);
      assert path[j + 1] in Next(f, y) && path[j + 1] in path;
    }
  }

  /** Going along edges from a finished node goes down the order. */
  lemma {:induction false} OrderDown<N(!new)>(f: Flow<N>, order: seq<N>, p: seq<N>, i: nat)
    requires Finished(f, order) && IsPath(f, p) && i < |order| && order[i] == p[0]
    ensures exists j :: 0 <= j <= i && order[j] == p[|p| - 1]
    decreases |p|
  {
    if |p| > 1 {
      assert Edge(f, p[0], p[1]);
      var k :| 0 <= k < |order[..i]| && order[..i][k] == p[1];
      SuffixPath(f, p, 1);
      OrderDown(f, order, p[1..], k);
    }
  }

  lemma FinishedAcyclic<N(!new)>(f: Flow<N>, order: seq<N>)
    requires Finished(f, order) && forall a, b :: Edge(f, a, b) ==> a in order
    ensures !HasCycle(f)
  {
    forall a, b | Edge(f, a, b)
      ensures !Reach(f, b, a)
    {
      var i :| 0 <= i < |order| && order[i] == a;
      var k :| 0 <= k < |order[..i]| && order[..i][k] == b;
      forall p
        ensures !Between(f, p, b, a)
      {
        if Between(f, p, b, a) {
          OrderDown(f, order, p, k);
        }
      }
    }
  }

  // ----- the walk -----

  /** The whole state: the list, the open set and the finished set. */
  ghost predicate State<N(!new)>(
    f: Flow<N>, nodes: set<N>, base: seq<N>, path: seq<N>, rest: seq<seq<N>>, order: seq<N>,
    todo: seq<N>, current: set<N>, done: set<N>)
  {
    && OpenPath(f, path, rest) && Looked(f, path, rest, order) && Finished(f, order)
    && todo == base + Frames(path, rest)
    && (forall v :: v in current <==> v in path) && (forall v :: v in done <==> v in order)
    && (forall v :: v in path ==> v !in done)
    && (forall v :: v in nodes ==> v in done || v in path || v in base)
    && (forall v :: v in todo ==> v in nodes) && done <= nodes
  }

  lemma Top<N(!new)>(base: seq<N>, path: seq<N>, rest: seq<seq<N>>, todo: seq<N>)
    requires |rest| == |path| && todo == base + Frames(path, rest) && todo != []
    ensures path == [] ==> base == todo
    ensures path != [] && rest[|path| - 1] == [] ==> todo[|todo| - 1] == path[|path| - 1]
    ensures path != [] && rest[|path| - 1] == [] ==>
      todo[..|todo| - 1] == base + Frames(path[..|path| - 1], rest[..|path| - 1])
    ensures path != [] && rest[|path| - 1] != [] ==>
      var ws := rest[|path| - 1];
      && todo[|todo| - 1] == ws[|ws| - 1]
      && todo[..|todo| - 1] == base + Frames(path, rest[|path| - 1 := ws[..|ws| - 1]])
  {
    if path != [] {
      var k := |path| - 1;
      var head := Frames(path[..k], rest[..k]) + [path[k]];
      if rest[k] != [] {
        var rest' := rest[k := rest[k][..|rest[k]| - 1]];
        assert rest'[..k] == rest[..k];
        assert Frames(path, rest') == head + rest'[k];
        assert Frames(path, rest) == Frames(path, rest') + [rest[k][|rest[k]| - 1]];
      } else {
        assert Frames(path, rest) == head;
      }
    }
  }

  /** A finished node on top of the list is dropped. */
  lemma Dropped<N(!new)>(
    f: Flow<N>, nodes: set<N>, base: seq<N>, path: seq<N>, rest: seq<seq<N>>, order: seq<N>,
    todo: seq<N>, current: set<N>, done: set<N>) returns (base': seq<N>, rest': seq<seq<N>>)
    requires State(f, nodes, base, path, rest, order, todo, current, done) && todo != [] && todo[|todo| - 1] in done
    ensures State(f, nodes, base', path, rest', order, todo[..|todo| - 1], current, done)
  {
    hide Frames;
    Top(base, path, rest, todo);
    if path == [] {
      base', rest' := todo[..|todo| - 1], rest;
      FramesNone<N>();
      assert todo[..|todo| - 1] == base' + Frames(path, rest');
    } else {
      var k := |path| - 1;
      assert todo[|todo| - 1] != path[k];
      base', rest' := base, rest[k := rest[k][..|rest[k]| - 1]];
      forall i, y | 0 <= i < |path| && Edge(f, path[i], y)
        ensures LookedAt(path, rest', order, i, y)
      {
        assert LookedAt(path, rest, order, i, y);
        if i == k && y in rest[k] { LastOrBefore(rest[k], y); }
      }
    }
  }

  lemma FramesNone<N>()
    ensures Frames<N>([], []) == []
  {}

  /** A node neither finished nor open is opened. */
  lemma Opened<N(!new)>(
    f: Flow<N>, nodes: set<N>, base: seq<N>, path: seq<N>, rest: seq<seq<N>>, order: seq<N>,
    todo: seq<N>, current: set<N>, done: set<N>) returns (base': seq<N>, path': seq<N>, rest': seq<seq<N>>)
    requires State(f, nodes, base, path, rest, order, todo, current, done) && todo != []
    requires todo[|todo| - 1] !in done && todo[|todo| - 1] !in current
    requires forall a, b :: a in nodes && Edge(f, a, b) ==> b in nodes
    ensures todo[|todo| - 1] in nodes && todo[|todo| - 1] !in path
    ensures State(
      f, nodes, base', path', rest', order, todo[..|todo| - 1] + [todo[|todo| - 1]] + Next(f, todo[|todo| - 1]),
      current + {todo[|todo| - 1]}, done)
  {
    hide Frames, Finished;
    Top(base, path, rest, todo);
    var x := todo[|todo| - 1];
    assert x in todo;
    if path == [] {
      base', path', rest' := todo[..|todo| - 1], [x], [Next(f, x)];
      FramesOne(x, Next(f, x));
      assert base == base' + [x];
    } else {
      var k := |path| - 1;
      assert x != path[k];
      var cut := rest[k := rest[k][..|rest[k]| - 1]];
      base', path', rest' := base, path + [x], cut + [Next(f, x)];
      FramesMore(path, cut, x, Next(f, x));
      assert x in rest[k];
      OpenedLooked(f, path, rest, order, x);
    }
  }

  lemma OpenedLooked<N(!new)>(f: Flow<N>, path: seq<N>, rest: seq<seq<N>>, order: seq<N>, x: N)
    requires path != [] && |rest| == |path| && rest[|path| - 1] != [] && Looked(f, path, rest, order)
    requires x == rest[|path| - 1][|rest[|path| - 1]| - 1]
    ensures var k := |path| - 1;
      Looked(f, path + [x], rest[k := rest[k][..|rest[k]| - 1]] + [Next(f, x)], order)
  {
    var k := |path| - 1;
    var path', rest' := path + [x], rest[k := rest[k][..|rest[k]| - 1]] + [Next(f, x)];
    forall i, y | 0 <= i < |path'| && Edge(f, path'[i], y)
      ensures LookedAt(path', rest', order, i, y)
    {
      if i <= k {
        assert path'[i] == path[i] && LookedAt(path, rest, order, i, y);
        if i == k && y in rest[k] { LastOrBefore(rest[k], y); }
      }
    }
  }

  lemma FramesOne<N>(x: N, ws: seq<N>)
    ensures Frames([x], [ws]) == [x] + ws
  {
    assert [x][..0] == [] && [ws][..0] == [];
  }

  lemma FramesMore<N>(path: seq<N>, rest: seq<seq<N>>, x: N, ws: seq<N>)
    requires |rest| == |path|
    ensures Frames(path + [x], rest + [ws]) == Frames(path, rest) + [x] + ws
  {
    assert (path + [x])[..|path|] == path && (rest + [ws])[..|path|] == rest;
  }

  /** The top open node is finished when it has no open successor. */
  lemma ClosedNode<N(!new)>(
    f: Flow<N>, nodes: set<N>, base: seq<N>, path: seq<N>, rest: seq<seq<N>>, order: seq<N>,
    todo: seq<N>, current: set<N>, done: set<N>)
    requires State(f, nodes, base, path, rest, order, todo, current, done) && todo != []
    requires todo[|todo| - 1] in current && forall z :: z in Next(f, todo[|todo| - 1]) ==> z !in current
    ensures path != [] && todo[|todo| - 1] == path[|path| - 1] && |rest| == |path|
    ensures State(
      f, nodes, base, path[..|path| - 1], rest[..|path| - 1], order + [todo[|todo| - 1]], todo[..|todo| - 1],
      current - {todo[|todo| - 1]}, done + {todo[|todo| - 1]})
  {
    hide Frames;
    Top(base, path, rest, todo);
    var x, k := todo[|todo| - 1], |path| - 1;
    assert x in path;
    if rest[k] != [] {
      assert x in rest[k];
      OpenSuccessor(f, path, rest, x);
    }
    assert rest[k] == [];
    ClosedFinished(f, path, rest, order);
    var path', rest', order' := path[..k], rest[..k], order + [x];
    forall v | v in path
      ensures v == x || v in path'
    {
      LastOrBefore(path, v);
    }
    assert x !in path';
    forall i, y | 0 <= i < |path'| && Edge(f, path'[i], y)
      ensures LookedAt(path', rest', order', i, y)
    {
      assert path[i] == path'[i] && rest[i] == rest'[i] && LookedAt(path, rest, order, i, y);
    }
  }

  lemma ClosedFinished<N(!new)>(f: Flow<N>, path: seq<N>, rest: seq<seq<N>>, order: seq<N>)
    requires OpenPath(f, path, rest) && Looked(f, path, rest, order) && Finished(f, order) && path != []
    requires rest[|path| - 1] == [] && path[|path| - 1] !in order
    ensures Finished(f, order + [path[|path| - 1]])
  {
    var order' := order + [path[|path| - 1]];
    forall i, y | 0 <= i < |order'| && Edge(f, order'[i], y)
      ensures y in order'[..i]
    {
      if i < |order| {
        assert order'[..i] == order[..i];
      } else {
        assert order'[..i] == order && LookedAt(path, rest, order, |path| - 1, y);
      }
    }
  }

  method HasLoop<N(==,!new)>(f: Flow<N>, nodes: set<N>) returns (r: bool)
    requires forall a, b :: Edge(f, a, b) ==> a in nodes && b in nodes
    ensures r <==> HasCycle(f)
  {
    hide OpenPath, Looked, Finished, State, HasCycle;
    var todo := Listing(nodes);
    var done: set<N> := {};
    var current: set<N> := {};
    ghost var base, path, rest, order := todo, [], [], [];
    Start(f, nodes, todo);
    while todo != []
      invariant State(f, nodes, base, path, rest, order, todo, current, done)
      decreases nodes - done - current, |todo|
    {
      var node := todo[|todo| - 1];
      Facts(f, nodes, base, path, rest, order, todo, current, done);
      if node in done {
        base, rest := Dropped(f, nodes, base, path, rest, order, todo, current, done);
        todo := todo[..|todo| - 1];
        continue;
      }
      if node in current {
        var succs := Next(f, node);
        for i := 0 to |succs|
          invariant forall j :: 0 <= j < i ==> succs[j] !in current
        {
          if succs[i] in current {
            Cycle(f, nodes, base, path, rest, order, todo, current, done, succs[i]);
            return true;
          }
        }
        ClosedNode(f, nodes, base, path, rest, order, todo, current, done);
        path, rest, order := path[..|path| - 1], rest[..|path| - 1], order + [node];
        current := current - {node};
        done := done + {node};
        todo := todo[..|todo| - 1];
      } else {
        base, path, rest := Opened(f, nodes, base, path, rest, order, todo, current, done);
        todo := todo[..|todo| - 1] + [node] + Next(f, node);
        current := current + {node};
      }
    }
    NoLoop(f, nodes, base, path, rest, order, current, done);
    return false;
  }

  method Listing<N(==)>(nodes: set<N>) returns (r: seq<N>)
    ensures forall v :: v in r <==> v in nodes
  {
    r := [];
    var left := nodes;
    while left != {}
      invariant left <= nodes && forall v :: v in r <==> v in nodes - left
      decreases left
    {
      var v :| v in left;
      left := left - {v};
      r := r + [v];
    }
  }

  lemma Start<N(!new)>(f: Flow<N>, nodes: set<N>, todo: seq<N>)
    requires forall v :: v in todo <==> v in nodes
    ensures State(f, nodes, todo, [], [], [], todo, {}, {})
  {
    assert todo + [] == todo;
  }

  lemma Facts<N(!new)>(
    f: Flow<N>, nodes: set<N>, base: seq<N>, path: seq<N>, rest: seq<seq<N>>, order: seq<N>,
    todo: seq<N>, current: set<N>, done: set<N>)
    requires State(f, nodes, base, path, rest, order, todo, current, done) && todo != []
    ensures todo[|todo| - 1] in nodes && |rest| == |path| && current !! done
  {
    assert todo[|todo| - 1] in todo;
  }

  /** An open node with an open successor: either the node on top of the path, or one met again. */
  lemma Cycle<N(!new)>(
    f: Flow<N>, nodes: set<N>, base: seq<N>, path: seq<N>, rest: seq<seq<N>>, order: seq<N>,
    todo: seq<N>, current: set<N>, done: set<N>, z: N)
    requires State(f, nodes, base, path, rest, order, todo, current, done) && todo != []
    requires todo[|todo| - 1] in current && z in Next(f, todo[|todo| - 1]) && z in current
    ensures HasCycle(f)
  {
    hide Frames, HasCycle;
    Top(base, path, rest, todo);
    var x, k := todo[|todo| - 1], |path| - 1;
    assert x in path && z in path;
    if rest[k] != [] {
      assert x in rest[k];
      BackEdge(f, path, rest, x);
    } else {
      assert Edge(f, path[k], z);
      BackEdge(f, path, rest, z);
    }
  }

  lemma NoLoop<N(!new)>(
    f: Flow<N>, nodes: set<N>, base: seq<N>, path: seq<N>, rest: seq<seq<N>>, order: seq<N>, current: set<N>, done: set<N>)
    requires State(f, nodes, base, path, rest, order, [], current, done)
    requires forall a, b :: Edge(f, a, b) ==> a in nodes && b in nodes
    ensures !HasCycle(f)
  {
    hide HasCycle;
    assert path == [] && base == [];
    FinishedAcyclic(f, order);
  }
}
