/**
 The directed graph of miasm/core/graph.py: a set of nodes, a list of edges (an edge may
 be there several times) and the two adjacency tables every edit keeps in step with it.
 */
module DiGraphs {
  import opened Paths
  import Components
  import Loops
  import opened Dominators

  /** The successors of a, in the order its edges were added. */
  function Targets<N(==)>(edges: seq<(N, N)>, a: N): (r: seq<N>) {
    if edges == [] then []
    else if edges[0].0 == a then [edges[0].1] + Targets(edges[1..], a) else Targets(edges[1..], a)
  }

  /** The predecessors of b, in the order its edges were added. */
  function Origins<N(==)>(edges: seq<(N, N)>, b: N): (r: seq<N>) {
    if edges == [] then []
    else if edges[0].1 == b then [edges[0].0] + Origins(edges[1..], b) else Origins(edges[1..], b)
  }

  /** list.remove: drops the first occurrence. */
  function RemoveFirst<T(==)>(s: seq<T>, x: T): (r: seq<T>)
    requires x in s
    ensures |r| == |s| - 1
  {
    if s[0] == x then s[1..] else [s[0]] + RemoveFirst(s[1..], x)
  }

  lemma {:induction false} RemovesFirst<T>(s: seq<T>, x: T) returns (i: nat)
    requires x in s
    ensures i < |s| && s[i] == x && x !in s[..i] && RemoveFirst(s, x) == s[..i] + s[i + 1..]
  {
    i := 0;
    if s[0] != x {
      var rest := s[1..];
      var j := RemovesFirst(rest, x);
      i := j + 1;
      OneMore(s[0], rest, j);
      assert s == [s[0]] + rest;
    }
  }

  lemma OneMore<T>(first: T, rest: seq<T>, j: nat)
    requires j < |rest|
    ensures var s := [first] + rest; s[..j + 1] == [first] + rest[..j] && s[j + 2..] == rest[j + 1..]
  {}

  /** The edges that do not touch n. */
  ghost function Without<N>(edges: seq<(N, N)>, n: N): (r: seq<(N, N)>) {
    if edges == [] then []
    else if edges[0].0 == n || edges[0].1 == n then Without(edges[1..], n)
    else [edges[0]] + Without(edges[1..], n)
  }

  // ----- what the lists mean -----

  lemma {:induction false} TargetsMember<N>(edges: seq<(N, N)>, a: N, b: N)
    ensures b in Targets(edges, a) <==> (a, b) in edges
  {
    if edges != [] { TargetsMember(edges[1..], a, b); }
  }

  lemma {:induction false} OriginsMember<N>(edges: seq<(N, N)>, a: N, b: N)
    ensures a in Origins(edges, b) <==> (a, b) in edges
  {
    if edges != [] { OriginsMember(edges[1..], a, b); }
  }

  lemma {:induction false} TargetsNoDuplicates<N>(edges: seq<(N, N)>, a: N)
    requires NoDuplicates(edges)
    ensures NoDuplicates(Targets(edges, a))
  {
    if edges != [] {
      TargetsNoDuplicates(edges[1..], a);
      TargetsMember(edges[1..], a, edges[0].1);
      assert edges[0] !in edges[1..];
    }
  }

  lemma {:induction false} TargetsAppend<N>(edges: seq<(N, N)>, e: (N, N), a: N)
    ensures Targets(edges + [e], a) == Targets(edges, a) + if e.0 == a then [e.1] else []
  {
    if edges != [] {
      assert (edges + [e])[1..] == edges[1..] + [e];
      TargetsAppend(edges[1..], e, a);
    }
  }

  lemma {:induction false} OriginsAppend<N>(edges: seq<(N, N)>, e: (N, N), b: N)
    ensures Origins(edges + [e], b) == Origins(edges, b) + if e.1 == b then [e.0] else []
  {
    if edges != [] {
      assert (edges + [e])[1..] == edges[1..] + [e];
      OriginsAppend(edges[1..], e, b);
    }
  }

  lemma {:induction false} TargetsRemove<N>(edges: seq<(N, N)>, e: (N, N), a: N)
    requires e in edges
    ensures e.0 == a ==> e.1 in Targets(edges, a)
    ensures e.0 == a ==> Targets(RemoveFirst(edges, e), a) == RemoveFirst(Targets(edges, a), e.1)
    ensures e.0 != a ==> Targets(RemoveFirst(edges, e), a) == Targets(edges, a)
  {
    TargetsMember(edges, e.0, e.1);
    if edges[0] != e {
      TargetsRemove(edges[1..], e, a);
      assert RemoveFirst(edges, e)[1..] == RemoveFirst(edges[1..], e);
      if e.0 == a && edges[0].0 == a {
        assert Targets(edges, a)[1..] == Targets(edges[1..], a);
      }
    } else if e.0 == a {
      assert Targets(edges, a)[1..] == Targets(edges[1..], a);
    }
  }

  lemma {:induction false} OriginsRemove<N>(edges: seq<(N, N)>, e: (N, N), b: N)
    requires e in edges
    ensures e.1 == b ==> e.0 in Origins(edges, b)
    ensures e.1 == b ==> Origins(RemoveFirst(edges, e), b) == RemoveFirst(Origins(edges, b), e.0)
    ensures e.1 != b ==> Origins(RemoveFirst(edges, e), b) == Origins(edges, b)
  {
    OriginsMember(edges, e.0, e.1);
    if edges[0] != e {
      OriginsRemove(edges[1..], e, b);
      assert RemoveFirst(edges, e)[1..] == RemoveFirst(edges[1..], e);
      if e.1 == b && edges[0].1 == b {
        assert Origins(edges, b)[1..] == Origins(edges[1..], b);
      }
    } else if e.1 == b {
      assert Origins(edges, b)[1..] == Origins(edges[1..], b);
    }
  }

  lemma {:induction false} WithoutRemove<N>(edges: seq<(N, N)>, e: (N, N), n: N)
    requires e in edges && (e.0 == n || e.1 == n)
    ensures Without(RemoveFirst(edges, e), n) == Without(edges, n)
  {
    if edges[0] != e {
      WithoutRemove(edges[1..], e, n);
      assert RemoveFirst(edges, e)[1..] == RemoveFirst(edges[1..], e);
    }
  }

  lemma {:induction false} WithoutNothing<N>(edges: seq<(N, N)>, n: N)
    requires Targets(edges, n) == [] && Origins(edges, n) == []
    ensures Without(edges, n) == edges
  {
    if edges != [] { WithoutNothing(edges[1..], n); }
  }

  lemma {:induction false} RemoveFirstMember<T>(s: seq<T>, x: T, y: T)
    requires x in s && y in RemoveFirst(s, x)
    ensures y in s
  {
    if s[0] != x && y != s[0] { RemoveFirstMember(s[1..], x, y); }
  }

  lemma {:induction false} WithoutMember<N>(edges: seq<(N, N)>, n: N, e: (N, N))
    ensures e in Without(edges, n) <==> e in edges && e.0 != n && e.1 != n
  {
    if edges != [] { WithoutMember(edges[1..], n, e); }
  }

  lemma {:induction false} NoEdges<N>(edges: seq<(N, N)>, n: N)
    requires forall e :: e in edges ==> e.0 != n && e.1 != n
    ensures Targets(edges, n) == [] && Origins(edges, n) == []
  {
    if edges != [] { NoEdges(edges[1..], n); }
  }

  /** Both tables list exactly the edges, in order. */
  ghost predicate InStep<N(!new)>(edges: seq<(N, N)>, succ: map<N, seq<N>>, pred: map<N, seq<N>>) {
    && pred.Keys == succ.Keys
    && (forall a :: a in succ ==> succ[a] == Targets(edges, a) && pred[a] == Origins(edges, a))
    && (forall e :: e in edges ==> e.0 in succ && e.1 in succ)
  }

  lemma InStepAppend<N(!new)>(edges: seq<(N, N)>, succ: map<N, seq<N>>, pred: map<N, seq<N>>, src: N, dst: N)
    requires InStep(edges, succ, pred) && src in succ && dst in succ
    ensures dst in pred
    ensures InStep(edges + [(src, dst)], succ[src := succ[src] + [dst]], pred[dst := pred[dst] + [src]])
  {
    forall a
      ensures Targets(edges + [(src, dst)], a) == Targets(edges, a) + if src == a then [dst] else []
      ensures Origins(edges + [(src, dst)], a) == Origins(edges, a) + if dst == a then [src] else []
    {
      TargetsAppend(edges, (src, dst), a);
      OriginsAppend(edges, (src, dst), a);
    }
  }

  lemma InStepRemove<N(!new)>(edges: seq<(N, N)>, succ: map<N, seq<N>>, pred: map<N, seq<N>>, src: N, dst: N)
    requires InStep(edges, succ, pred) && (src, dst) in edges
    ensures src in succ && dst in succ[src] && dst in pred && src in pred[dst]
    ensures InStep(
      RemoveFirst(edges, (src, dst)),
      succ[src := RemoveFirst(succ[src], dst)],
      pred[dst := RemoveFirst(pred[dst], src)])
  {
    var e := (src, dst);
    TargetsRemove(edges, e, src);
    OriginsRemove(edges, e, dst);
    forall a
      ensures a != src ==> Targets(RemoveFirst(edges, e), a) == Targets(edges, a)
      ensures a != dst ==> Origins(RemoveFirst(edges, e), a) == Origins(edges, a)
    {
      TargetsRemove(edges, e, a);
      OriginsRemove(edges, e, a);
    }
    forall x | x in RemoveFirst(edges, e)
      ensures x in edges
    {
      RemoveFirstMember(edges, e, x);
    }
  }

  // ----- the graph -----

  class DiGraph<N(==,!new)> {
    var nodes: set<N>
    var edges: seq<(N, N)>
    var succ: map<N, seq<N>>
    var pred: map<N, seq<N>>

    ghost predicate Synchronised()
      reads this
    {
      nodes <= succ.Keys && InStep(edges, succ, pred)
    }

    ghost predicate Valid()
      reads this
    {
      Synchronised() && forall e :: e in edges ==> e.0 in nodes && e.1 in nodes
    }

    function View(): (f: Flow<N>)
      reads this
    {
      Flow(succ, pred)
    }

    constructor ()
      ensures Valid() && nodes == {} && edges == []
    {
      nodes, edges, succ, pred := {}, [], map[], map[];
    }

    method AddNode(node: N) returns (added: bool)
      requires Valid()
      modifies this
      ensures Valid() && edges == old(edges)
      ensures added == (node !in old(nodes)) && nodes == old(nodes) + {node}
    {
      if node in nodes {
        return false;
      }
      NoEdges(edges, node);
      nodes := nodes + {node};
      succ := succ[node := []];
      pred := pred[node := []];
      return true;
    }

    method AddEdge(src: N, dst: N)
      requires Valid()
      modifies this
      ensures Valid() && edges == old(edges) + [(src, dst)] && nodes == old(nodes) + {src, dst}
    {
      hide InStep;
      if src !in nodes {
        var _ := AddNode(src);
      }
      if dst !in nodes {
        var _ := AddNode(dst);
      }
      InStepAppend(edges, succ, pred, src, dst);
      edges := edges + [(src, dst)];
      succ := succ[src := succ[src] + [dst]];
      pred := pred[dst := pred[dst] + [src]];
    }

    method AddUniqEdge(src: N, dst: N)
      requires Valid()
      modifies this
      ensures Valid() && (src, dst) in edges
      ensures edges == if (src, dst) in old(edges) then old(edges) else old(edges) + [(src, dst)]
      ensures nodes == old(nodes) + {src, dst}
    {
      TargetsMember(edges, src, dst);
      if src !in succ || dst !in succ[src] {
        AddEdge(src, dst);
      }
    }

    /** Removes one edge, the oldest between the two nodes; the edge must exist. */
    method DelEdge(src: N, dst: N)
      requires Synchronised() && (src, dst) in edges
      modifies this`edges, this`succ, this`pred
      ensures Synchronised() && edges == RemoveFirst(old(edges), (src, dst)) && succ.Keys == old(succ.Keys)
      ensures old(Valid()) ==> Valid()
    {
      var e := (src, dst);
      InStepRemove(edges, succ, pred, src, dst);
      forall x | x in RemoveFirst(edges, e)
        ensures x in edges
      {
        RemoveFirstMember(edges, e, x);
      }
      hide InStep;
      edges := RemoveFirst(edges, e);
      succ := succ[src := RemoveFirst(succ[src], dst)];
      pred := pred[dst := RemoveFirst(pred[dst], src)];
    }

    method DiscardEdge(src: N, dst: N)
      requires Valid()
      modifies this`edges, this`succ, this`pred
      ensures Valid()
      ensures edges == if (src, dst) in old(edges) then RemoveFirst(old(edges), (src, dst)) else old(edges)
    {
      if (src, dst) in edges {
        DelEdge(src, dst);
      }
    }

    /** Removes a node with every edge touching it, and nothing else. */
    method DelNode(node: N)
      requires Valid()
      modifies this
      ensures Valid() && nodes == old(nodes) - {node} && edges == Without(old(edges), node)
    {
      ghost var before := edges;
      nodes := nodes - {node};
      if node !in succ {
        NoEdges(edges, node);
        WithoutNothing(edges, node);
        return;
      }
      var preds := pred[node];
      for i := 0 to |preds|
        invariant Synchronised() && node in succ && nodes == old(nodes) - {node}
        invariant Origins(edges, node) == preds[i..] && Without(edges, node) == Without(before, node)
        invariant forall e :: e in edges ==> e in before
      {
        OriginsMember(edges, preds[i], node);
        assert preds[i] in preds[i..];
        WithoutRemove(edges, (preds[i], node), node);
        OriginsRemove(edges, (preds[i], node), node);
        ghost var was := edges;
        DelEdge(preds[i], node);
        forall e | e in edges
          ensures e in was
        {
          RemoveFirstMember(was, (preds[i], node), e);
        }
      }
      var succs := succ[node];
      for i := 0 to |succs|
        invariant Synchronised() && node in succ && nodes == old(nodes) - {node}
        invariant Targets(edges, node) == succs[i..] && Without(edges, node) == Without(before, node)
        invariant Origins(edges, node) == []
        invariant forall e :: e in edges ==> e in before
      {
        TargetsMember(edges, node, succs[i]);
        assert succs[i] in succs[i..];
        OriginsMember(edges, node, node);
        WithoutRemove(edges, (node, succs[i]), node);
        TargetsRemove(edges, (node, succs[i]), node);
        OriginsRemove(edges, (node, succs[i]), node);
        ghost var was := edges;
        DelEdge(node, succs[i]);
        forall e | e in edges
          ensures e in was
        {
          RemoveFirstMember(was, (node, succs[i]), e);
        }
      }
      WithoutNothing(edges, node);
      forall e | e in edges
        ensures e.0 in nodes && e.1 in nodes
      {
        WithoutMember(before, node, e);
      }
    }

    /** The tables are a faithful view of the edges. */
    lemma ViewEdges()
      requires Synchronised()
      ensures Coherent(View())
      ensures forall a, b :: Edge(View(), a, b) <==> (a, b) in edges
    {
      forall a, b
        ensures Edge(View(), a, b) <==> (a, b) in edges
        ensures a in Prev(View(), b) <==> (a, b) in edges
      {
        TargetsMember(edges, a, b);
        OriginsMember(edges, a, b);
      }
    }

    method ComputeDominators(head: N) returns (dom: map<N, set<N>>)
      requires Valid()
      ensures forall n :: n in dom <==> Reach(View(), head, n)
      ensures forall n, d :: n in dom ==> (d in dom[n] <==> Dominates(View(), head, d, n))
    {
      ViewEdges();
      dom := GenericDominators(View(), head);
    }

    /** d post-dominates n with respect to a leaf: every path from n to the leaf goes through d. */
    method ComputePostdominators(leaf: N) returns (dom: map<N, set<N>>)
      requires Valid()
      ensures forall n :: n in dom <==> Reach(View(), n, leaf)
      ensures forall n, d :: n in dom ==>
        (d in dom[n] <==> forall p :: Between(View(), p, n, leaf) ==> d in p)
    {
      ViewEdges();
      ReversedCoherent(View());
      dom := GenericDominators(Reversed(View()), leaf);
      forall n
        ensures Reach(View(), n, leaf) <==> Reach(Reversed(View()), leaf, n)
        ensures forall d :: Dominates(Reversed(View()), leaf, d, n) <==> forall p :: Between(View(), p, n, leaf) ==> d in p
      {
        ReverseReach(View(), n, leaf);
        forall d {
          ReversedDominance(View(), leaf, d, n);
        }
      }
    }

    /** The classes of mutually reachable nodes, each after the classes it reaches. */
    method ComputeStronglyConnectedComponents() returns (sccs: seq<set<N>>)
      requires Valid()
      ensures forall i :: 0 <= i < |sccs| ==> Components.IsClass(View(), sccs[i]) && sccs[i] <= nodes
      ensures forall v :: v in nodes ==> exists i :: 0 <= i < |sccs| && v in sccs[i]
      ensures forall i, j, a, b :: 0 <= i < j < |sccs| && a in sccs[i] && b in sccs[j] ==> !Reach(View(), a, b)
    {
      ViewEdges();
      sccs := Components.StronglyConnectedComponents(View(), nodes);
    }

    method HasLoop() returns (r: bool)
      requires Valid()
      ensures r <==> exists a, b :: (a, b) in edges && Reach(View(), b, a)
    {
      ViewEdges();
      r := Loops.HasLoop(View(), nodes);
      assert Loops.HasCycle(View()) <==> exists a, b :: (a, b) in edges && Reach(View(), b, a);
    }

    /** The tree of immediate dominators, each node once. */
    method ComputeDominatorTree(head: N) returns (tree: DiGraph<N>, idoms: map<N, N>)
      requires Valid()
      ensures fresh(tree) && tree.Valid() && ImmediateDominators(View(), head, idoms)
      ensures NoDuplicates(tree.edges)
      ensures forall a, b :: (a, b) in tree.edges <==> b in idoms && a == idoms[b]
    {
      ViewEdges();
      idoms := ComputeImmediateDominators(View(), head);
      tree := new DiGraph<N>();
      var todo := idoms.Keys;
      while todo != {}
        invariant fresh(tree) && tree.Valid() && NoDuplicates(tree.edges) && todo <= idoms.Keys
        invariant forall a, b :: (a, b) in tree.edges <==> b in idoms && b !in todo && a == idoms[b]
        invariant View() == old(View())
        decreases todo
      {
        var node :| node in todo;
        todo := todo - {node};
        tree.AddEdge(idoms[node], node);
      }
    }
  }

  lemma ReversedDominance<N(!new)>(f: Flow<N>, leaf: N, d: N, n: N)
    requires Coherent(f)
    ensures Dominates(Reversed(f), leaf, d, n) <==> forall p :: Between(f, p, n, leaf) ==> d in p
  {
    if Dominates(Reversed(f), leaf, d, n) {
      forall p | Between(f, p, n, leaf)
        ensures d in p
      {
        var r := seq(|p|, k requires 0 <= k < |p| => p[|p| - 1 - k]);
        ReversePath(f, p, r, n, leaf);
        var k :| 0 <= k < |r| && r[k] == d;
      }
    }
    if forall p :: Between(f, p, n, leaf) ==> d in p {
      ReversedCoherent(f);
      forall p | Between(Reversed(f), p, leaf, n)
        ensures d in p
      {
        var r := seq(|p|, k requires 0 <= k < |p| => p[|p| - 1 - k]);
        ReversePath(Reversed(f), p, r, leaf, n);
        assert Reversed(Reversed(f)) == f;
        var k :| 0 <= k < |r| && r[k] == d;
      }
    }
  }
}
