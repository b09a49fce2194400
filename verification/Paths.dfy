/**
 Paths, reachability and dominance over a directed graph.

 A graph is seen through its two adjacency tables, the way the graph algorithms
 of miasm/core/graph.py see it: a "successors" table and a "predecessors" table.
 Swapping the two tables reverses the graph, which is how the post-dominator
 variants are obtained.
 */
module Paths {

  /** The two adjacency tables; a missing key means "no neighbour". */
  datatype Flow<N> = Flow(next: map<N, seq<N>>, prev: map<N, seq<N>>)

  function Next<N(==)>(f: Flow<N>, n: N): (r: seq<N>) {
    if n in f.next then f.next[n] else []
  }

  function Prev<N(==)>(f: Flow<N>, n: N): (r: seq<N>) {
    if n in f.prev then f.prev[n] else []
  }

  function Reversed<N>(f: Flow<N>): (r: Flow<N>) {
    Flow(f.prev, f.next)
  }

  ghost predicate Edge<N>(f: Flow<N>, a: N, b: N) {
    b in Next(f, a)
  }

  /** The successors of n as the set they are added to a worklist as. */
  function NextSet<N(==,!new)>(f: Flow<N>, n: N): (r: set<N>)
    ensures forall x :: x in r <==> Edge(f, n, x)
  {
    set x | x in Next(f, n)
  }

  /** Both tables describe the same edges. */
  ghost predicate Coherent<N(!new)>(f: Flow<N>) {
    forall a, b :: Edge(f, a, b) <==> a in Prev(f, b)
  }

  ghost predicate IsPath<N>(f: Flow<N>, p: seq<N>) {
    |p| > 0 && forall i, j :: 0 <= i && j == i + 1 && j < |p| ==> Edge(f, p[i], p[j])
  }

  ghost predicate Between<N>(f: Flow<N>, p: seq<N>, a: N, b: N) {
    IsPath(f, p) && p[0] == a && p[|p| - 1] == b
  }

  ghost predicate Reach<N(!new)>(f: Flow<N>, a: N, b: N) {
    exists p :: Between(f, p, a, b)
  }

  /** Every path from head to n goes through d. */
  ghost predicate Dominates<N(!new)>(f: Flow<N>, head: N, d: N, n: N) {
    forall p :: Between(f, p, head, n) ==> d in p
  }

  ghost predicate StrictlyDominates<N(!new)>(f: Flow<N>, head: N, d: N, n: N) {
    Dominates(f, head, d, n) && d != n
  }

  /** i is the strict dominator of n that all strict dominators of n dominate. */
  ghost predicate IsImmediateDominator<N(!new)>(f: Flow<N>, head: N, i: N, n: N) {
    && StrictlyDominates(f, head, i, n)
    && forall d :: StrictlyDominates(f, head, d, n) ==> Dominates(f, head, d, i)
  }

  // ----- path surgery -----

  lemma TrivialPath<N>(f: Flow<N>, a: N)
    ensures Between(f, [a], a, a)
  {}

  lemma ReachSelf<N(!new)>(f: Flow<N>, a: N)
    ensures Reach(f, a, a)
  {
    TrivialPath(f, a);
  }

  lemma PrefixPath<N>(f: Flow<N>, p: seq<N>, i: nat)
    requires IsPath(f, p) && i < |p|
    ensures Between(f, p[..i + 1], p[0], p[i])
  {}

  lemma SuffixPath<N>(f: Flow<N>, p: seq<N>, i: nat)
    requires IsPath(f, p) && i < |p|
    ensures Between(f, p[i..], p[i], p[|p| - 1])
  {}

  lemma ExtendPath<N>(f: Flow<N>, p: seq<N>, a: N, b: N, c: N)
    requires Between(f, p, a, b) && Edge(f, b, c)
    ensures Between(f, p + [c], a, c)
  {}

  lemma ReachStep<N(!new)>(f: Flow<N>, a: N, b: N, c: N)
    requires Reach(f, a, b) && Edge(f, b, c)
    ensures Reach(f, a, c)
  {
    var p :| Between(f, p, a, b);
    ExtendPath(f, p, a, b, c);
  }

  /** Two paths sharing a node are joined there. */
  lemma JoinPaths<N>(f: Flow<N>, p: seq<N>, q: seq<N>)
    requires IsPath(f, p) && IsPath(f, q) && p[|p| - 1] == q[0]
    ensures Between(f, p + q[1..], p[0], q[|q| - 1])
  {
    var r := p + q[1..];
    forall i, j | 0 <= i && j == i + 1 && j < |r|
      ensures Edge(f, r[i], r[j])
    {
      if j < |p| {
      } else {
        assert r[j] == q[j - |p| + 1];
        assert r[i] == q[i - |p| + 1];
      }
    }
  }

  lemma ReachTrans<N(!new)>(f: Flow<N>, a: N, b: N, c: N)
    requires Reach(f, a, b) && Reach(f, b, c)
    ensures Reach(f, a, c)
  {
    var p :| Between(f, p, a, b);
    var q :| Between(f, q, b, c);
    JoinPaths(f, p, q);
  }

  lemma LastOrBefore<N>(s: seq<N>, v: N)
    requires s != [] && v in s
    ensures v == s[|s| - 1] || v in s[..|s| - 1]
  {
    var i :| 0 <= i < |s| && s[i] == v;
    if i < |s| - 1 { assert s[..|s| - 1][i] == v; }
  }

  /** A path of the reversed graph read backwards is a path of the graph. */
  lemma ReversePath<N(!new)>(f: Flow<N>, p: seq<N>, r: seq<N>, a: N, b: N)
    requires Coherent(f)
    requires Between(f, p, a, b)
    requires |r| == |p| && forall k :: 0 <= k < |p| ==> r[k] == p[|p| - 1 - k]
    ensures Between(Reversed(f), r, b, a)
  {
    forall i, j | 0 <= i && j == i + 1 && j < |r|
      ensures Edge(Reversed(f), r[i], r[j])
    {
      var m := |p| - 1 - j;
      assert Edge(f, p[m], p[m + 1]);
    }
  }

  lemma ReversedCoherent<N(!new)>(f: Flow<N>)
    requires Coherent(f)
    ensures Coherent(Reversed(f))
  {
    forall a, b
      ensures Edge(Reversed(f), a, b) <==> a in Prev(Reversed(f), b)
    {
      assert Edge(f, b, a) <==> b in Prev(f, a);
    }
  }

  lemma ReverseReach<N(!new)>(f: Flow<N>, a: N, b: N)
    requires Coherent(f)
    ensures Reach(f, a, b) <==> Reach(Reversed(f), b, a)
  {
    if Reach(f, a, b) {
      var p :| Between(f, p, a, b);
      ReversePath(f, p, seq(|p|, k requires 0 <= k < |p| => p[|p| - 1 - k]), a, b);
    }
    if Reach(Reversed(f), b, a) {
      var p :| Between(Reversed(f), p, b, a);
      ReversedCoherent(f);
      ReversePath(Reversed(f), p, seq(|p|, k requires 0 <= k < |p| => p[|p| - 1 - k]), b, a);
    }
  }

  // ----- closed sets -----

  ghost predicate Closed<N(!new)>(f: Flow<N>, s: set<N>) {
    forall a, b :: a in s && Edge(f, a, b) ==> b in s
  }

  lemma {:induction false} ClosedContainsReach<N(!new)>(f: Flow<N>, s: set<N>, p: seq<N>)
    requires Closed(f, s) && IsPath(f, p) && p[0] in s
    ensures p[|p| - 1] in s
    decreases |p|
  {
    if |p| > 1 {
      PrefixPath(f, p, |p| - 2);
      ClosedContainsReach(f, s, p[..|p| - 1]);
      assert Edge(f, p[|p| - 2], p[|p| - 1]);
    }
  }

  // ----- dominance is a tree order on the reachable nodes -----

  lemma DominatesSelf<N(!new)>(f: Flow<N>, head: N, n: N)
    ensures Dominates(f, head, n, n) && Dominates(f, head, head, n)
  {}

  lemma DominatesTrans<N(!new)>(f: Flow<N>, head: N, a: N, b: N, c: N)
    requires Dominates(f, head, a, b) && Dominates(f, head, b, c)
    ensures Dominates(f, head, a, c)
  {
    forall p | Between(f, p, head, c)
      ensures a in p
    {
      var i :| 0 <= i < |p| && p[i] == b;
      PrefixPath(f, p, i);
      assert a in p[..i + 1];
    }
  }

  lemma {:induction false} NoMutualDominance<N(!new)>(f: Flow<N>, head: N, a: N, b: N, p: seq<N>)
    requires Dominates(f, head, a, b) && Dominates(f, head, b, a) && a != b
    requires Between(f, p, head, b)
    ensures false
    decreases |p|
  {
    var i :| 0 <= i < |p| && p[i] == a;
    PrefixPath(f, p, i);
    NoMutualDominance(f, head, b, a, p[..i + 1]);
  }

  lemma DominatesAntisym<N(!new)>(f: Flow<N>, head: N, a: N, b: N)
    requires Reach(f, head, b)
    requires Dominates(f, head, a, b) && Dominates(f, head, b, a)
    ensures a == b
  {
    if a != b {
      var p :| Between(f, p, head, b);
      NoMutualDominance(f, head, a, b, p);
    }
  }

  lemma DominatorReachable<N(!new)>(f: Flow<N>, head: N, d: N, n: N)
    requires Reach(f, head, n) && Dominates(f, head, d, n)
    ensures Reach(f, head, d)
  {
    var p :| Between(f, p, head, n);
    var i :| 0 <= i < |p| && p[i] == d;
    PrefixPath(f, p, i);
  }

  /** A strict dominator of n dominates every predecessor of n. */
  lemma DominatesPredecessor<N(!new)>(f: Flow<N>, head: N, d: N, p: N, n: N)
    requires StrictlyDominates(f, head, d, n) && Edge(f, p, n)
    ensures Dominates(f, head, d, p)
  {
    forall q | Between(f, q, head, p)
      ensures d in q
    {
      ExtendPath(f, q, head, p, n);
      assert d in q + [n];
    }
  }

  /** The dominators shared by all reachable predecessors dominate the node. */
  lemma DominatesFromPredecessors<N(!new)>(f: Flow<N>, head: N, d: N, n: N)
    requires n != head
    requires forall p :: Reach(f, head, p) && Edge(f, p, n) ==> Dominates(f, head, d, p)
    ensures Dominates(f, head, d, n)
  {
    forall q | Between(f, q, head, n)
      ensures d in q
    {
      var k := |q| - 2;
      PrefixPath(f, q, k);
      assert Edge(f, q[k], q[k + 1]);
      assert d in q[..k + 1];
    }
  }

  /** Only the head dominates the head. */
  lemma HeadDominators<N(!new)>(f: Flow<N>, head: N, d: N)
    requires Dominates(f, head, d, head)
    ensures d == head
  {
    TrivialPath(f, head);
    assert d in [head];
  }

  /** A node other than the head that is reachable has a reachable predecessor. */
  lemma ReachablePredecessor<N(!new)>(f: Flow<N>, head: N, n: N) returns (p: N)
    requires Reach(f, head, n) && n != head
    ensures Reach(f, head, p) && Edge(f, p, n)
  {
    var q :| Between(f, q, head, n);
    p := q[|q| - 2];
    PrefixPath(f, q, |q| - 2);
  }
}
