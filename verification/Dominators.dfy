/**
 The worklist algorithms of miasm/core/graph.py on dominance: reachable nodes,
 (post)dominators, the ordered walk over dominators, immediate dominators and
 dominance frontiers.  Sets popped by the source are popped in an arbitrary order.
 */
module Dominators {
  import opened Paths

  ghost predicate NoDuplicates<N>(s: seq<N>) {
    forall i, j :: 0 <= i < j < |s| ==> s[i] != s[j]
  }

  /** Every node the tables mention, plus the starting one: bounds every walk. */
  ghost function Universe<N(!new)>(f: Flow<N>, head: N): (u: set<N>)
    ensures head in u && Closed(f, u)
  {
    {head} + set a, b | a in f.next && b in f.next[a] :: b
  }

  // ----- reachability -----

  /** Some node among the first k of the order has an edge to n. */
  ghost predicate HasParent<N>(f: Flow<N>, order: seq<N>, k: nat, n: N)
    requires k <= |order|
  {
    exists j :: 0 <= j < k && Edge(f, order[j], n)
  }

  /** Each node but the first is a successor of a node listed before it. */
  ghost predicate DiscoveryOrder<N>(f: Flow<N>, order: seq<N>) {
    forall k :: 0 < k < |order| ==> HasParent(f, order, k, order[k])
  }

  lemma DiscoveryAppend<N>(f: Flow<N>, order: seq<N>, n: N)
    requires DiscoveryOrder(f, order)
    requires order != [] ==> HasParent(f, order, |order|, n)
    ensures DiscoveryOrder(f, order + [n])
  {
    var order' := order + [n];
    forall k | 0 < k < |order'|
      ensures HasParent(f, order', k, order'[k])
    {
      assert HasParent(f, order, k, order'[k]);
      var j :| 0 <= j < k && Edge(f, order[j], order'[k]);
      assert Edge(f, order'[j], order'[k]);
    }
  }

  lemma ParentAppend<N>(f: Flow<N>, order: seq<N>, node: N, n: N)
    requires HasParent(f, order, |order|, n) || Edge(f, node, n)
    ensures HasParent(f, order + [node], |order| + 1, n)
  {
    var order' := order + [node];
    if Edge(f, node, n) {
      assert Edge(f, order'[|order|], n);
    } else {
      var j :| 0 <= j < |order| && Edge(f, order[j], n);
      assert Edge(f, order'[j], n);
    }
  }

  /** What the reachability worklist keeps: a set closed up to the pending nodes. */
  ghost predicate WorklistState<N(!new)>(f: Flow<N>, head: N, reachable: set<N>, todo: set<N>) {
    && (forall n :: n in reachable || n in todo ==> Reach(f, head, n))
    && (forall a, b :: a in reachable && Edge(f, a, b) ==> b in reachable || b in todo)
    && (head in reachable || head in todo)
  }

  /** What the order of the nodes already yielded keeps. */
  ghost predicate OrderState<N>(f: Flow<N>, head: N, order: seq<N>, todo: set<N>) {
    && NoDuplicates(order) && DiscoveryOrder(f, order)
    && (if order == [] then todo == {head} else order[0] == head)
    && (forall n :: n in todo && n != head ==> HasParent(f, order, |order|, n))
  }

  /** A visited node leaves the pending nodes, unless it is listed there several times. */
  ghost predicate Advanced<N(!new)>(f: Flow<N>, todo: set<N>, node: N, todo': set<N>) {
    && (forall n :: n in todo' ==> n in todo || Edge(f, node, n))
    && (forall n :: n in todo && n != node ==> n in todo')
    && (forall n :: Edge(f, node, n) ==> n in todo')
  }

  lemma WorklistVisit<N(!new)>(f: Flow<N>, head: N, reachable: set<N>, todo: set<N>, node: N, todo': set<N>)
    requires WorklistState(f, head, reachable, todo) && node in todo && Advanced(f, todo, node, todo')
    ensures WorklistState(f, head, reachable + {node}, todo')
  {
    forall b | Edge(f, node, b)
      ensures Reach(f, head, b)
    {
      ReachStep(f, head, node, b);
    }
  }

  lemma OrderVisit<N(!new)>(f: Flow<N>, head: N, order: seq<N>, todo: set<N>, node: N, todo': set<N>)
    requires OrderState(f, head, order, todo) && node in todo && node !in order && Advanced(f, todo, node, todo')
    ensures OrderState(f, head, order + [node], todo')
  {
    DiscoveryAppend(f, order, node);
    forall n | (n in todo || Edge(f, node, n)) && n != head
      ensures HasParent(f, order + [node], |order| + 1, n)
    {
      ParentAppend(f, order, node, n);
    }
  }

  lemma AllReachable<N(!new)>(f: Flow<N>, head: N, reachable: set<N>)
    requires WorklistState(f, head, reachable, {})
    ensures forall n :: n in reachable <==> Reach(f, head, n)
  {
    forall n | Reach(f, head, n)
      ensures n in reachable
    {
      var p :| Between(f, p, head, n);
      ClosedContainsReach(f, reachable, p);
    }
  }

  method ReachableNodes<N(==,!new)>(f: Flow<N>, head: N) returns (order: seq<N>)
    ensures forall n :: n in order <==> Reach(f, head, n)
    ensures NoDuplicates(order)
    ensures |order| > 0 && order[0] == head && DiscoveryOrder(f, order)
  {
    var todo := {head};
    var reachable: set<N> := {};
    order := [];
    ReachSelf(f, head);
    ghost var u := Universe(f, head);
    while todo != {}
      invariant WorklistState(f, head, reachable, todo)
      invariant OrderState(f, head, order, todo)
      invariant forall n :: n in order <==> n in reachable
      invariant forall n :: n in todo ==> n in u
      decreases u - reachable, todo
    {
      var node :| node in todo;
      if node in reachable {
        todo := todo - {node};
        continue;
      }
      var todo' := todo - {node} + NextSet(f, node);
      WorklistVisit(f, head, reachable, todo, node, todo');
      OrderVisit(f, head, order, todo, node, todo');
      reachable := reachable + {node};
      order := order + [node];
      todo := todo';
    }
    AllReachable(f, head, reachable);
  }

  ghost function Elements<N>(s: seq<N>): (r: set<N>) {
    set x | x in s
  }

  lemma PopAdvances<N(!new)>(f: Flow<N>, todo: seq<N>, k: nat)
    requires k < |todo|
    ensures Advanced(f, Elements(todo), todo[k], Elements(todo[..k] + todo[k + 1..] + Next(f, todo[k])))
    ensures Elements(todo[..k] + todo[k + 1..]) <= Elements(todo) <= Elements(todo[..k] + todo[k + 1..]) + {todo[k]}
  {
    var rest := todo[..k] + todo[k + 1..];
    forall n | n in todo && n != todo[k]
      ensures n in rest
    {
      var i :| 0 <= i < |todo| && todo[i] == n;
      assert rest[if i < k then i else i - 1] == n;
    }
  }

  /** What the walk found: the head, then the successors of each node visited. */
  function Found<N(==)>(f: Flow<N>, head: N, seen: seq<N>, j: nat): (r: seq<N>)
    requires j <= |seen|
  {
    if j == 0 then [head] else Next(f, seen[j - 1])
  }

  ghost predicate IsEntry<N>(f: Flow<N>, head: N, seen: seq<N>, p: (nat, nat)) {
    p.0 <= |seen| && p.1 < |Found(f, head, seen, p.0)|
  }

  /** Found earlier: from a node visited earlier, or earlier in its list. */
  predicate Earlier(p: (nat, nat), q: (nat, nat)) {
    p.0 < q.0 || (p.0 == q.0 && p.1 < q.1)
  }

  /** n is, of what was found and not visited, the latest found (depth first) or the earliest (breadth first). */
  ghost predicate IsTurn<N(!new)>(f: Flow<N>, head: N, seen: seq<N>, n: N, depthFirst: bool) {
    exists p :: TurnAt(f, head, seen, n, depthFirst, p)
  }

  ghost predicate TurnAt<N(!new)>(f: Flow<N>, head: N, seen: seq<N>, n: N, depthFirst: bool, p: (nat, nat)) {
    && IsEntry(f, head, seen, p) && Found(f, head, seen, p.0)[p.1] == n && n !in seen
    && forall q: (nat, nat) :: IsEntry(f, head, seen, q) && (if depthFirst then Earlier(p, q) else Earlier(q, p)) ==>
         Found(f, head, seen, q.0)[q.1] in seen
  }

  ghost predicate InTurn<N(!new)>(f: Flow<N>, head: N, order: seq<N>, depthFirst: bool) {
    forall k :: 0 <= k < |order| ==> IsTurn(f, head, order[..k], order[k], depthFirst)
  }

  /** Where the pending nodes were found, in that order; whatever else was found has been visited. */
  ghost predicate PendingFrom<N(!new)>(f: Flow<N>, head: N, seen: seq<N>, todo: seq<N>, at: seq<(nat, nat)>) {
    && |at| == |todo|
    && (forall i :: 0 <= i < |at| ==> IsEntry(f, head, seen, at[i]) && Found(f, head, seen, at[i].0)[at[i].1] == todo[i])
    && (forall i, j :: 0 <= i < j < |at| ==> Earlier(at[i], at[j]))
    && (forall q: (nat, nat) :: IsEntry(f, head, seen, q) ==> q in at || Found(f, head, seen, q.0)[q.1] in seen)
  }

  lemma PendingStart<N(!new)>(f: Flow<N>, head: N)
    ensures PendingFrom(f, head, [], [head], [(0, 0)])
  {
    forall q: (nat, nat) | IsEntry(f, head, [], q)
      ensures q in [(0, 0)]
    {
      assert q == (0, 0);
    }
  }

  lemma Others(at: seq<(nat, nat)>, k: nat, q: (nat, nat))
    requires k < |at|
    ensures q in at ==> q == at[k] || q in at[..k] + at[k + 1..]
  {
    if q in at && q != at[k] {
      var i :| 0 <= i < |at| && at[i] == q;
      assert (at[..k] + at[k + 1..])[if i < k then i else i - 1] == q;
    }
  }

  /** Taking an entry out, its node being visited. */
  lemma PendingPop<N(!new)>(f: Flow<N>, head: N, seen: seq<N>, todo: seq<N>, at: seq<(nat, nat)>, k: nat)
    returns (at': seq<(nat, nat)>)
    requires PendingFrom(f, head, seen, todo, at) && k < |todo| && todo[k] in seen
    ensures PendingFrom(f, head, seen, todo[..k] + todo[k + 1..], at')
  {
    hide Found;
    at' := at[..k] + at[k + 1..];
    forall q: (nat, nat) | IsEntry(f, head, seen, q)
      ensures q in at' || Found(f, head, seen, q.0)[q.1] in seen
    {
      Others(at, k, q);
    }
  }

  /** Visiting a node adds its successors at the end. */
  lemma PendingMore<N(!new)>(
    f: Flow<N>, head: N, seen: seq<N>, todo: seq<N>, at: seq<(nat, nat)>, n: N) returns (at': seq<(nat, nat)>)
    requires |at| == |todo|
    requires forall i :: 0 <= i < |at| ==> IsEntry(f, head, seen, at[i]) && Found(f, head, seen, at[i].0)[at[i].1] == todo[i]
    requires forall i, j :: 0 <= i < j < |at| ==> Earlier(at[i], at[j])
    requires forall q: (nat, nat) :: IsEntry(f, head, seen, q) ==> q in at || Found(f, head, seen, q.0)[q.1] in seen + [n]
    ensures PendingFrom(f, head, seen + [n], todo + Next(f, n), at')
  {
    var k, succ, seen', todo' := |seen| + 1, Next(f, n), seen + [n], todo + Next(f, n);
    var news := seq(|succ|, i requires 0 <= i < |succ| => (k, i));
    at' := at + news;
    forall q: (nat, nat) | q.0 < k
      ensures IsEntry(f, head, seen, q) <==> IsEntry(f, head, seen', q)
      ensures IsEntry(f, head, seen, q) ==> Found(f, head, seen, q.0) == Found(f, head, seen', q.0)
    {
      assert q.0 > 0 ==> seen'[q.0 - 1] == seen[q.0 - 1];
    }
    assert Found(f, head, seen', k) == succ;
    forall i | 0 <= i < |at'|
      ensures IsEntry(f, head, seen', at'[i]) && Found(f, head, seen', at'[i].0)[at'[i].1] == todo'[i]
    {
      if i < |at| { assert IsEntry(f, head, seen, at[i]); }
    }
    forall q: (nat, nat) | IsEntry(f, head, seen', q)
      ensures q in at' || Found(f, head, seen', q.0)[q.1] in seen'
    {
      if q.0 < k {
        assert IsEntry(f, head, seen, q);
      } else {
        assert q == (k, q.1) && news[q.1] == q;
      }
    }
  }

  /** The entry popped is the one whose turn it is. */
  lemma PoppedInTurn<N(!new)>(f: Flow<N>, head: N, seen: seq<N>, todo: seq<N>, at: seq<(nat, nat)>, depthFirst: bool, k: nat)
    requires PendingFrom(f, head, seen, todo, at) && todo != [] && k == (if depthFirst then |todo| - 1 else 0) && todo[k] !in seen
    ensures IsTurn(f, head, seen, todo[k], depthFirst)
  {
    assert forall i :: 0 <= i < |at| && i != k ==> if depthFirst then Earlier(at[i], at[k]) else Earlier(at[k], at[i]);
    assert forall q: (nat, nat) :: q in at ==> !(if depthFirst then Earlier(at[k], q) else Earlier(q, at[k]));
    assert TurnAt(f, head, seen, todo[k], depthFirst, at[k]);
  }

  /** Visiting the node popped: its turn comes, and the pending entries follow. */
  lemma VisitPending<N(!new)>(
    f: Flow<N>, head: N, order: seq<N>, todo: seq<N>, at: seq<(nat, nat)>, depthFirst: bool, k: nat) returns (at': seq<(nat, nat)>)
    requires PendingFrom(f, head, order, todo, at) && todo != [] && k == if depthFirst then |todo| - 1 else 0
    requires todo[k] !in order && InTurn(f, head, order, depthFirst)
    ensures PendingFrom(f, head, order + [todo[k]], todo[..k] + todo[k + 1..] + Next(f, todo[k]), at')
    ensures InTurn(f, head, order + [todo[k]], depthFirst)
  {
    hide InTurn, IsTurn;
    var n := todo[k];
    PoppedInTurn(f, head, order, todo, at, depthFirst, k);
    MoreTurns(f, head, order, n, depthFirst);
    var rest, left := todo[..k] + todo[k + 1..], at[..k] + at[k + 1..];
    forall q: (nat, nat) | IsEntry(f, head, order, q)
      ensures q in left || Found(f, head, order, q.0)[q.1] in order + [n]
    {
      Others(at, k, q);
    }
    at' := PendingMore(f, head, order, rest, left, n);
  }

  lemma MoreTurns<N(!new)>(f: Flow<N>, head: N, order: seq<N>, n: N, depthFirst: bool)
    requires InTurn(f, head, order, depthFirst) && IsTurn(f, head, order, n, depthFirst)
    ensures InTurn(f, head, order + [n], depthFirst)
  {
    hide IsTurn;
    var order' := order + [n];
    forall i | 0 <= i < |order'|
      ensures IsTurn(f, head, order'[..i], order'[i], depthFirst)
    {
      assert order'[..i] == order[..i];
    }
  }

  /** Walks the graph from its head, depth first (the pending list is a stack) or breadth first
      (a queue): every reachable node once, each when its turn comes. */
  method WalkFirst<N(==,!new)>(f: Flow<N>, head: N, depthFirst: bool) returns (order: seq<N>)
    ensures forall n :: n in order <==> Reach(f, head, n)
    ensures NoDuplicates(order)
    ensures |order| > 0 && order[0] == head && DiscoveryOrder(f, order) && InTurn(f, head, order, depthFirst)
  {
    hide DiscoveryOrder, HasParent, NoDuplicates, Advanced, InTurn, PendingFrom;
    var todo := [head];
    var done: set<N> := {};
    order := [];
    ReachSelf(f, head);
    OrderStart(f, head);
    ghost var u := Universe(f, head);
    ghost var at: seq<(nat, nat)> := [(0, 0)];
    PendingStart(f, head);
    NoTurns(f, head, depthFirst);
    while todo != []
      invariant WorklistState(f, head, done, Elements(todo))
      invariant OrderState(f, head, order, Elements(todo))
      invariant forall n :: n in order <==> n in done
      invariant forall n :: n in Elements(todo) ==> n in u
      invariant PendingFrom(f, head, order, todo, at) && InTurn(f, head, order, depthFirst)
      decreases u - done, |todo|
    {
      var k := if depthFirst then |todo| - 1 else 0;
      var node := todo[k];
      PopAdvances(f, todo, k);
      if node in done {
        at := PendingPop(f, head, order, todo, at, k);
        todo := todo[..k] + todo[k + 1..];
        continue;
      }
      ghost var before := Elements(todo);
      at := VisitPending(f, head, order, todo, at, depthFirst, k);
      todo := todo[..k] + todo[k + 1..] + Next(f, node);
      WorklistVisit(f, head, done, before, node, Elements(todo));
      OrderVisit(f, head, order, before, node, Elements(todo));
      done := done + {node};
      order := order + [node];
    }
    assert Elements(todo) == {};
    AllReachable(f, head, done);
  }

  lemma NoTurns<N(!new)>(f: Flow<N>, head: N, depthFirst: bool)
    ensures InTurn(f, head, [], depthFirst)
  {}

  lemma OneTurn<N(!new)>(f: Flow<N>, head: N, seen: seq<N>, m: N, n: N, depthFirst: bool)
    requires IsTurn(f, head, seen, m, depthFirst) && IsTurn(f, head, seen, n, depthFirst)
    ensures m == n
  {
    hide Found;
    var p :| TurnAt(f, head, seen, m, depthFirst, p);
    var q :| TurnAt(f, head, seen, n, depthFirst, q);
    assert p == q || Earlier(p, q) || Earlier(q, p);
  }

  /** There is only one such order. */
  lemma {:induction false} OneOrder<N(!new)>(f: Flow<N>, head: N, order: seq<N>, order': seq<N>, depthFirst: bool, k: nat)
    requires InTurn(f, head, order, depthFirst) && InTurn(f, head, order', depthFirst) && k <= |order| && k <= |order'|
    ensures order[..k] == order'[..k]
  {
    hide IsTurn;
    if k > 0 {
      OneOrder(f, head, order, order', depthFirst, k - 1);
      var seen, m, n := order[..k - 1], order[k - 1], order'[k - 1];
      assert IsTurn(f, head, seen, m, depthFirst) && IsTurn(f, head, seen, n, depthFirst);
      OneTurn(f, head, seen, m, n, depthFirst);
      assert order[..k] == seen + [m] && order'[..k] == seen + [n];
    }
  }

  lemma OrderStart<N(!new)>(f: Flow<N>, head: N)
    ensures OrderState(f, head, [], Elements([head]))
  {
    assert Elements([head]) == {head};
  }

  // ----- dominators -----

  /** d belongs to the meet over the predecessors of n, completed with n. */
  ghost predicate InMeet<N(!new)>(f: Flow<N>, dom: map<N, set<N>>, n: N, d: N) {
    d == n || forall p :: p in Prev(f, n) && p in dom ==> d in dom[p]
  }

  ghost predicate MeetStable<N(!new)>(f: Flow<N>, head: N, dom: map<N, set<N>>, n: N) {
    n in dom && n != head ==> forall d :: d in dom[n] ==> InMeet(f, dom, n, d)
  }

  /** The set the source computes for one node: the meet of the known predecessors. */
  method MeetOfPredecessors<N(==,!new)>(f: Flow<N>, dom: map<N, set<N>>, node: N) returns (newDom: set<N>)
    requires exists p :: p in Prev(f, node) && p in dom
    ensures forall d :: d in newDom <==> InMeet(f, dom, node, d)
  {
    var preds := Prev(f, node);
    var known := false;
    newDom := {};
    for i := 0 to |preds|
      invariant known <==> exists j :: 0 <= j < i && preds[j] in dom
      invariant known ==>
        forall d :: d in newDom <==> forall j :: 0 <= j < i && preds[j] in dom ==> d in dom[preds[j]]
    {
      if preds[i] in dom {
        if !known {
          newDom := dom[preds[i]];
          known := true;
        }
        newDom := newDom * dom[preds[i]];
      }
    }
    assert known;
    newDom := newDom + {node};
  }

  /** At a fixpoint, whatever is listed for n lies on every path to n. */
  lemma {:induction false} FixpointOnPath<N(!new)>(f: Flow<N>, head: N, dom: map<N, set<N>>, p: seq<N>, d: N)
    requires Coherent(f)
    requires head in dom && dom[head] == {head}
    requires forall n :: n in dom <==> Reach(f, head, n)
    requires forall n :: n in dom ==> MeetStable(f, head, dom, n)
    requires IsPath(f, p) && p[0] == head
    requires p[|p| - 1] in dom && d in dom[p[|p| - 1]]
    ensures d in p
    decreases |p|
  {
    var n := p[|p| - 1];
    if n == head || d == n {
    } else {
      var m := p[|p| - 2];
      assert Edge(f, m, n) && m in Prev(f, n);
      PrefixPath(f, p, |p| - 2);
      assert Reach(f, head, m);
      assert MeetStable(f, head, dom, n) && InMeet(f, dom, n, d);
      assert p[..|p| - 1][|p| - 2] == m;
      FixpointOnPath(f, head, dom, p[..|p| - 1], d);
    }
  }

  /** A dominator of n is in the meet as long as the table over-approximates. */
  lemma DominatorInMeet<N(!new)>(f: Flow<N>, head: N, dom: map<N, set<N>>, n: N, d: N)
    requires Coherent(f) && n != head
    requires forall m, e :: m in dom && Dominates(f, head, e, m) ==> e in dom[m]
    requires Dominates(f, head, d, n)
    ensures InMeet(f, dom, n, d)
  {
    if d != n {
      forall p | p in Prev(f, n) && p in dom
        ensures d in dom[p]
      {
        assert Edge(f, p, n);
        DominatesPredecessor(f, head, d, p, n);
      }
    }
  }

  /** Shrinking the entry of one node keeps the meets of nodes it does not precede. */
  lemma MeetFrame<N(!new)>(f: Flow<N>, head: N, dom: map<N, set<N>>, node: N, newDom: set<N>, n: N)
    requires Coherent(f) && node in dom && n in dom && n != node
    requires MeetStable(f, head, dom, n) && !Edge(f, node, n)
    ensures MeetStable(f, head, dom[node := newDom], n)
  {
    assert node !in Prev(f, n);
    assert dom[node := newDom][n] == dom[n];
    forall d | d in dom[n] && n != head
      ensures InMeet(f, dom[node := newDom], n, d)
    {
      assert InMeet(f, dom, n, d);
    }
  }

  ghost function Pairs<N(!new)>(dom: map<N, set<N>>): (s: set<(N, N)>)
    ensures forall n, d :: (n, d) in s <==> n in dom && d in dom[n]
  {
    set n, d | n in dom && d in dom[n] :: (n, d)
  }

  lemma PairsShrink<N(!new)>(dom: map<N, set<N>>, node: N, newDom: set<N>)
    requires node in dom && newDom <= dom[node] && newDom != dom[node]
    ensures Pairs(dom[node := newDom]) < Pairs(dom)
  {
    var d :| d in dom[node] && d !in newDom;
    assert (node, d) in Pairs(dom);
    assert (node, d) !in Pairs(dom[node := newDom]);
  }

  /** What the dominator worklist keeps: the table lies between the dominators and its own meets. */
  ghost predicate DominatorState<N(!new)>(f: Flow<N>, head: N, dom: map<N, set<N>>, todo: set<N>) {
    && head in dom && dom[head] == {head}
    && (forall n :: n in dom <==> Reach(f, head, n))
    && (forall n :: n in dom ==> dom[n] <= dom.Keys)
    && (forall n, d :: n in dom && n != head && InMeet(f, dom, n, d) && d in dom ==> d in dom[n])
    && (forall n :: n in dom && n !in todo ==> MeetStable(f, head, dom, n))
    && (forall n, d :: n in dom && Dominates(f, head, d, n) ==> d in dom[n])
  }

  lemma DominatorStateInit<N(!new)>(f: Flow<N>, head: N, dom: map<N, set<N>>, nodes: set<N>)
    requires forall n :: n in nodes <==> Reach(f, head, n)
    requires head in nodes && dom.Keys == nodes && dom[head] == {head}
    requires forall n :: n in nodes && n != head ==> dom[n] == nodes
    ensures DominatorState(f, head, dom, nodes)
  {
    forall n, d | n in dom && Dominates(f, head, d, n)
      ensures d in dom[n]
    {
      DominatorReachable(f, head, d, n);
      if n == head { HeadDominators(f, head, d); }
    }
  }

  lemma DominatorStateDone<N(!new)>(f: Flow<N>, head: N, dom: map<N, set<N>>)
    requires Coherent(f) && DominatorState(f, head, dom, {})
    ensures forall n, d :: n in dom ==> (d in dom[n] <==> Dominates(f, head, d, n))
  {
    forall n, d | n in dom && d in dom[n]
      ensures Dominates(f, head, d, n)
    {
      forall q | Between(f, q, head, n)
        ensures d in q
      {
        FixpointOnPath(f, head, dom, q, d);
      }
    }
  }

  lemma MeetBelow<N(!new)>(f: Flow<N>, head: N, dom: map<N, set<N>>, todo: set<N>, node: N, newDom: set<N>)
    requires Coherent(f) && DominatorState(f, head, dom, todo) && node in dom && node != head
    requires exists p :: p in Prev(f, node) && p in dom
    requires forall d :: d in newDom <==> InMeet(f, dom, node, d)
    ensures newDom <= dom[node]
  {
    forall d | d in newDom
      ensures d in dom[node]
    {
      if d != node {
        var p :| p in Prev(f, node) && p in dom;
        assert d in dom[p] && dom[p] <= dom.Keys;
      }
    }
  }

  lemma DominatorStateSkip<N(!new)>(f: Flow<N>, head: N, dom: map<N, set<N>>, todo: set<N>, node: N)
    requires DominatorState(f, head, dom, todo) && MeetStable(f, head, dom, node)
    ensures DominatorState(f, head, dom, todo - {node})
  {
    forall n | n in dom && n !in todo - {node}
      ensures MeetStable(f, head, dom, n)
    {
      if n in todo {
        assert n == node;
      }
    }
  }

  /** One update of the dominator worklist keeps its invariant. */
  lemma DominatorStateUpdate<N(!new)>(
    f: Flow<N>, head: N, dom: map<N, set<N>>, node: N, newDom: set<N>, todo: set<N>, todo': set<N>)
    requires Coherent(f) && DominatorState(f, head, dom, todo)
    requires node in dom && node != head
    requires forall d :: d in newDom <==> InMeet(f, dom, node, d)
    requires newDom <= dom[node]
    requires forall n :: n in todo && n != node ==> n in todo'
    requires forall x :: Edge(f, node, x) ==> x in todo'
    ensures DominatorState(f, head, dom[node := newDom], todo')
  {
    var dom' := dom[node := newDom];
    forall n, d | n in dom' && n != head && d in dom' && InMeet(f, dom', n, d)
      ensures d in dom'[n]
    {
      assert InMeet(f, dom, n, d);
    }
    forall n | n in dom' && n !in todo'
      ensures MeetStable(f, head, dom', n)
    {
      if n == node {
        assert node !in Prev(f, node) by {
          assert !Edge(f, node, node);
        }
        forall d | d in dom'[node]
          ensures InMeet(f, dom', node, d)
        {
          assert InMeet(f, dom, node, d);
        }
      } else {
        MeetFrame(f, head, dom, node, newDom, n);
      }
    }
    forall n, d | n in dom' && Dominates(f, head, d, n)
      ensures d in dom'[n]
    {
      if n == node {
        DominatorInMeet(f, head, dom, node, d);
      }
    }
  }

  method GenericDominators<N(==,!new)>(f: Flow<N>, head: N) returns (dom: map<N, set<N>>)
    requires Coherent(f)
    ensures forall n :: n in dom <==> Reach(f, head, n)
    ensures forall n, d :: n in dom ==> (d in dom[n] <==> Dominates(f, head, d, n))
  {
    var order := ReachableNodes(f, head);
    var nodes := set n | n in order;
    dom := map n | n in nodes :: nodes;
    dom := dom[head := {head}];
    var todo := nodes;
    DominatorStateInit(f, head, dom, nodes);
    while todo != {}
      invariant forall n :: n in todo ==> n in dom
      invariant DominatorState(f, head, dom, todo)
      decreases Pairs(dom), todo
    {
      var node :| node in todo;
      // The state of the head must not change
      if node == head {
        DominatorStateSkip(f, head, dom, todo, node);
        todo := todo - {node};
        continue;
      }
      var p := ReachablePredecessor(f, head, node);
      var newDom := MeetOfPredecessors(f, dom, node);
      MeetBelow(f, head, dom, todo, node, newDom);
      if newDom == dom[node] {
        DominatorStateSkip(f, head, dom, todo, node);
        todo := todo - {node};
        continue;
      }
      PairsShrink(dom, node, newDom);
      forall b | Edge(f, node, b)
        ensures b in dom
      {
        ReachStep(f, head, node, b);
      }
      DominatorStateUpdate(f, head, dom, node, newDom, todo, todo - {node} + NextSet(f, node));
      todo := todo - {node} + NextSet(f, node);
      dom := dom[node := newDom];
    }
    DominatorStateDone(f, head, dom);
  }

  // ----- the walk over strict dominators -----

  /** There is a path from x to y none of whose nodes but the first is in s. */
  ghost predicate ReachAvoiding<N(!new)>(f: Flow<N>, x: N, y: N, s: set<N>) {
    exists q :: Between(f, q, x, y) && forall i :: 0 < i < |q| ==> q[i] !in s
  }

  lemma AvoidingSelf<N(!new)>(f: Flow<N>, x: N, s: set<N>)
    ensures ReachAvoiding(f, x, x, s)
  {
    TrivialPath(f, x);
  }

  lemma AvoidingStep<N(!new)>(f: Flow<N>, w: N, x: N, y: N, s: set<N>)
    requires Edge(f, w, x) && x !in s && ReachAvoiding(f, x, y, s)
    ensures ReachAvoiding(f, w, y, s)
  {
    var q :| Between(f, q, x, y) && forall i :: 0 < i < |q| ==> q[i] !in s;
    var r := [w] + q;
    TrivialPath(f, w);
    assert Between(f, [w, x], w, x);
    JoinPaths(f, [w, x], q);
    assert [w, x] + q[1..] == r;
  }

  /** A dominator of y that the path from x to y avoids dominates x too. */
  lemma DominatesAcross<N(!new)>(f: Flow<N>, head: N, d: N, x: N, y: N, s: set<N>)
    requires ReachAvoiding(f, x, y, s) && d in s && Dominates(f, head, d, y)
    ensures Dominates(f, head, d, x)
  {
    var q :| Between(f, q, x, y) && forall i :: 0 < i < |q| ==> q[i] !in s;
    forall r | Between(f, r, head, x)
      ensures d in r
    {
      JoinPaths(f, r, q);
      assert d in r + q[1..];
    }
  }

  /** A path that meets its last node only at the end. */
  lemma {:induction false} FirstArrival<N(!new)>(f: Flow<N>, p: seq<N>, a: N, b: N) returns (q: seq<N>)
    requires Between(f, p, a, b)
    ensures Between(f, q, a, b) && b !in q[..|q| - 1]
    decreases |p|
  {
    if b in p[..|p| - 1] {
      var i :| 0 <= i < |p| - 1 && p[i] == b;
      PrefixPath(f, p, i);
      q := FirstArrival(f, p[..i + 1], a, b);
    } else {
      q := p;
    }
  }

  /** Exploring backwards from cur cannot exhaust the worklist before meeting a dominator. */
  lemma ExplorationMeetsHead<N(!new)>(f: Flow<N>, head: N, cur: N, seen: set<N>, done: set<N>)
    requires Coherent(f) && Reach(f, head, cur) && cur in done - seen
    requires forall x :: x in seen && Reach(f, head, x) ==> StrictlyDominates(f, head, cur, x)
    requires forall x, w :: x in done - seen && Edge(f, w, x) ==> w in done
    ensures head in done - seen
  {
    var p :| Between(f, p, head, cur);
    var q := FirstArrival(f, p, head, cur);
    var k := |q| - 1;
    while k > 0
      invariant 0 <= k < |q| && q[k] in done - seen
    {
      assert Edge(f, q[k - 1], q[k]);
      PrefixPath(f, q, k - 1);
      assert cur !in q[..k];
      assert !Dominates(f, head, cur, q[k - 1]);
      k := k - 1;
    }
  }

  /** What the backward exploration of one level keeps. */
  ghost predicate LevelState<N(!new)>(
    f: Flow<N>, cur: N, remaining: set<N>, seen: set<N>, todo: set<N>, done: set<N>)
  {
    && (forall x :: x in todo || x in done - seen ==> ReachAvoiding(f, x, cur, remaining))
    && (forall x :: x in done - seen ==> x !in remaining)
    && (forall x, w :: x in done - seen && Edge(f, w, x) ==> w in done || w in todo)
    && cur !in seen && (cur in todo || cur in done) && seen <= done
  }

  lemma LevelStateAdvance<N(!new)>(
    f: Flow<N>, cur: N, remaining: set<N>, seen: set<N>, todo: set<N>, done: set<N>, n: N)
    requires Coherent(f)
    requires LevelState(f, cur, remaining, seen, todo, done)
    requires n in todo && n !in done && n !in remaining
    ensures LevelState(f, cur, remaining, seen, todo - {n} + NextSet(Reversed(f), n), done + {n})
  {
    forall w | Edge(Reversed(f), n, w)
      ensures ReachAvoiding(f, w, cur, remaining)
    {
      assert Edge(f, w, n);
      AvoidingStep(f, w, n, cur, remaining);
    }
    forall w | Edge(f, w, n)
      ensures Edge(Reversed(f), n, w)
    {
    }
  }

  /** The node found is the immediate dominator, and dominates all that was explored. */
  lemma LevelFound<N(!new)>(
    f: Flow<N>, head: N, cur: N, remaining: set<N>, seen: set<N>, todo: set<N>, done: set<N>, n: N)
    requires Coherent(f) && Reach(f, head, cur)
    requires forall d :: d in remaining <==> StrictlyDominates(f, head, d, cur)
    requires forall x :: x in seen && Reach(f, head, x) ==> StrictlyDominates(f, head, cur, x)
    requires LevelState(f, cur, remaining, seen, todo, done)
    requires n in todo && n in remaining
    ensures IsImmediateDominator(f, head, n, cur)
    ensures forall x :: x in done && Reach(f, head, x) ==> StrictlyDominates(f, head, n, x)
  {
    forall d | StrictlyDominates(f, head, d, cur)
      ensures Dominates(f, head, d, n)
    {
      DominatesAcross(f, head, d, n, cur, remaining);
    }
    forall x | x in done && Reach(f, head, x)
      ensures StrictlyDominates(f, head, n, x)
    {
      if x in seen {
        DominatesTrans(f, head, n, cur, x);
        if x == n {
          DominatesAntisym(f, head, n, cur);
        }
      } else {
        DominatesAcross(f, head, n, x, cur, remaining);
      }
    }
  }

  /** One level of the walk: the next dominator going backwards from cur. */
  method NextDominator<N(==,!new)>(f: Flow<N>, ghost head: N, cur: N, remaining: set<N>, seen: set<N>)
      returns (found: N, done: set<N>)
    requires Coherent(f) && Reach(f, head, cur) && remaining != {}
    requires forall d :: d in remaining <==> StrictlyDominates(f, head, d, cur)
    requires forall x :: x in seen && Reach(f, head, x) ==> StrictlyDominates(f, head, cur, x)
    requires cur !in seen
    ensures found in remaining && IsImmediateDominator(f, head, found, cur)
    ensures forall x :: x in done && Reach(f, head, x) ==> StrictlyDominates(f, head, found, x)
    ensures found !in done
  {
    ghost var d :| d in remaining;
    if cur == head {
      HeadDominators(f, head, d);
      assert false;
    }
    DominatesSelf(f, head, cur);
    done := seen;
    found := cur;
    var todo := {cur};
    AvoidingSelf(f, cur, remaining);
    ghost var u := Universe(Reversed(f), cur);
    while todo != {}
      invariant LevelState(f, cur, remaining, seen, todo, done)
      invariant forall x :: x in todo ==> x in u
      decreases u - done, todo
    {
      var node :| node in todo;
      if node in done {
        todo := todo - {node};
        continue;
      }
      if node in remaining {
        LevelFound(f, head, cur, remaining, seen, todo, done, node);
        return node, done;
      }
      LevelStateAdvance(f, cur, remaining, seen, todo, done, node);
      done := done + {node};
      todo := todo - {node} + NextSet(Reversed(f), node);
    }
    ExplorationMeetsHead(f, head, cur, seen, done);
    assert false;
  }

  /** The walk lists the strict dominators of a node, nearest first. */
  ghost predicate DominatorWalk<N(!new)>(f: Flow<N>, head: N, node: N, walk: seq<N>) {
    && NoDuplicates(walk)
    && (forall d :: d in walk <==> StrictlyDominates(f, head, d, node))
    && (forall i, j :: 0 <= i < j < |walk| ==> Dominates(f, head, walk[j], walk[i]))
  }

  method WalkDominators<N(==,!new)>(f: Flow<N>, ghost head: N, node: N, dom: map<N, set<N>>)
      returns (walk: seq<N>)
    requires Coherent(f)
    requires node in dom ==> Reach(f, head, node)
    requires node in dom ==> forall d :: d in dom[node] <==> Dominates(f, head, d, node)
    ensures node !in dom ==> walk == []
    ensures node in dom ==> DominatorWalk(f, head, node, walk)
  {
    walk := [];
    if node !in dom {
      return;
    }
    var remaining := dom[node] - {node};
    var done: set<N> := {};
    var cur := node;
    while remaining != {}
      invariant Reach(f, head, cur) && cur !in done
      invariant forall d :: d in remaining <==> StrictlyDominates(f, head, d, cur)
      invariant forall x :: x in done && Reach(f, head, x) ==> StrictlyDominates(f, head, cur, x)
      invariant NoDuplicates(walk)
      invariant forall d :: StrictlyDominates(f, head, d, node) <==> d in walk || d in remaining
      invariant forall i :: 0 <= i < |walk| ==> walk[i] !in remaining
      invariant forall i :: 0 <= i < |walk| ==> Dominates(f, head, cur, walk[i])
      invariant forall i, j :: 0 <= i < j < |walk| ==> Dominates(f, head, walk[j], walk[i])
      decreases remaining
    {
      var found, explored := NextDominator(f, head, cur, remaining, done);
      StrictDominatorsStep(f, head, found, cur);
      forall i | 0 <= i < |walk|
        ensures Dominates(f, head, found, walk[i])
      {
        DominatesTrans(f, head, found, cur, walk[i]);
      }
      walk := walk + [found];
      remaining := remaining - {found};
      done := explored;
      cur := found;
    }
  }

  /** Strict dominators of n are its immediate dominator and that one's strict dominators. */
  lemma StrictDominatorsStep<N(!new)>(f: Flow<N>, head: N, i: N, n: N)
    requires Reach(f, head, n) && IsImmediateDominator(f, head, i, n)
    ensures Reach(f, head, i)
    ensures forall d :: StrictlyDominates(f, head, d, n) <==> d == i || StrictlyDominates(f, head, d, i)
  {
    DominatorReachable(f, head, i, n);
    forall d | StrictlyDominates(f, head, d, i)
      ensures StrictlyDominates(f, head, d, n)
    {
      DominatesTrans(f, head, d, i, n);
      if d == n {
        DominatesAntisym(f, head, i, n);
      }
    }
  }

  // ----- immediate dominators -----

  ghost predicate ImmediateDominators<N(!new)>(f: Flow<N>, head: N, idoms: map<N, N>) {
    && (forall n :: n in idoms <==> Reach(f, head, n) && n != head)
    && (forall n :: n in idoms ==> IsImmediateDominator(f, head, idoms[n], n))
  }

  lemma WalkStart<N(!new)>(f: Flow<N>, head: N, node: N, walk: seq<N>)
    requires DominatorWalk(f, head, node, walk)
    ensures walk == [] <==> node == head
    ensures walk != [] ==> IsImmediateDominator(f, head, walk[0], node)
  {
    DominatesSelf(f, head, node);
    if walk == [] {
      assert !StrictlyDominates(f, head, head, node);
    } else {
      assert walk[0] in walk;
      if node == head {
        HeadDominators(f, head, walk[0]);
      }
      forall d | StrictlyDominates(f, head, d, node)
        ensures Dominates(f, head, d, walk[0])
      {
        var j :| 0 <= j < |walk| && walk[j] == d;
      }
    }
  }

  method ComputeImmediateDominators<N(==,!new)>(f: Flow<N>, head: N) returns (idoms: map<N, N>)
    requires Coherent(f)
    ensures ImmediateDominators(f, head, idoms)
  {
    var dom := GenericDominators(f, head);
    idoms := map[];
    var todo := dom.Keys;
    while todo != {}
      invariant todo <= dom.Keys
      invariant forall n :: n in idoms <==> n in dom && n !in todo && n != head
      invariant forall n :: n in idoms ==> IsImmediateDominator(f, head, idoms[n], n)
      decreases todo
    {
      var node :| node in todo;
      todo := todo - {node};
      var walk := WalkDominators(f, head, node, dom);
      WalkStart(f, head, node, walk);
      if walk != [] {
        idoms := idoms[node := walk[0]];
      }
    }
  }

  // ----- dominance frontiers -----

  /** x dominates a reachable predecessor of y without strictly dominating y. */
  ghost predicate InFrontier<N(!new)>(f: Flow<N>, head: N, x: N, y: N) {
    exists p :: Edge(f, p, y) && FrontierVia(f, head, x, p, y)
  }

  ghost predicate FrontierVia<N(!new)>(f: Flow<N>, head: N, x: N, p: N, y: N) {
    Reach(f, head, p) && Dominates(f, head, x, p) && !StrictlyDominates(f, head, x, y)
  }

  function Front<N(==)>(frontier: map<N, set<N>>, x: N): (r: set<N>) {
    if x in frontier then frontier[x] else {}
  }

  function AddFront<N(==,!new)>(frontier: map<N, set<N>>, x: N, y: N): (r: map<N, set<N>>)
    ensures forall a, b :: b in Front(r, a) <==> b in Front(frontier, a) || (a == x && b == y)
  {
    frontier[x := Front(frontier, x) + {y}]
  }

  /** A node with a single predecessor is in no frontier. */
  lemma SinglePredecessorNoFrontier<N(!new)>(f: Flow<N>, head: N, x: N, y: N)
    requires Coherent(f) && y != head && Reach(f, head, y) && |Prev(f, y)| < 2
    ensures !InFrontier(f, head, x, y)
  {
    if InFrontier(f, head, x, y) {
      var q0 :| Between(f, q0, head, y);
      var q := FirstArrival(f, q0, head, y);
      var p := q[|q| - 2];
      assert Edge(f, p, y) && p in Prev(f, y) && p in q[..|q| - 1];
      PrefixPath(f, q, |q| - 2);
      forall w | Edge(f, w, y)
        ensures w == p
      {
        assert w in Prev(f, y);
      }
      DominatesSelf(f, head, p);
      DominatesFromPredecessors(f, head, p, y);
      DominatesFromPredecessors(f, head, x, y);
      DominatesAntisym(f, head, p, y);
    }
  }

  /** Where the runner may still be: between p and the immediate dominator of y. */
  ghost predicate RunnerState<N(!new)>(
    f: Flow<N>, head: N, frontier: map<N, set<N>>, y: N, stop: N, p: N, runner: N)
  {
    && Dominates(f, head, stop, runner) && Dominates(f, head, runner, p) && Reach(f, head, runner)
    && (forall x :: Dominates(f, head, x, p) ==> Dominates(f, head, x, runner) || y in Front(frontier, x))
  }

  lemma RunnerStep<N(!new)>(
    f: Flow<N>, head: N, idoms: map<N, N>, frontier: map<N, set<N>>, y: N, p: N, runner: N)
    requires ImmediateDominators(f, head, idoms) && y in idoms
    requires Reach(f, head, p) && Edge(f, p, y)
    requires RunnerState(f, head, frontier, y, idoms[y], p, runner) && runner != idoms[y]
    ensures runner in idoms && InFrontier(f, head, runner, y)
    ensures RunnerState(f, head, AddFront(frontier, runner, y), y, idoms[y], p, idoms[runner])
  {
    var stop := idoms[y];
    if runner == head {
      HeadDominators(f, head, stop);
    }
    var up := idoms[runner];
    assert StrictlyDominates(f, head, stop, runner);
    StrictDominatorsStep(f, head, up, runner);
    assert Dominates(f, head, stop, up);
    if StrictlyDominates(f, head, runner, y) {
      assert Dominates(f, head, runner, stop);
      DominatesAntisym(f, head, stop, runner);
    }
    assert FrontierVia(f, head, runner, p, y);
    DominatesTrans(f, head, up, runner, p);
    var frontier' := AddFront(frontier, runner, y);
    forall x | Dominates(f, head, x, p)
      ensures Dominates(f, head, x, up) || y in Front(frontier', x)
    {
      if y in Front(frontier, x) || x == runner {
      } else {
        assert StrictlyDominates(f, head, x, runner);
      }
    }
  }

  ghost function StrictSet<N(!new)>(f: Flow<N>, head: N, u: set<N>, n: N): (r: set<N>) {
    set d | d in u && StrictlyDominates(f, head, d, n)
  }

  lemma StrictSetShrinks<N(!new)>(f: Flow<N>, head: N, u: set<N>, i: N, n: N)
    requires Reach(f, head, n) && IsImmediateDominator(f, head, i, n) && i in u
    ensures StrictSet(f, head, u, i) < StrictSet(f, head, u, n)
  {
    StrictDominatorsStep(f, head, i, n);
    assert i in StrictSet(f, head, u, n) && i !in StrictSet(f, head, u, i);
  }

  /** Climbs from one predecessor of y to the immediate dominator of y. */
  method RunUp<N(==,!new)>(f: Flow<N>, ghost head: N, idoms: map<N, N>, y: N, p: N, frontier: map<N, set<N>>)
      returns (r: map<N, set<N>>)
    requires Coherent(f) && ImmediateDominators(f, head, idoms)
    requires y in idoms && p in idoms && Edge(f, p, y)
    ensures forall a, b :: b in Front(frontier, a) ==> b in Front(r, a)
    ensures forall a, b :: b in Front(r, a) ==> b in Front(frontier, a) || (b == y && InFrontier(f, head, a, y))
    ensures forall x :: FrontierVia(f, head, x, p, y) ==> y in Front(r, x)
  {
    r := frontier;
    var runner := p;
    var stop := idoms[y];
    ghost var u := idoms.Keys + {head};
    DominatesPredecessor(f, head, stop, p, y);
    DominatesSelf(f, head, p);
    while runner != stop
      invariant RunnerState(f, head, r, y, stop, p, runner)
      invariant forall a, b :: b in Front(frontier, a) ==> b in Front(r, a)
      invariant forall a, b :: b in Front(r, a) ==> b in Front(frontier, a) || (b == y && InFrontier(f, head, a, y))
      decreases StrictSet(f, head, u, runner)
    {
      RunnerStep(f, head, idoms, r, y, p, runner);
      StrictDominatorsStep(f, head, idoms[runner], runner);
      StrictSetShrinks(f, head, u, idoms[runner], runner);
      r := AddFront(r, runner, y);
      runner := idoms[runner];
    }
    forall x | FrontierVia(f, head, x, p, y)
      ensures y in Front(r, x)
    {
      if Dominates(f, head, x, stop) {
        StrictDominatorsStep(f, head, stop, y);
      }
    }
  }

  /** The frontier computed for every node but the head, which the source never lists. */
  ghost predicate FrontierTable<N(!new)>(f: Flow<N>, head: N, frontier: map<N, set<N>>) {
    forall x, y :: y in Front(frontier, x) <==> y != head && InFrontier(f, head, x, y)
  }

  method ComputeDominanceFrontier<N(==,!new)>(f: Flow<N>, head: N) returns (frontier: map<N, set<N>>)
    requires Coherent(f)
    ensures FrontierTable(f, head, frontier)
  {
    var idoms := ComputeImmediateDominators(f, head);
    frontier := map[];
    var todo := idoms.Keys;
    while todo != {}
      invariant todo <= idoms.Keys
      invariant forall x, y :: y in Front(frontier, x) ==> y in idoms && InFrontier(f, head, x, y)
      invariant forall x, y :: y in idoms && y !in todo && InFrontier(f, head, x, y) ==> y in Front(frontier, x)
      decreases todo
    {
      var node :| node in todo;
      todo := todo - {node};
      frontier := FrontierOfNode(f, head, idoms, node, frontier);
    }
    forall x, y | InFrontier(f, head, x, y)
      ensures Reach(f, head, y)
    {
      var p :| Edge(f, p, y) && FrontierVia(f, head, x, p, y);
      ReachStep(f, head, p, y);
    }
  }

  method FrontierOfNode<N(==,!new)>(f: Flow<N>, ghost head: N, idoms: map<N, N>, node: N, frontier: map<N, set<N>>)
      returns (r: map<N, set<N>>)
    requires Coherent(f) && ImmediateDominators(f, head, idoms) && node in idoms
    ensures forall a, b :: b in Front(frontier, a) ==> b in Front(r, a)
    ensures forall a, b :: b in Front(r, a) ==> b in Front(frontier, a) || (b == node && InFrontier(f, head, a, node))
    ensures forall x :: InFrontier(f, head, x, node) ==> node in Front(r, x)
  {
    r := frontier;
    var preds := Prev(f, node);
    if |preds| >= 2 {
      for i := 0 to |preds|
        invariant forall a, b :: b in Front(frontier, a) ==> b in Front(r, a)
        invariant forall a, b :: b in Front(r, a) ==>
          b in Front(frontier, a) || (b == node && InFrontier(f, head, a, node))
        invariant forall x, j :: 0 <= j < i && FrontierVia(f, head, x, preds[j], node) ==> node in Front(r, x)
      {
        assert Edge(f, preds[i], node);
        if preds[i] !in idoms {
          HeadHasNoFrontier(f, head, preds[i], node);
          continue;
        }
        r := RunUp(f, head, idoms, node, preds[i], r);
      }
    } else {
      forall x
        ensures !InFrontier(f, head, x, node)
      {
        SinglePredecessorNoFrontier(f, head, x, node);
      }
    }
  }

  /** An edge from the head, or from an unreachable node, puts nothing in a frontier. */
  lemma HeadHasNoFrontier<N(!new)>(f: Flow<N>, head: N, p: N, y: N)
    requires !Reach(f, head, p) || p == head
    requires y != head
    ensures forall x :: !FrontierVia(f, head, x, p, y)
  {
    forall x | Reach(f, head, p) && Dominates(f, head, x, p)
      ensures StrictlyDominates(f, head, x, y)
    {
      HeadDominators(f, head, x);
      DominatesSelf(f, head, y);
    }
  }
}
