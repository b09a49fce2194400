/**
 The demand-driven search for the definitions of a variable at the end of a block
 (miasm/analysis/data_flow.py, find_definitions_from_worklist): it finds exactly the
 definitions some path carries there.
 */
module DeadSearch {
  import opened Paths
  import opened Ir
  import opened DataFlow
  import opened DeadMeaning

  /** A variable wanted at the end of a block. */
  type Want = (Expr, Loc)

  datatype Index = Nowhere | Here(index: nat)

  /** The last assignment block of b that assigns x, scanning backwards. */
  method FindLast(b: Block, x: Expr) returns (r: Index)
    ensures r.Here? ==> r.index < |b| && x in b[r.index] && NotDefined(b, r.index + 1, |b|, x)
    ensures r.Nowhere? ==> NotDefined(b, 0, |b|, x)
  {
    var i := |b|;
    while i > 0
      invariant 0 <= i <= |b| && NotDefined(b, i, |b|, x)
    {
      i := i - 1;
      if x in b[i] {
        return Here(i);
      }
    }
    return Nowhere;
  }

  /** Along w, from block l to block l0, nothing past l assigns x. */
  ghost predicate ClearWay(f: Flow<Loc>, blocks: map<Loc, Block>, x: Expr, l: Loc, l0: Loc, w: seq<Loc>) {
    && Between(f, w, l, l0)
    && (forall k :: 0 < k < |w| ==> w[k] in blocks && NotDefined(blocks[w[k]], 0, |blocks[w[k]]|, x))
  }

  ghost predicate WantedFrom(f: Flow<Loc>, blocks: map<Loc, Block>, start: set<Want>, x: Expr, l: Loc, l0: Loc) {
    (x, l0) in start && exists w :: ClearWay(f, blocks, x, l, l0, w)
  }

  /** The search for x at block l answers some initial demand. */
  ghost predicate Wanted(f: Flow<Loc>, blocks: map<Loc, Block>, start: set<Want>, x: Expr, l: Loc) {
    exists l0 :: WantedFrom(f, blocks, start, x, l, l0)
  }

  lemma WantedStart(f: Flow<Loc>, blocks: map<Loc, Block>, start: set<Want>, x: Expr, l: Loc)
    requires (x, l) in start
    ensures Wanted(f, blocks, start, x, l)
  {
    assert ClearWay(f, blocks, x, l, l, [l]);
    assert WantedFrom(f, blocks, start, x, l, l);
  }

  lemma WantedBack(f: Flow<Loc>, blocks: map<Loc, Block>, start: set<Want>, x: Expr, l: Loc, p: Loc)
    requires Wanted(f, blocks, start, x, l) && l in blocks && NotDefined(blocks[l], 0, |blocks[l]|, x) && Edge(f, p, l)
    ensures Wanted(f, blocks, start, x, p)
  {
    hide NotDefined;
    var l0 :| WantedFrom(f, blocks, start, x, l, l0);
    var w :| ClearWay(f, blocks, x, l, l0, w);
    var w' := [p] + w;
    forall k | 0 <= k < |w'| - 1
      ensures Edge(f, w'[k], w'[k + 1])
    {
      if k > 0 { assert Edge(f, w[k - 1], w[k]); }
    }
    assert ClearWay(f, blocks, x, p, l0, w');
    assert WantedFrom(f, blocks, start, x, p, l0);
  }

  /** The definition reaches the end of a block where its variable was wanted. */
  ghost predicate Answers(f: Flow<Loc>, blocks: map<Loc, Block>, start: set<Want>, a: Node, l0: Loc) {
    (a.lval, l0) in start && l0 in blocks && Carried(f, blocks, a.lval, a.loc, a.index, l0, |blocks[l0]|)
  }

  ghost predicate IsAnswer(f: Flow<Loc>, blocks: map<Loc, Block>, start: set<Want>, a: Node) {
    exists l0 :: Answers(f, blocks, start, a, l0)
  }

  lemma FoundAnswers(f: Flow<Loc>, blocks: map<Loc, Block>, start: set<Want>, x: Expr, l: Loc, j: nat)
    requires Wanted(f, blocks, start, x, l) && LastOf(blocks, l, j, x)
    ensures IsAnswer(f, blocks, start, Node(l, j, x))
  {
    hide NotDefined;
    var l0 :| WantedFrom(f, blocks, start, x, l, l0);
    var w :| ClearWay(f, blocks, x, l, l0, w);
    if |w| > 1 {
      assert CarryPath(f, blocks, x, l, j, l0, w);
    }
    assert Answers(f, blocks, start, Node(l, j, x), l0);
  }

  /** What has been done for a processed demand: its definition was found here, or the
      predecessors were asked. */
  ghost predicate Settled(
    f: Flow<Loc>, blocks: map<Loc, Block>, defs: set<Node>, asked: set<Want>, x: Expr, l: Loc)
  {
    l in blocks ==>
      && (forall j :: LastOf(blocks, l, j, x) ==> Node(l, j, x) in defs)
      && (NotDefined(blocks[l], 0, |blocks[l]|, x) ==> forall p :: p in Prev(f, l) ==> (x, p) in asked)
  }

  /** What the search keeps. */
  ghost predicate SearchInv(
    f: Flow<Loc>, blocks: map<Loc, Block>, start: set<Want>, done: set<Want>, todo: set<Want>, defs: set<Node>)
  {
    && start <= done + todo
    && (forall e: Want :: e in done || e in todo ==> Wanted(f, blocks, start, e.0, e.1))
    && (forall e: Want :: e in done ==> Settled(f, blocks, defs, done + todo, e.0, e.1))
    && (forall a :: a in defs ==> IsAnswer(f, blocks, start, a))
  }

  lemma SettledMore(
    f: Flow<Loc>, blocks: map<Loc, Block>, defs: set<Node>, asked: set<Want>, defs': set<Node>, asked': set<Want>, x: Expr, l: Loc)
    requires Settled(f, blocks, defs, asked, x, l) && defs <= defs' && asked <= asked'
    ensures Settled(f, blocks, defs', asked', x, l)
  {}

  lemma SearchStep(
    f: Flow<Loc>, blocks: map<Loc, Block>, start: set<Want>, done: set<Want>, todo: set<Want>, defs: set<Node>,
    e: Want, todo': set<Want>, defs': set<Node>)
    requires SearchInv(f, blocks, start, done, todo, defs) && e in todo
    requires todo - {e} <= todo' && defs <= defs'
    requires forall e': Want :: e' in todo' && e' !in todo ==> Wanted(f, blocks, start, e'.0, e'.1)
    requires forall a :: a in defs' && a !in defs ==> IsAnswer(f, blocks, start, a)
    requires Settled(f, blocks, defs', done + {e} + todo', e.0, e.1)
    ensures SearchInv(f, blocks, start, done + {e}, todo', defs')
  {
    hide Wanted, IsAnswer, Settled;
    forall e': Want | e' in done
      ensures Settled(f, blocks, defs', done + {e} + todo', e'.0, e'.1)
    {
      SettledMore(f, blocks, defs, done + todo, defs', done + {e} + todo', e'.0, e'.1);
    }
  }

  /** At the end, whatever a path carries to a wanted end has been found. */
  lemma {:induction false} SearchBack(
    f: Flow<Loc>, blocks: map<Loc, Block>, start: set<Want>, done: set<Want>, defs: set<Node>, x: Expr, l0: Loc, w: seq<Loc>, k: nat)
    requires Coherent(f) && SearchInv(f, blocks, start, done, {}, defs)
    requires k < |w| && ClearWay(f, blocks, x, w[0], l0, w) && (x, l0) in start
    ensures (x, w[k]) in done
    decreases |w| - k
  {
    hide Wanted, IsAnswer;
    if k < |w| - 1 {
      SearchBack(f, blocks, start, done, defs, x, l0, w, k + 1);
      assert Edge(f, w[k], w[k + 1]) && w[k] in Prev(f, w[k + 1]);
      assert Settled(f, blocks, defs, done + {}, (x, w[k + 1]).0, (x, w[k + 1]).1);
    }
  }

  lemma SearchComplete(f: Flow<Loc>, blocks: map<Loc, Block>, start: set<Want>, done: set<Want>, defs: set<Node>, a: Node)
    requires Coherent(f) && SearchInv(f, blocks, start, done, {}, defs) && IsAnswer(f, blocks, start, a)
    ensures a in defs
  {
    hide Wanted, NotDefined, SearchInv, Coherent;
    var l0 :| Answers(f, blocks, start, a, l0);
    var x := a.lval;
    var w: seq<Loc>;
    if InBlock(blocks, x, a.loc, a.index, l0, |blocks[l0]|) {
      w := [l0];
    } else {
      w :| CarryPath(f, blocks, x, a.loc, a.index, l0, w);
    }
    assert ClearWay(f, blocks, x, w[0], l0, w);
    SearchBack(f, blocks, start, done, defs, x, l0, w, 0);
    DoneSettled(f, blocks, start, done, defs, x, a.loc, a.index);
  }

  lemma DoneSettled(
    f: Flow<Loc>, blocks: map<Loc, Block>, start: set<Want>, done: set<Want>, defs: set<Node>, x: Expr, l: Loc, j: nat)
    requires SearchInv(f, blocks, start, done, {}, defs) && (x, l) in done && LastOf(blocks, l, j, x)
    ensures Node(l, j, x) in defs
  {
    hide Wanted, IsAnswer;
    assert Settled(f, blocks, defs, done + {}, (x, l).0, (x, l).1);
  }

  ghost function Wants(f: Flow<Loc>, start: set<Want>): (u: set<Want>) {
    set e, l | e in start && l in Places(f, start) :: (e.0, l)
  }

  ghost function Places(f: Flow<Loc>, start: set<Want>): (r: set<Loc>) {
    (set e | e in start :: e.1) + set n, p | n in f.prev && p in f.prev[n] :: p
  }

  lemma WantsClosed(f: Flow<Loc>, start: set<Want>, e: Want)
    ensures e in start ==> e in Wants(f, start)
    ensures e in Wants(f, start) ==> forall p :: p in Prev(f, e.1) ==> (e.0, p) in Wants(f, start)
  {
    if e in start {
      assert e.1 in Places(f, start) && e == (e.0, e.1);
    }
    if e in Wants(f, start) {
      var e0, l :| e0 in start && l in Places(f, start) && e == (e0.0, l);
      forall p | p in Prev(f, e.1)
        ensures (e.0, p) in Wants(f, start)
      {
        assert p in Places(f, start);
      }
    }
  }

  lemma LastUnique(blocks: map<Loc, Block>, l: Loc, j: nat, k: nat, x: Expr)
    requires LastOf(blocks, l, j, x) && LastOf(blocks, l, k, x)
    ensures j == k
  {}

  method FindDefinitionsFromWorklist(f: Flow<Loc>, blocks: map<Loc, Block>, worklist: set<Want>) returns (defs: set<Node>)
    requires Coherent(f)
    ensures forall a :: a in defs <==> IsAnswer(f, blocks, worklist, a)
  {
    hide IsAnswer, Wanted, SearchInv, Wants, Coherent;
    ghost var u := Wants(f, worklist);
    var done: set<Want> := {};
    var todo := worklist;
    defs := {};
    SearchStart(f, blocks, worklist);
    while todo != {}
      invariant SearchInv(f, blocks, worklist, done, todo, defs) && todo <= u
      decreases u - done, todo
    {
      var e :| e in todo;
      if e in done {
        SearchSkip(f, blocks, worklist, done, todo, defs, e);
        todo := todo - {e};
        continue;
      }
      var x, l := e.0, e.1;
      ghost var before := todo;
      todo := todo - {e};
      ghost var defs0 := defs;
      WantsClosed(f, worklist, e);
      WantedAt(f, blocks, worklist, done, before, defs, e);
      if l in blocks {
        var found := FindLast(blocks[l], x);
        if found.Here? {
          defs := defs + {Node(l, found.index, x)};
          FoundAnswers(f, blocks, worklist, x, l, found.index);
          SettledHere(f, blocks, defs, done + {e} + todo, x, l, found.index);
        } else {
          todo := todo + set p | p in Prev(f, l) :: (x, p);
          AskedBack(f, blocks, worklist, x, l);
          SettledBack(f, blocks, defs, done + {e} + todo, x, l);
        }
      }
      SearchStep(f, blocks, worklist, done, before, defs0, e, todo, defs);
      done := done + {e};
    }
    forall a
      ensures a in defs <==> IsAnswer(f, blocks, worklist, a)
    {
      SearchEnd(f, blocks, worklist, done, defs, a);
    }
  }

  lemma SearchStart(f: Flow<Loc>, blocks: map<Loc, Block>, start: set<Want>)
    ensures SearchInv(f, blocks, start, {}, start, {}) && start <= Wants(f, start)
  {
    forall e: Want | e in start
      ensures Wanted(f, blocks, start, e.0, e.1) && e in Wants(f, start)
    {
      WantedStart(f, blocks, start, e.0, e.1);
      WantsClosed(f, start, e);
    }
  }

  lemma SearchSkip(
    f: Flow<Loc>, blocks: map<Loc, Block>, start: set<Want>, done: set<Want>, todo: set<Want>, defs: set<Node>, e: Want)
    requires SearchInv(f, blocks, start, done, todo, defs) && e in done
    ensures SearchInv(f, blocks, start, done, todo - {e}, defs)
  {
    hide Wanted, IsAnswer, Settled;
    assert done + (todo - {e}) == done + todo;
  }

  lemma WantedAt(
    f: Flow<Loc>, blocks: map<Loc, Block>, start: set<Want>, done: set<Want>, todo: set<Want>, defs: set<Node>, e: Want)
    requires SearchInv(f, blocks, start, done, todo, defs) && e in todo
    ensures Wanted(f, blocks, start, e.0, e.1)
  {}

  lemma SettledHere(f: Flow<Loc>, blocks: map<Loc, Block>, defs: set<Node>, asked: set<Want>, x: Expr, l: Loc, j: nat)
    requires LastOf(blocks, l, j, x) && Node(l, j, x) in defs
    ensures Settled(f, blocks, defs, asked, x, l)
  {
    forall k | LastOf(blocks, l, k, x)
      ensures Node(l, k, x) in defs
    {
      LastUnique(blocks, l, j, k, x);
    }
  }

  lemma SettledBack(f: Flow<Loc>, blocks: map<Loc, Block>, defs: set<Node>, asked: set<Want>, x: Expr, l: Loc)
    requires l in blocks && NotDefined(blocks[l], 0, |blocks[l]|, x) && forall p :: p in Prev(f, l) ==> (x, p) in asked
    ensures Settled(f, blocks, defs, asked, x, l)
  {}

  lemma AskedBack(f: Flow<Loc>, blocks: map<Loc, Block>, start: set<Want>, x: Expr, l: Loc)
    requires Coherent(f) && Wanted(f, blocks, start, x, l) && l in blocks && NotDefined(blocks[l], 0, |blocks[l]|, x)
    ensures forall p :: p in Prev(f, l) ==> Wanted(f, blocks, start, x, p)
  {
    forall p | p in Prev(f, l)
      ensures Wanted(f, blocks, start, x, p)
    {
      assert Edge(f, p, l);
      WantedBack(f, blocks, start, x, l, p);
    }
  }

  lemma SearchEnd(f: Flow<Loc>, blocks: map<Loc, Block>, start: set<Want>, done: set<Want>, defs: set<Node>, a: Node)
    requires Coherent(f) && SearchInv(f, blocks, start, done, {}, defs)
    ensures a in defs <==> IsAnswer(f, blocks, start, a)
  {
    if IsAnswer(f, blocks, start, a) {
      hide IsAnswer;
      SearchComplete(f, blocks, start, done, defs, a);
    }
  }
}
