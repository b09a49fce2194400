/**
 Which definition a variable holds at a point: the declarative notion (some path carries the
 definition there without another one), and the effect of assignment blocks on tables of
 definitions (miasm/analysis/data_flow.py).
 */
module DataFlow {
  import opened Paths
  import opened Ir

  /** An assignment block: its block and its index there. */
  type Site = (Loc, nat)

  /** For each destination, the assignment blocks that may have assigned it last. */
  type Defs = map<Expr, set<Site>>

  function At(d: Defs, x: Expr): (r: set<Site>) {
    if x in d then d[x] else {}
  }

  // ----- carried definitions -----

  ghost predicate NotDefined(b: Block, lo: nat, hi: nat, x: Expr) {
    forall k :: lo <= k < hi && k < |b| ==> x !in b[k]
  }

  ghost predicate DefinesAt(blocks: map<Loc, Block>, m: Loc, j: nat, x: Expr) {
    m in blocks && j < |blocks[m]| && x in blocks[m][j]
  }

  /** The definition of x at (m, j) leaves block m. */
  ghost predicate LastOf(blocks: map<Loc, Block>, m: Loc, j: nat, x: Expr) {
    DefinesAt(blocks, m, j, x) && NotDefined(blocks[m], j + 1, |blocks[m]|, x)
  }

  /** Along p, from block m to the entry of block n, nothing assigns x after (m, j). */
  ghost predicate CarryPath(f: Flow<Loc>, blocks: map<Loc, Block>, x: Expr, m: Loc, j: nat, n: Loc, p: seq<Loc>) {
    && |p| >= 2 && Between(f, p, m, n) && LastOf(blocks, m, j, x)
    && (forall k :: 0 <= k < |p| ==> p[k] in blocks)
    && (forall k :: 0 < k < |p| - 1 ==> NotDefined(blocks[p[k]], 0, |blocks[p[k]]|, x))
  }

  ghost predicate ToEntry(f: Flow<Loc>, blocks: map<Loc, Block>, x: Expr, m: Loc, j: nat, n: Loc) {
    exists p :: CarryPath(f, blocks, x, m, j, n, p)
  }

  ghost predicate InBlock(blocks: map<Loc, Block>, x: Expr, m: Loc, j: nat, n: Loc, i: nat) {
    m == n && j < i && DefinesAt(blocks, m, j, x) && NotDefined(blocks[m], j + 1, i, x)
  }

  /** The definition of x at (m, j) reaches the point before assignment block i of block n. */
  ghost predicate Carried(f: Flow<Loc>, blocks: map<Loc, Block>, x: Expr, m: Loc, j: nat, n: Loc, i: nat) {
    && n in blocks
    && (InBlock(blocks, x, m, j, n, i) || (NotDefined(blocks[n], 0, i, x) && ToEntry(f, blocks, x, m, j, n)))
  }

  /** The definition reaches the end of a predecessor of n. */
  ghost predicate FromPredecessor(f: Flow<Loc>, blocks: map<Loc, Block>, x: Expr, m: Loc, j: nat, n: Loc, p: Loc) {
    Edge(f, p, n) && p in blocks && Carried(f, blocks, x, m, j, p, |blocks[p]|)
  }

  lemma CarryExtended(f: Flow<Loc>, blocks: map<Loc, Block>, x: Expr, m: Loc, j: nat, p: Loc, n: Loc)
    requires n in blocks && FromPredecessor(f, blocks, x, m, j, n, p)
    ensures ToEntry(f, blocks, x, m, j, n)
  {
    if InBlock(blocks, x, m, j, p, |blocks[p]|) {
      assert CarryPath(f, blocks, x, m, j, n, [p, n]);
    } else {
      var w :| CarryPath(f, blocks, x, m, j, p, w);
      ExtendPath(f, w, m, p, n);
      assert CarryPath(f, blocks, x, m, j, n, w + [n]);
    }
  }

  /** The point after an assignment block carries its own definitions, and those before it
      that it does not replace. */
  lemma CarriedStep(f: Flow<Loc>, blocks: map<Loc, Block>, x: Expr, m: Loc, j: nat, n: Loc, i: nat)
    requires n in blocks && i < |blocks[n]|
    ensures Carried(f, blocks, x, m, j, n, i + 1) <==>
      if x in blocks[n][i] then (m, j) == (n, i) else Carried(f, blocks, x, m, j, n, i)
  {
    hide ToEntry;
    var b := blocks[n];
    if x in b[i] {
      assert !NotDefined(b, 0, i + 1, x);
      assert j < i ==> !NotDefined(b, j + 1, i + 1, x);
    } else {
      assert NotDefined(b, 0, i + 1, x) <==> NotDefined(b, 0, i, x);
      assert j < i ==> (NotDefined(b, j + 1, i + 1, x) <==> NotDefined(b, j + 1, i, x));
    }
  }

  /** A carried definition is a definition. */
  lemma CarriedDefines(f: Flow<Loc>, blocks: map<Loc, Block>, x: Expr, m: Loc, j: nat, n: Loc, i: nat)
    requires Carried(f, blocks, x, m, j, n, i)
    ensures DefinesAt(blocks, m, j, x)
  {}

  // ----- the effect of assignment blocks -----

  function Transfer(d: Defs, n: Loc, j: nat, a: AssignBlk): (r: Defs) {
    d + map x | x in a :: {(n, j)}
  }

  /** The definitions before assignment block i, from those at the entry of the block. */
  function Flowed(d: Defs, n: Loc, b: Block, i: nat): (r: Defs)
    requires i <= |b|
  {
    if i == 0 then d else Transfer(Flowed(d, n, b, i - 1), n, i - 1, b[i - 1])
  }

  lemma FlowedStep(d: Defs, n: Loc, b: Block, i: nat, x: Expr)
    requires i < |b|
    ensures At(Flowed(d, n, b, i + 1), x) == if x in b[i] then {(n, i)} else At(Flowed(d, n, b, i), x)
    ensures x in Flowed(d, n, b, i + 1) <==> x in b[i] || x in Flowed(d, n, b, i)
  {}

  ghost predicate NonEmpty(d: Defs) {
    forall x :: x in d ==> d[x] != {}
  }

  /** Every definition of d is one of d'. */
  ghost predicate Below(d: Defs, d': Defs) {
    forall x :: At(d, x) <= At(d', x)
  }

  lemma SameDefs(d: Defs, d': Defs)
    requires NonEmpty(d) && NonEmpty(d') && Below(d, d') && Below(d', d)
    ensures d == d'
  {
    forall x
      ensures x in d <==> x in d'
      ensures x in d && x in d' ==> d[x] == d'[x]
    {
      assert At(d, x) <= At(d', x) <= At(d, x);
    }
  }

  lemma {:induction false} FlowedBelow(d: Defs, d': Defs, n: Loc, b: Block, i: nat)
    requires Below(d, d') && i <= |b|
    ensures Below(Flowed(d, n, b, i), Flowed(d', n, b, i))
  {
    if i > 0 {
      FlowedBelow(d, d', n, b, i - 1);
      forall x
        ensures At(Flowed(d, n, b, i), x) <= At(Flowed(d', n, b, i), x)
      {
        FlowedStep(d, n, b, i - 1, x);
        FlowedStep(d', n, b, i - 1, x);
      }
    }
  }

  lemma {:induction false} FlowedNonEmpty(d: Defs, n: Loc, b: Block, i: nat)
    requires NonEmpty(d) && i <= |b|
    ensures NonEmpty(Flowed(d, n, b, i))
  {
    if i > 0 { FlowedNonEmpty(d, n, b, i - 1); }
  }

  /** Entry tables that list only carried definitions, or all of them, give point tables that do. */
  lemma {:induction false} FlowedCarried(
    f: Flow<Loc>, blocks: map<Loc, Block>, d: Defs, x: Expr, m: Loc, j: nat, n: Loc, i: nat)
    requires n in blocks && i <= |blocks[n]|
    ensures ((m, j) in At(d, x) ==> ToEntry(f, blocks, x, m, j, n)) ==>
      ((m, j) in At(Flowed(d, n, blocks[n], i), x) ==> Carried(f, blocks, x, m, j, n, i))
    ensures (ToEntry(f, blocks, x, m, j, n) ==> (m, j) in At(d, x)) ==>
      (Carried(f, blocks, x, m, j, n, i) ==> (m, j) in At(Flowed(d, n, blocks[n], i), x))
  {
    hide ToEntry;
    if i > 0 {
      FlowedCarried(f, blocks, d, x, m, j, n, i - 1);
      FlowedStep(d, n, blocks[n], i - 1, x);
      CarriedStep(f, blocks, x, m, j, n, i - 1);
    }
  }
}
