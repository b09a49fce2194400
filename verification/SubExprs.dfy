/**
 The parts of an expression, and what the traversals of the intermediate language collect
 (miasm/expression/expression.py, Expr.visit and Expr.get_r).
 */
module SubExprs {
  import opened Ir

  function Children(e: Expr): (r: seq<Expr>) {
    match e
    case Int(_, _) => []
    case Id(_) => []
    case LocRef(_, _) => []
    case Mem(ptr, _) => [ptr]
    case Op(_, args, _) => args
    case Slice(arg, _, _) => [arg]
    case Compose(args) => args
    case Cond(cond, src1, src2) => [cond, src1, src2]
  }

  /** p goes down from e to d, one child after the other. */
  ghost predicate Descent(p: seq<Expr>, e: Expr, d: Expr) {
    |p| > 0 && p[0] == e && p[|p| - 1] == d && forall i :: 0 < i < |p| ==> p[i] in Children(p[i - 1])
  }

  /** d is a part of e, e itself included. */
  ghost predicate PartOf(d: Expr, e: Expr) {
    exists p :: Descent(p, e, d)
  }

  ghost predicate PartOfAny(d: Expr, args: seq<Expr>) {
    exists c :: c in args && PartOf(d, c)
  }

  lemma PartStep(d: Expr, e: Expr)
    ensures PartOf(d, e) <==> d == e || PartOfAny(d, Children(e))
  {
    if PartOf(d, e) {
      var p :| Descent(p, e, d);
      if |p| > 1 {
        assert Descent(p[1..], p[1], d);
        assert p[1] in Children(p[0]);
      }
    }
    if d == e { assert Descent([e], e, d); }
    if PartOfAny(d, Children(e)) {
      var c :| c in Children(e) && PartOf(d, c);
      var p :| Descent(p, c, d);
      var q := [e] + p;
      forall i | 0 < i < |q|
        ensures q[i] in Children(q[i - 1])
      {
        if i > 1 { assert p[i - 1] in Children(p[i - 2]); }
      }
      assert Descent(q, e, d);
    }
  }

  lemma PartOfFirst(d: Expr, args: seq<Expr>)
    requires args != []
    ensures PartOfAny(d, args) <==> PartOf(d, args[0]) || PartOfAny(d, args[1..])
  {
    hide PartOf;
    assert forall c :: c in args <==> c == args[0] || c in args[1..];
  }

  lemma PartOfThree(d: Expr, a: Expr, b: Expr, c: Expr)
    ensures PartOfAny(d, [a]) <==> PartOf(d, a)
    ensures PartOfAny(d, [a, b, c]) <==> PartOf(d, a) || PartOf(d, b) || PartOf(d, c)
  {
    hide PartOf;
  }

  /** The identifiers of an expression are those among its parts. */
  lemma {:induction false} IdParts(id: Ident, e: Expr)
    ensures id in Ids(e) <==> PartOf(Id(id), e)
    decreases e, 1
  {
    hide PartOf, PartOfAny;
    PartStep(Id(id), e);
    match e
    case Int(_, _) => NoParts(Id(id));
    case Id(_) => NoParts(Id(id));
    case LocRef(_, _) => NoParts(Id(id));
    case Mem(ptr, _) => IdParts(id, ptr); PartOfThree(Id(id), ptr, ptr, ptr);
    case Slice(arg, _, _) => IdParts(id, arg); PartOfThree(Id(id), arg, arg, arg);
    case Cond(cond, src1, src2) =>
      IdParts(id, cond);
      IdParts(id, src1);
      IdParts(id, src2);
      PartOfThree(Id(id), cond, src1, src2);
    case Op(_, args, _) => IdPartsAny(id, args);
    case Compose(args) => IdPartsAny(id, args);
  }

  lemma {:induction false} IdPartsAny(id: Ident, args: seq<Expr>)
    ensures id in IdsAll(args) <==> PartOfAny(Id(id), args)
    decreases args, 0
  {
    hide PartOf, PartOfAny;
    if args != [] {
      IdParts(id, args[0]);
      IdPartsAny(id, args[1..]);
      PartOfFirst(Id(id), args);
    } else {
      NoParts(Id(id));
    }
  }

  lemma NoParts(d: Expr)
    ensures !PartOfAny(d, [])
  {}

  // ----- reads -----

  /** The identifiers and memory cells an expression reads, pointers included. */
  function GetR(e: Expr): (r: set<Expr>) {
    match e
    case Int(_, _) => {}
    case Id(_) => {e}
    case LocRef(_, _) => {}
    case Mem(ptr, _) => {e} + GetR(ptr)
    case Op(_, args, _) => GetRAll(args)
    case Slice(arg, _, _) => GetR(arg)
    case Compose(args) => GetRAll(args)
    case Cond(cond, src1, src2) => GetR(cond) + GetR(src1) + GetR(src2)
  }

  function GetRAll(args: seq<Expr>): (r: set<Expr>) {
    if args == [] then {} else GetR(args[0]) + GetRAll(args[1..])
  }

  /** What an expression reads: the identifiers and cells among its parts. */
  lemma {:induction false} ReadParts(x: Expr, e: Expr)
    ensures x in GetR(e) <==> (x.Id? || x.Mem?) && PartOf(x, e)
    decreases e, 1
  {
    hide PartOf, PartOfAny;
    PartStep(x, e);
    match e
    case Int(_, _) => NoParts(x);
    case Id(_) => NoParts(x);
    case LocRef(_, _) => NoParts(x);
    case Mem(ptr, _) => ReadParts(x, ptr); PartOfThree(x, ptr, ptr, ptr);
    case Slice(arg, _, _) => ReadParts(x, arg); PartOfThree(x, arg, arg, arg);
    case Cond(cond, src1, src2) =>
      ReadParts(x, cond);
      ReadParts(x, src1);
      ReadParts(x, src2);
      PartOfThree(x, cond, src1, src2);
    case Op(_, args, _) => ReadPartsAny(x, args);
    case Compose(args) => ReadPartsAny(x, args);
  }

  lemma {:induction false} ReadPartsAny(x: Expr, args: seq<Expr>)
    ensures x in GetRAll(args) <==> (x.Id? || x.Mem?) && PartOfAny(x, args)
    decreases args, 0
  {
    hide PartOf, PartOfAny;
    if args != [] {
      ReadParts(x, args[0]);
      ReadPartsAny(x, args[1..]);
      PartOfFirst(x, args);
    } else {
      NoParts(x);
    }
  }

  /** The identifiers and memory cells read, without looking into the pointers of the cells. */
  function GetReads(e: Expr): (r: set<Expr>) {
    match e
    case Int(_, _) => {}
    case Id(_) => {e}
    case LocRef(_, _) => {}
    case Mem(_, _) => {e}
    case Op(_, args, _) => GetReadsAll(args)
    case Slice(arg, _, _) => GetReads(arg)
    case Compose(args) => GetReadsAll(args)
    case Cond(cond, src1, src2) => GetReads(cond) + GetReads(src1) + GetReads(src2)
  }

  function GetReadsAll(args: seq<Expr>): (r: set<Expr>) {
    if args == [] then {} else GetReads(args[0]) + GetReadsAll(args[1..])
  }

  /** d is a part of e that lies in no pointer of e. */
  ghost predicate OutsidePointers(d: Expr, e: Expr) {
    exists p :: Descent(p, e, d) && NoCellAbove(p)
  }

  ghost predicate NoCellAbove(p: seq<Expr>) {
    forall i :: 0 <= i < |p| - 1 ==> !p[i].Mem?
  }

  ghost predicate OutsideAny(d: Expr, args: seq<Expr>) {
    exists c :: c in args && OutsidePointers(d, c)
  }

  lemma OutsideStep(d: Expr, e: Expr)
    ensures OutsidePointers(d, e) <==> d == e || (!e.Mem? && OutsideAny(d, Children(e)))
  {
    if OutsidePointers(d, e) {
      var p: seq<Expr> :| Descent(p, e, d) && NoCellAbove(p);
      if |p| > 1 {
        assert Descent(p[1..], p[1], d) && NoCellAbove(p[1..]);
        assert p[1] in Children(p[0]) && !p[0].Mem?;
      }
    }
    if d == e { assert Descent([e], e, d) && NoCellAbove([e]); }
    if !e.Mem? && OutsideAny(d, Children(e)) {
      var c :| c in Children(e) && OutsidePointers(d, c);
      var p: seq<Expr> :| Descent(p, c, d) && NoCellAbove(p);
      var q := [e] + p;
      forall i | 0 < i < |q|
        ensures q[i] in Children(q[i - 1])
      {
        if i > 1 { assert p[i - 1] in Children(p[i - 2]); }
      }
      assert Descent(q, e, d) && NoCellAbove(q);
    }
  }

  lemma OutsideFirst(d: Expr, args: seq<Expr>)
    ensures OutsideAny(d, args) <==> args != [] && (OutsidePointers(d, args[0]) || OutsideAny(d, args[1..]))
  {
    hide OutsidePointers;
    assert args != [] ==> forall c :: c in args <==> c == args[0] || c in args[1..];
  }

  lemma OutsideThree(d: Expr, a: Expr, b: Expr, c: Expr)
    ensures OutsideAny(d, [a]) <==> OutsidePointers(d, a)
    ensures OutsideAny(d, [a, b, c]) <==> OutsidePointers(d, a) || OutsidePointers(d, b) || OutsidePointers(d, c)
  {
    hide OutsidePointers;
  }

  /** The reads without those of pointers. */
  lemma {:induction false} ReadsOutside(x: Expr, e: Expr)
    ensures x in GetReads(e) <==> (x.Id? || x.Mem?) && OutsidePointers(x, e)
    decreases e, 1
  {
    hide OutsidePointers, OutsideAny;
    OutsideStep(x, e);
    match e
    case Int(_, _) => OutsideFirst(x, []);
    case Id(_) => OutsideFirst(x, []);
    case LocRef(_, _) => OutsideFirst(x, []);
    case Mem(_, _) =>
    case Slice(arg, _, _) => ReadsOutside(x, arg); OutsideThree(x, arg, arg, arg);
    case Cond(cond, src1, src2) =>
      ReadsOutside(x, cond);
      ReadsOutside(x, src1);
      ReadsOutside(x, src2);
      OutsideThree(x, cond, src1, src2);
    case Op(_, args, _) => ReadsOutsideAny(x, args);
    case Compose(args) => ReadsOutsideAny(x, args);
  }

  lemma {:induction false} ReadsOutsideAny(x: Expr, args: seq<Expr>)
    ensures x in GetReadsAll(args) <==> (x.Id? || x.Mem?) && OutsideAny(x, args)
    decreases args, 0
  {
    hide OutsidePointers, OutsideAny;
    OutsideFirst(x, args);
    if args != [] {
      ReadsOutside(x, args[0]);
      ReadsOutsideAny(x, args[1..]);
    }
  }

  // ----- occurrences -----

  /** d occurs in e. */
  predicate Occurs(d: Expr, e: Expr)
    decreases e, 1
  {
    d == e ||
    match e
    case Int(_, _) => false
    case Id(_) => false
    case LocRef(_, _) => false
    case Mem(ptr, _) => Occurs(d, ptr)
    case Op(_, args, _) => OccursAny(d, args)
    case Slice(arg, _, _) => Occurs(d, arg)
    case Compose(args) => OccursAny(d, args)
    case Cond(cond, src1, src2) => Occurs(d, cond) || Occurs(d, src1) || Occurs(d, src2)
  }

  predicate OccursAny(d: Expr, args: seq<Expr>)
    decreases args, 0
  {
    args != [] && (Occurs(d, args[0]) || OccursAny(d, args[1..]))
  }

  lemma {:induction false} OccursParts(d: Expr, e: Expr)
    ensures Occurs(d, e) <==> PartOf(d, e)
    decreases e, 1
  {
    hide PartOf, PartOfAny;
    PartStep(d, e);
    match e
    case Int(_, _) => NoParts(d);
    case Id(_) => NoParts(d);
    case LocRef(_, _) => NoParts(d);
    case Mem(ptr, _) => OccursParts(d, ptr); PartOfThree(d, ptr, ptr, ptr);
    case Slice(arg, _, _) => OccursParts(d, arg); PartOfThree(d, arg, arg, arg);
    case Cond(cond, src1, src2) =>
      OccursParts(d, cond);
      OccursParts(d, src1);
      OccursParts(d, src2);
      PartOfThree(d, cond, src1, src2);
    case Op(_, args, _) => OccursPartsAny(d, args);
    case Compose(args) => OccursPartsAny(d, args);
  }

  lemma {:induction false} OccursPartsAny(d: Expr, args: seq<Expr>)
    ensures OccursAny(d, args) <==> PartOfAny(d, args)
    decreases args, 0
  {
    hide PartOf, PartOfAny;
    if args != [] {
      OccursParts(d, args[0]);
      OccursPartsAny(d, args[1..]);
      PartOfFirst(d, args);
    } else {
      NoParts(d);
    }
  }
}
