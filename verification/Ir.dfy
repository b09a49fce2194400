/**
 The intermediate representation the analyses work on: expressions, parallel
 assignment blocks, and their meaning on a state made of variables and a memory.

 Operators, slices, concatenations, loads and stores are parameters of the
 meaning (a Machine), so what is proved holds for every choice of them.
 */
module Ir {

  /** A variable as the lifter names it. */
  datatype Var = Var(name: string, size: nat)

  /** An identifier: a variable, or one of its SSA versions. */
  datatype Ident = Plain(v: Var) | Ssa(v: Var, index: nat)

  type Loc = nat

  datatype Expr =
    | Int(value: nat, size: nat)
    | Id(id: Ident)
    | LocRef(loc: Loc, size: nat)
    | Mem(ptr: Expr, size: nat)
    | Op(op: string, args: seq<Expr>, size: nat)
    | Slice(arg: Expr, start: nat, stop: nat)
    | Compose(args: seq<Expr>)
    | Cond(cond: Expr, src1: Expr, src2: Expr)

  function Size(e: Expr): (r: int) {
    match e
    case Int(_, size) => size
    case Id(id) => id.v.size
    case LocRef(_, size) => size
    case Mem(_, size) => size
    case Op(_, _, size) => size
    case Slice(_, start, stop) => stop - start
    case Compose(args) => SizeSum(args)
    case Cond(_, src1, _) => Size(src1)
  }

  function SizeSum(args: seq<Expr>): (r: int) {
    if args == [] then 0 else Size(args[0]) + SizeSum(args[1..])
  }

  // ----- meaning -----

  /** One memory write: address, size in bits, value. */
  datatype Write = Write(addr: int, size: nat, value: int)

  datatype Machine<!M> = Machine(
    op: (string, seq<int>, seq<int>, nat) -> int,
    slice: (int, nat, nat) -> int,
    compose: (seq<int>, seq<int>) -> int,
    loc: Loc -> int,
    load: (M, int, nat) -> int,
    store: (M, set<Write>) -> M)

  datatype State<M> = State(env: Ident -> int, mem: M)

  function Eval<M>(m: Machine<M>, e: Expr, s: State<M>): (r: int) {
    match e
    case Int(value, _) => value
    case Id(id) => s.env(id)
    case LocRef(loc, _) => m.loc(loc)
    case Mem(ptr, size) => m.load(s.mem, Eval(m, ptr, s), size)
    case Op(op, args, size) => m.op(op, EvalAll(m, args, s), Sizes(args), size)
    case Slice(arg, start, stop) => m.slice(Eval(m, arg, s), start, stop)
    case Compose(args) => m.compose(EvalAll(m, args, s), Sizes(args))
    case Cond(cond, src1, src2) => if Eval(m, cond, s) != 0 then Eval(m, src1, s) else Eval(m, src2, s)
  }

  function EvalAll<M>(m: Machine<M>, args: seq<Expr>, s: State<M>): (r: seq<int>)
    ensures |r| == |args|
    ensures forall i :: 0 <= i < |args| ==> r[i] == Eval(m, args[i], s)
  {
    if args == [] then [] else [Eval(m, args[0], s)] + EvalAll(m, args[1..], s)
  }

  function Sizes(args: seq<Expr>): (r: seq<int>) {
    seq(|args|, i requires 0 <= i < |args| => Size(args[i]))
  }

  // ----- identifiers, and their replacement -----

  /** All identifiers of an expression, those of memory pointers included. */
  function Ids(e: Expr): (r: set<Ident>) {
    match e
    case Int(_, _) => {}
    case Id(id) => {id}
    case LocRef(_, _) => {}
    case Mem(ptr, _) => Ids(ptr)
    case Op(_, args, _) => IdsAll(args)
    case Slice(arg, _, _) => Ids(arg)
    case Compose(args) => IdsAll(args)
    case Cond(cond, src1, src2) => Ids(cond) + Ids(src1) + Ids(src2)
  }

  function IdsAll(args: seq<Expr>): (r: set<Ident>) {
    if args == [] then {} else Ids(args[0]) + IdsAll(args[1..])
  }

  /** Replaces identifiers by identifiers, the way replace_expr does. */
  function Replace(e: Expr, r: map<Ident, Ident>): (out: Expr) {
    match e
    case Int(_, _) => e
    case Id(id) => if id in r then Id(r[id]) else e
    case LocRef(_, _) => e
    case Mem(ptr, size) => Mem(Replace(ptr, r), size)
    case Op(op, args, size) => Op(op, ReplaceAll(args, r), size)
    case Slice(arg, start, stop) => Slice(Replace(arg, r), start, stop)
    case Compose(args) => Compose(ReplaceAll(args, r))
    case Cond(cond, src1, src2) => Cond(Replace(cond, r), Replace(src1, r), Replace(src2, r))
  }

  function ReplaceAll(args: seq<Expr>, r: map<Ident, Ident>): (out: seq<Expr>)
    ensures |out| == |args|
    ensures forall i :: 0 <= i < |args| ==> out[i] == Replace(args[i], r)
  {
    if args == [] then [] else [Replace(args[0], r)] + ReplaceAll(args[1..], r)
  }

  function Image(r: map<Ident, Ident>, id: Ident): (out: Ident) {
    if id in r then r[id] else id
  }

  /** Every replacement keeps the size of the variable it renames. */
  ghost predicate KeepsSizes(r: map<Ident, Ident>) {
    forall id :: id in r ==> r[id].v.size == id.v.size
  }

  lemma {:induction false} IdsAllMember(args: seq<Expr>, i: nat)
    requires i < |args|
    ensures Ids(args[i]) <= IdsAll(args)
  {
    if i > 0 { IdsAllMember(args[1..], i - 1); }
  }

  lemma {:induction false} SizeReplace(e: Expr, r: map<Ident, Ident>)
    requires KeepsSizes(r)
    ensures Size(Replace(e, r)) == Size(e)
    decreases e, 1
  {
    match e
    case Compose(args) => SizeSumReplace(args, r);
    case Cond(_, src1, _) => SizeReplace(src1, r);
    case _ =>
  }

  lemma {:induction false} SizeSumReplace(args: seq<Expr>, r: map<Ident, Ident>)
    requires KeepsSizes(r)
    ensures SizeSum(ReplaceAll(args, r)) == SizeSum(args)
    decreases args, 0
  {
    if args != [] {
      SizeReplace(args[0], r);
      SizeSumReplace(args[1..], r);
      assert ReplaceAll(args, r)[1..] == ReplaceAll(args[1..], r);
    }
  }

  lemma SizesReplace(args: seq<Expr>, r: map<Ident, Ident>)
    requires KeepsSizes(r)
    ensures Sizes(ReplaceAll(args, r)) == Sizes(args)
  {
    forall i | 0 <= i < |args|
      ensures Size(ReplaceAll(args, r)[i]) == Size(args[i])
    {
      SizeReplace(args[i], r);
    }
  }

  /** Both states give every identifier of e the same value, up to the renaming. */
  ghost predicate AgreeUpTo<M>(ids: set<Ident>, r: map<Ident, Ident>, s: State<M>, t: State<M>) {
    s.mem == t.mem && forall id :: id in ids ==> s.env(id) == t.env(Image(r, id))
  }

  /** Renaming an expression and renaming the state cancel out. */
  lemma {:induction false} EvalReplace<M>(
    m: Machine<M>, e: Expr, r: map<Ident, Ident>, s: State<M>, t: State<M>)
    requires KeepsSizes(r) && AgreeUpTo(Ids(e), r, s, t)
    ensures Eval(m, Replace(e, r), t) == Eval(m, e, s)
    decreases e, 1
  {
    match e
    case Int(_, _) =>
    case Id(_) =>
    case LocRef(_, _) =>
    case Mem(ptr, _) => EvalReplace(m, ptr, r, s, t);
    case Op(_, args, _) => EvalAllReplace(m, args, r, s, t); SizesReplace(args, r);
    case Slice(arg, _, _) => EvalReplace(m, arg, r, s, t);
    case Compose(args) => EvalAllReplace(m, args, r, s, t); SizesReplace(args, r);
    case Cond(cond, src1, src2) =>
      EvalReplace(m, cond, r, s, t);
      EvalReplace(m, src1, r, s, t);
      EvalReplace(m, src2, r, s, t);
  }

  lemma {:induction false} EvalAllReplace<M>(
    m: Machine<M>, args: seq<Expr>, r: map<Ident, Ident>, s: State<M>, t: State<M>)
    requires KeepsSizes(r) && AgreeUpTo(IdsAll(args), r, s, t)
    ensures EvalAll(m, ReplaceAll(args, r), t) == EvalAll(m, args, s)
    decreases args, 0
  {
    if args != [] {
      EvalReplace(m, args[0], r, s, t);
      EvalAllReplace(m, args[1..], r, s, t);
      assert ReplaceAll(args, r)[1..] == ReplaceAll(args[1..], r);
    }
  }

  /** On the identifiers of two expressions, the renaming never merges two of them. */
  ghost predicate InjectiveOn(ids: set<Ident>, r: map<Ident, Ident>) {
    forall x, y :: x in ids && y in ids && Image(r, x) == Image(r, y) ==> x == y
  }

  lemma {:induction false} ReplaceInjective(a: Expr, b: Expr, r: map<Ident, Ident>)
    requires InjectiveOn(Ids(a) + Ids(b), r)
    requires Replace(a, r) == Replace(b, r)
    ensures a == b
    decreases a, 1
  {
    match a
    case Int(_, _) =>
    case Id(_) =>
    case LocRef(_, _) =>
    case Mem(p, _) => ReplaceInjective(p, b.ptr, r);
    case Op(_, args, _) => ReplaceAllInjective(args, b.args, r);
    case Slice(arg, _, _) => ReplaceInjective(arg, b.arg, r);
    case Compose(args) => ReplaceAllInjective(args, b.args, r);
    case Cond(c, x, y) =>
      ReplaceInjective(c, b.cond, r);
      ReplaceInjective(x, b.src1, r);
      ReplaceInjective(y, b.src2, r);
  }

  lemma {:induction false} ReplaceAllInjective(a: seq<Expr>, b: seq<Expr>, r: map<Ident, Ident>)
    requires InjectiveOn(IdsAll(a) + IdsAll(b), r)
    requires ReplaceAll(a, r) == ReplaceAll(b, r)
    ensures a == b
    decreases a, 0
  {
    assert |a| == |b|;
    if a != [] {
      assert ReplaceAll(a, r)[0] == ReplaceAll(b, r)[0];
      ReplaceInjective(a[0], b[0], r);
      assert ReplaceAll(a[1..], r) == ReplaceAll(a, r)[1..];
      assert ReplaceAll(b[1..], r) == ReplaceAll(b, r)[1..];
      ReplaceAllInjective(a[1..], b[1..], r);
    }
  }

  /** Replacing twice is replacing once, when the maps agree on the identifiers met. */
  lemma {:induction false} ReplaceCompose(
    e: Expr, r1: map<Ident, Ident>, r2: map<Ident, Ident>, r3: map<Ident, Ident>)
    requires forall id :: id in Ids(e) ==> Image(r2, Image(r1, id)) == Image(r3, id)
    ensures Replace(Replace(e, r1), r2) == Replace(e, r3)
    decreases e, 1
  {
    match e
    case Int(_, _) =>
    case Id(id) => assert id in Ids(e);
    case LocRef(_, _) =>
    case Mem(ptr, _) => ReplaceCompose(ptr, r1, r2, r3);
    case Op(_, args, _) => ReplaceAllCompose(args, r1, r2, r3);
    case Slice(arg, _, _) => ReplaceCompose(arg, r1, r2, r3);
    case Compose(args) => ReplaceAllCompose(args, r1, r2, r3);
    case Cond(cond, src1, src2) =>
      ReplaceCompose(cond, r1, r2, r3);
      ReplaceCompose(src1, r1, r2, r3);
      ReplaceCompose(src2, r1, r2, r3);
  }

  lemma {:induction false} ReplaceAllCompose(
    args: seq<Expr>, r1: map<Ident, Ident>, r2: map<Ident, Ident>, r3: map<Ident, Ident>)
    requires forall id :: id in IdsAll(args) ==> Image(r2, Image(r1, id)) == Image(r3, id)
    ensures ReplaceAll(ReplaceAll(args, r1), r2) == ReplaceAll(args, r3)
    decreases args, 0
  {
    if args != [] {
      ReplaceCompose(args[0], r1, r2, r3);
      ReplaceAllCompose(args[1..], r1, r2, r3);
      assert ReplaceAll(args, r1)[1..] == ReplaceAll(args[1..], r1);
    }
  }

  lemma {:induction false} ReplaceNothing(e: Expr, r: map<Ident, Ident>)
    requires forall id :: id in Ids(e) ==> Image(r, id) == id
    ensures Replace(e, r) == e
    decreases e, 1
  {
    match e
    case Int(_, _) =>
    case Id(id) => assert id in Ids(e);
    case LocRef(_, _) =>
    case Mem(ptr, _) => ReplaceNothing(ptr, r);
    case Op(_, args, _) => ReplaceAllNothing(args, r);
    case Slice(arg, _, _) => ReplaceNothing(arg, r);
    case Compose(args) => ReplaceAllNothing(args, r);
    case Cond(cond, src1, src2) =>
      ReplaceNothing(cond, r);
      ReplaceNothing(src1, r);
      ReplaceNothing(src2, r);
  }

  lemma {:induction false} ReplaceAllNothing(args: seq<Expr>, r: map<Ident, Ident>)
    requires forall id :: id in IdsAll(args) ==> Image(r, id) == id
    ensures ReplaceAll(args, r) == args
    decreases args, 0
  {
    if args != [] {
      ReplaceNothing(args[0], r);
      ReplaceAllNothing(args[1..], r);
    }
  }

  /** Only the identifiers of an expression matter to a replacement. */
  lemma ReplaceAgree(e: Expr, r1: map<Ident, Ident>, r2: map<Ident, Ident>)
    requires forall id :: id in Ids(e) ==> Image(r1, id) == Image(r2, id)
    ensures Replace(e, r1) == Replace(e, r2)
  {
    ReplaceNothing(e, map[]);
    ReplaceCompose(e, map[], r1, r2);
  }

  // ----- parallel assignments -----

  /** Destinations (identifiers or memory cells) with their sources, all evaluated in parallel. */
  type AssignBlk = map<Expr, Expr>

  type Block = seq<AssignBlk>

  predicate WellFormedAssign(a: AssignBlk) {
    forall d :: d in a ==> d.Id? || d.Mem?
  }

  /** The writes of an assignment block; writing a cell back to itself is no write. */
  function Writes<M>(m: Machine<M>, a: AssignBlk, s: State<M>): (r: set<Write>) {
    set d | d in a && d.Mem? && d != a[d] :: Write(Eval(m, d.ptr, s), d.size, Eval(m, a[d], s))
  }

  function Exec<M>(m: Machine<M>, a: AssignBlk, s: State<M>): (r: State<M>) {
    var w := Writes(m, a, s);
    State(
      id => if Id(id) in a then Eval(m, a[Id(id)], s) else s.env(id),
      if w == {} then s.mem else m.store(s.mem, w))
  }

  function ExecBlock<M>(m: Machine<M>, b: Block, s: State<M>): (r: State<M>) {
    if b == [] then s else ExecBlock(m, b[1..], Exec(m, b[0], s))
  }

  lemma {:induction false} ExecBlockSplit<M>(m: Machine<M>, b: Block, c: Block, s: State<M>)
    ensures ExecBlock(m, b + c, s) == ExecBlock(m, c, ExecBlock(m, b, s))
  {
    if b == [] {
      assert b + c == c;
    } else {
      assert (b + c)[1..] == b[1..] + c;
      ExecBlockSplit(m, b[1..], c, Exec(m, b[0], s));
    }
  }

  /** The state after running the blocks of a path. */
  function Run<M>(m: Machine<M>, blocks: map<Loc, Block>, q: seq<Loc>, s: State<M>): (r: State<M>)
    requires |q| > 0 && forall i :: 0 <= i < |q| ==> q[i] in blocks
  {
    ExecBlock(m, blocks[q[|q| - 1]], if |q| == 1 then s else Run(m, blocks, q[..|q| - 1], s))
  }

  lemma ExecPrefix<M>(m: Machine<M>, b: Block, i: nat, s: State<M>)
    requires i < |b|
    ensures ExecBlock(m, b[..i + 1], s) == Exec(m, b[i], ExecBlock(m, b[..i], s))
  {
    assert b[..i + 1] == b[..i] + [b[i]];
    ExecBlockSplit(m, b[..i], [b[i]], s);
  }

  /** The value of an expression depends on its identifiers and the memory only. */
  lemma EvalAgree<M>(m: Machine<M>, e: Expr, s: State<M>, t: State<M>)
    requires s.mem == t.mem && forall id :: id in Ids(e) ==> s.env(id) == t.env(id)
    ensures Eval(m, e, s) == Eval(m, e, t)
  {
    EvalReplace(m, e, map[], s, t);
    ReplaceNothing(e, map[]);
  }

  lemma ExecVariable<M>(m: Machine<M>, a: AssignBlk, s: State<M>, id: Ident)
    ensures Exec(m, a, s).env(id) == if Id(id) in a then Eval(m, a[Id(id)], s) else s.env(id)
  {}
}
