/**
 What the operators of the intermediate language compute (miasm/expression/expression.py and the
 tables of miasm/analysis/expression_range.py), and the machines that compute them.
 */
module Operators {
  import opened Bits
  import opened HackersDelight
  import opened ModularRanges
  import opened Ir

  // ----- by name -----

  /** The operators with any number of operands, combined from left to right. */
  predicate IsNary(op: string) {
    op in {"+", "*", "&", "|", "^"}
  }

  predicate IsHandled(op: string) {
    IsNary(op) || op in {"<<", ">>", "a>>", "<<<", ">>>"}
  }

  ghost predicate BitsOfAnd(size: nat, x: nat, y: nat, v: int) {
    0 <= v <= Mask(size) && forall i :: 0 <= i < size ==> (Bit(v, i) <==> Bit(x, i) && Bit(y, i))
  }

  ghost predicate BitsOfOr(size: nat, x: nat, y: nat, v: int) {
    0 <= v <= Mask(size) && forall i :: 0 <= i < size ==> (Bit(v, i) <==> Bit(x, i) || Bit(y, i))
  }

  ghost predicate BitsOfXor(size: nat, x: nat, y: nat, v: int) {
    0 <= v <= Mask(size) && forall i :: 0 <= i < size ==> (Bit(v, i) <==> Bit(x, i) != Bit(y, i))
  }

  /** v is what the operator of that name gives on two values of that size. */
  ghost predicate Means(op: string, size: nat, x: nat, y: nat, v: int)
    requires size > 0
  {
    match op
    case "+" => v == (x + y) % Pow2(size)
    case "*" => v == (x * y) % Pow2(size)
    case "&" => BitsOfAnd(size, x, y, v)
    case "|" => BitsOfOr(size, x, y, v)
    case "^" => BitsOfXor(size, x, y, v)
    case "<<" => v == (x * Pow2(y)) % Pow2(size)
    case ">>" => v == x / Pow2(y)
    case "a>>" => v == (Signed(x, size) / Pow2(y)) % Pow2(size)
    case "<<<" => RotatedUp(size, x, y, v)
    case ">>>" => 0 <= v <= Mask(size) && RotatedUp(size, v, y, x)
    case _ => true
  }

  // ----- the operators handled with care -----

  datatype Handler = Bin(bin: BinOp) | Shifts(shift: ShiftOp) | Rotates(rotate: RotateOp) | Unhandled

  function HandlerOf(op: string): (h: Handler)
    ensures h.Unhandled? <==> !IsHandled(op)
    ensures h.Bin? <==> IsNary(op)
  {
    match op
    case "+" => Bin(Add)
    case "&" => Bin(AndOp)
    case "|" => Bin(OrOp)
    case "^" => Bin(XorOp)
    case "*" => Bin(Mul)
    case "a>>" => Shifts(ArithmeticRight)
    case "<<" => Shifts(ShiftLeft)
    case ">>" => Shifts(ShiftRight)
    case ">>>" => Rotates(RotateRight)
    case "<<<" => Rotates(RotateLeft)
    case _ => Unhandled
  }

  function Step(h: Handler, size: nat, x: nat, y: nat): (r: int)
    requires size > 0 && !h.Unhandled?
  {
    match h
    case Bin(op) => Apply(op, size, x, y)
    case Shifts(op) => Shift(op, size, x, y)
    case Rotates(op) => Rotate(op, size, x, y)
  }

  lemma StepFits(h: Handler, size: nat, x: nat, y: nat)
    requires size > 0 && !h.Unhandled? && x <= Mask(size) && y <= Mask(size)
    ensures 0 <= Step(h, size, x, y) <= Mask(size)
  {
    hide Rotate, Or, And, Xor, Shr, Wrap;
    match h
    case Bin(op) =>
      OrBelow(x, y, size);
      AndBounds(x, y);
      XorBelow(x, y, size);
    case Shifts(op) =>
      ShrBelow(x, y);
      ShrBelow(Mask(size) - x, y);
    case Rotates(op) => RotateFits(op, size, x, y);
  }

  lemma AndByBits(size: nat, x: nat, y: nat, v: int)
    requires x <= Mask(size) && y <= Mask(size)
    ensures BitsOfAnd(size, x, y, v) <==> v == And(x, y)
  {
    hide And, Bit;
    AndBounds(x, y);
    forall i: nat ensures Bit(And(x, y), i) <==> Bit(x, i) && Bit(y, i) { BitAnd(x, y, i); }
    if BitsOfAnd(size, x, y, v) { BitsEqual(v, And(x, y), size); }
  }

  lemma OrByBits(size: nat, x: nat, y: nat, v: int)
    requires x <= Mask(size) && y <= Mask(size)
    ensures BitsOfOr(size, x, y, v) <==> v == Or(x, y)
  {
    hide Or, Bit;
    OrBelow(x, y, size);
    forall i: nat ensures Bit(Or(x, y), i) <==> Bit(x, i) || Bit(y, i) { BitOr(x, y, i); }
    if BitsOfOr(size, x, y, v) { BitsEqual(v, Or(x, y), size); }
  }

  lemma XorByBits(size: nat, x: nat, y: nat, v: int)
    requires x <= Mask(size) && y <= Mask(size)
    ensures BitsOfXor(size, x, y, v) <==> v == Xor(x, y)
  {
    hide Xor, Bit;
    XorBelow(x, y, size);
    forall i: nat ensures Bit(Xor(x, y), i) <==> Bit(x, i) != Bit(y, i) { BitXor(x, y, i); }
    if BitsOfXor(size, x, y, v) { BitsEqual(v, Xor(x, y), size); }
  }

  lemma RotatesByBits(size: nat, x: nat, y: nat, v: int)
    requires size > 0 && x <= Mask(size)
    ensures RotatedUp(size, x, y, v) <==> v == Rotate(RotateLeft, size, x, y)
    ensures 0 <= v <= Mask(size) && RotatedUp(size, v, y, x) <==> v == Rotate(RotateRight, size, x, y)
  {
    hide Rotate, RotatedUp;
    var up, down := Rotate(RotateLeft, size, x, y), Rotate(RotateRight, size, x, y);
    RotateBits(size, x, y);
    if RotatedUp(size, x, y, v) { RotatedOnce(size, x, y, v, x, up); }
    if 0 <= v <= Mask(size) && RotatedUp(size, v, y, x) { RotatedOnce(size, v, y, x, down, x); }
  }

  /** Each entry of the table computes what its name says. */
  lemma HandlerMeans(op: string, size: nat, x: nat, y: nat, v: int)
    requires size > 0 && IsHandled(op) && x <= Mask(size) && y <= Mask(size)
    ensures Means(op, size, x, y, v) <==> v == Step(HandlerOf(op), size, x, y)
  {
    hide BitsOfAnd, BitsOfOr, BitsOfXor, RotatedUp, Rotate, Wrap, Shr, Shl, Ashr, And, Or, Xor, Signed, Pow2;
    match op
    case "+" => WrapModulo(x + y, size);
    case "*" => WrapModulo(x * y, size);
    case "&" => AndByBits(size, x, y, v);
    case "|" => OrByBits(size, x, y, v);
    case "^" => XorByBits(size, x, y, v);
    case "<<" =>
      ShlTimes(x, y);
      WrapModulo(x * Pow2(y), size);
    case ">>" => ShrOver(x, y);
    case "a>>" => AshrFloor(x, y, size);
    case "<<<" => RotatesByBits(size, x, y, v);
    case ">>>" => RotatesByBits(size, x, y, v);
    case _ =>
  }

  /** Operands combined from left to right. */
  function Fold(h: Handler, size: nat, vs: seq<int>): (r: int)
    requires size > 0 && !h.Unhandled? && |vs| > 0
  {
    if |vs| == 1 then vs[0]
    else
      var x, y := Fold(h, size, vs[..|vs| - 1]), vs[|vs| - 1];
      if x < 0 || y < 0 then 0 else Step(h, size, x, y)
  }

  lemma FoldTwo(h: Handler, size: nat, x: int, y: int)
    requires size > 0 && !h.Unhandled?
    ensures Fold(h, size, [x, y]) == if x < 0 || y < 0 then 0 else Step(h, size, x, y)
  {
    hide Step;
    assert [x, y][..1] == [x];
    assert Fold(h, size, [x]) == x;
  }

  lemma {:induction false} FoldFits(h: Handler, size: nat, vs: seq<int>)
    requires size > 0 && !h.Unhandled? && |vs| > 0 && AllSized(vs, size)
    ensures 0 <= Fold(h, size, vs) <= Mask(size)
  {
    hide Step;
    if |vs| > 1 {
      FoldFits(h, size, vs[..|vs| - 1]);
      StepFits(h, size, Fold(h, size, vs[..|vs| - 1]), vs[|vs| - 1]);
    }
  }

  /** Values side by side, the first one in the low bits. */
  function Concat(vs: seq<int>, sizes: seq<int>): (r: int) {
    if vs == [] || sizes == [] || sizes[0] < 0 then 0
    else
      var rest := Concat(vs[1..], sizes[1..]);
      vs[0] + if rest < 0 then 0 else Shl(rest, sizes[0])
  }

  function Total(sizes: seq<int>): (r: int) {
    if sizes == [] then 0 else sizes[0] + Total(sizes[1..])
  }

  lemma {:induction false} ShlAdd(x: nat, y: nat, k: nat)
    ensures Shl(x + y, k) == Shl(x, k) + Shl(y, k)
  {
    if k > 0 { ShlAdd(x, y, k - 1); }
  }

  lemma ShlNothing(x: nat)
    ensures Shl(x, 0) == x
  {}

  lemma {:induction false} ShlTwice(x: nat, a: nat, b: nat)
    ensures Shl(Shl(x, a), b) == Shl(x, a + b)
  {
    if b > 0 { ShlTwice(x, a, b - 1); }
  }

  ghost predicate Widths(vs: seq<int>, sizes: seq<int>) {
    |vs| == |sizes| && forall i :: 0 <= i < |vs| ==> sizes[i] > 0 && 0 <= vs[i] <= Mask(sizes[i])
  }

  lemma {:induction false} TotalAppend(sizes: seq<int>, k: int)
    ensures Total(sizes + [k]) == Total(sizes) + k
  {
    if sizes != [] {
      assert (sizes + [k])[1..] == sizes[1..] + [k];
      TotalAppend(sizes[1..], k);
    }
  }

  lemma {:induction false} ConcatFits(vs: seq<int>, sizes: seq<int>)
    requires Widths(vs, sizes)
    ensures Total(sizes) >= 0 && 0 <= Concat(vs, sizes) < Pow2(Total(sizes))
  {
    if vs != [] {
      ConcatFits(vs[1..], sizes[1..]);
      var rest, k, w := Concat(vs[1..], sizes[1..]), sizes[0], Total(sizes[1..]);
      ShlBelow(rest, w, k);
      ShlNext(rest, k);
      ShlMono(rest + 1, Pow2(w), k);
      ShlPow(w);
      ShlTwice(1, w, k);
      ShlPow(w + k);
    }
  }

  lemma NoConcat()
    ensures Concat([], []) == 0
  {}

  lemma FirstOfConcat(v: int, size: nat, vs: seq<int>, sizes: seq<int>)
    requires Concat(vs, sizes) >= 0
    ensures Concat([v] + vs, [size] + sizes) == v + Shl(Concat(vs, sizes), size)
  {
    hide Shl;
    assert ([v] + vs)[1..] == vs && ([size] + sizes)[1..] == sizes;
  }

  /** One more value goes above all the others. */
  lemma {:induction false} ConcatAppend(vs: seq<int>, sizes: seq<int>, v: nat, k: nat)
    requires Widths(vs, sizes) && k > 0 && v <= Mask(k)
    ensures Total(sizes) >= 0 && Concat(vs, sizes) >= 0
    ensures Concat(vs + [v], sizes + [k]) == Concat(vs, sizes) + Shl(v, Total(sizes))
  {
    hide Shl, Pow2, Concat;
    ConcatFits(vs, sizes);
    if vs == [] {
      assert vs + [v] == [v] && sizes + [k] == [k];
      OneConcat(v, k);
      ShlNothing(v);
      NoConcat();
    } else {
      var vs1, sizes1 := vs[1..], sizes[1..];
      assert vs + [v] == [vs[0]] + (vs1 + [v]) && sizes + [k] == [sizes[0]] + (sizes1 + [k]);
      assert vs == [vs[0]] + vs1 && sizes == [sizes[0]] + sizes1;
      ConcatFits(vs1, sizes1);
      ConcatAppend(vs1, sizes1, v, k);
      var rest, w := Concat(vs1, sizes1), Total(sizes1);
      FirstOfConcat(vs[0], sizes[0], vs1, sizes1);
      FirstOfConcat(vs[0], sizes[0], vs1 + [v], sizes1 + [k]);
      ShlAdd(rest, Shl(v, w), sizes[0]);
      ShlTwice(v, w, sizes[0]);
    }
  }

  lemma OneConcat(v: int, size: int)
    requires size >= 0
    ensures Concat([v], [size]) == v
  {
    assert [v][1..] == [] && [size][1..] == [];
    ShlZero(size);
  }

  lemma {:induction false} SizesTotal(args: seq<Expr>)
    ensures Total(Sizes(args)) == SizeSum(args)
  {
    if args != [] {
      assert Sizes(args)[1..] == Sizes(args[1..]);
      SizesTotal(args[1..]);
    }
  }

  /** In terms of the operations the analysis uses. */
  lemma ConcatStep(vs: seq<int>, sizes: seq<int>, v: int, k: int, size: nat)
    requires Widths(vs, sizes) && k > 0 && 0 <= v <= Mask(k) && Total(sizes) + k <= size
    ensures Total(sizes) >= 0 && Concat(vs, sizes) >= 0
    ensures Concat(vs + [v], sizes + [k]) == Or(Concat(vs, sizes), Wrap(Shl(v, Total(sizes)), size))
  {
    hide Or, Concat, Shl, Total;
    ConcatFits(vs, sizes);
    ConcatAppend(vs, sizes, v, k);
    var w := Total(sizes);
    ShlBelow(v, k, w);
    PowMono(k + w, size);
    WrapSmall(Shl(v, w), size);
    OrJoin(v, Concat(vs, sizes), w);
    OrComm(Concat(vs, sizes), Shl(v, w));
  }

  lemma {:induction false} TotalPrefix(sizes: seq<int>, i: nat)
    requires i < |sizes| && forall k :: 0 <= k < |sizes| ==> sizes[k] > 0
    ensures Total(sizes[..i + 1]) == Total(sizes[..i]) + sizes[i]
    ensures 0 <= Total(sizes[..i]) && Total(sizes[..i + 1]) <= Total(sizes)
  {
    assert sizes[..i + 1] == sizes[..i] + [sizes[i]];
    TotalAppend(sizes[..i], sizes[i]);
    TotalPositive(sizes[..i]);
    TotalPositive(sizes[i + 1..]);
    TotalJoin(sizes[..i + 1], sizes[i + 1..]);
    assert sizes == sizes[..i + 1] + sizes[i + 1..];
  }

  lemma {:induction false} TotalPositive(sizes: seq<int>)
    requires forall k :: 0 <= k < |sizes| ==> sizes[k] > 0
    ensures Total(sizes) >= 0
  {
    if sizes != [] { TotalPositive(sizes[1..]); }
  }

  lemma {:induction false} TotalJoin(a: seq<int>, b: seq<int>)
    ensures Total(a + b) == Total(a) + Total(b)
  {
    if a == [] {
      assert a + b == b;
    } else {
      assert (a + b)[1..] == a[1..] + b;
      TotalJoin(a[1..], b);
    }
  }

  /** The mask of the bits from start to stop. */
  lemma {:induction false} SliceMask(start: nat, stop: nat)
    requires start <= stop
    ensures Xor(Pow2(start) - 1, Pow2(stop) - 1) == Pow2(stop) - Pow2(start)
    ensures Pow2(stop) - Pow2(start) >= 0 && Shr(Pow2(stop) - Pow2(start), start) == Pow2(stop - start) - 1
    decreases start
  {
    hide Xor;
    if start == 0 {
      XorZero(Pow2(stop) - 1);
    } else {
      SliceMask(start - 1, stop - 1);
      var a, b := Pow2(start) - 1, Pow2(stop) - 1;
      assert a / 2 == Pow2(start - 1) - 1 && b / 2 == Pow2(stop - 1) - 1 && a % 2 == 1 && b % 2 == 1;
      XorHalf(a, b);
      assert (Pow2(stop) - Pow2(start)) / 2 == Pow2(stop - 1) - Pow2(start - 1);
    }
  }

  /** Masking then shifting is slicing. */
  lemma MaskedShift(v: nat, start: nat, stop: nat)
    requires start <= stop
    ensures Pow2(stop) - Pow2(start) >= 0
    ensures Shr(And(v, Pow2(stop) - Pow2(start)), start) == Low(Shr(v, start), stop - start)
  {
    hide And;
    SliceMask(start, stop);
    AndParts(v, Pow2(stop) - Pow2(start), start);
    AndMask(Shr(v, start), stop - start);
  }

  // ----- the machines -----

  ghost predicate AllSized(vs: seq<int>, size: nat) {
    forall i :: 0 <= i < |vs| ==> 0 <= vs[i] <= Mask(size)
  }

  /** The machine computes the operators as their names say, and everything in its size. */
  ghost predicate Standard<M(!new)>(m: Machine<M>) {
    HandledOps(m) && OtherOps(m) && Slices(m) && Composes(m) && Loads(m)
  }

  /** Two operands as the name says; one is itself; more are taken from the left. */
  ghost predicate HandledOps<M(!new)>(m: Machine<M>) {
    && (forall op, ss, size: nat, x: nat, y: nat :: size > 0 && x <= Mask(size) && y <= Mask(size) ==>
          Means(op, size, x, y, m.op(op, [x, y], ss, size)))
    && (forall op, vs, ss, size: nat :: IsHandled(op) && |vs| == 1 ==> m.op(op, vs, ss, size) == vs[0])
    && (forall op, vs, ss, ss1, ss2, size: nat :: IsNary(op) && |vs| > 2 ==> Nested(m, op, vs, ss, ss1, ss2, size))
  }

  ghost predicate Nested<M>(
    m: Machine<M>, op: string, vs: seq<int>, ss: seq<int>, ss1: seq<int>, ss2: seq<int>, size: nat)
    requires |vs| > 2
  {
    m.op(op, vs, ss, size) == m.op(op, [m.op(op, vs[..|vs| - 1], ss1, size), vs[|vs| - 1]], ss2, size)
  }

  ghost predicate OtherOps<M(!new)>(m: Machine<M>) {
    && (forall vs, ss, size: nat :: |vs| == 1 && vs[0] >= 0 ==> m.op("-", vs, ss, size) == (0 - vs[0]) % Pow2(size))
    && (forall vs, ss, size: nat :: |vs| == 2 && 0 <= vs[0] <= Mask(size) && vs[1] > 0 ==>
          m.op("%", vs, ss, size) == vs[0] % vs[1])
    && (forall op, vs, ss, size: nat :: !IsHandled(op) ==> 0 <= m.op(op, vs, ss, size) <= Mask(size))
  }

  ghost predicate Slices<M(!new)>(m: Machine<M>) {
    forall v: nat, start: nat, stop: nat :: start <= stop ==>
      m.slice(v, start, stop) == (v / Pow2(start)) % Pow2(stop - start)
  }

  ghost predicate Composes<M(!new)>(m: Machine<M>) {
    forall vs, ss :: m.compose(vs, ss) == Concat(vs, ss)
  }

  ghost predicate Loads<M(!new)>(m: Machine<M>) {
    forall mem, a, size: nat :: 0 <= m.load(mem, a, size) <= Mask(size)
  }

  ghost predicate WellSized<M>(s: State<M>) {
    forall id: Ident :: 0 <= s.env(id) <= Mask(id.v.size)
  }

  /** Sizes agree, nothing is a location, and the operators have the operands they need. */
  ghost predicate WellFormed(e: Expr) {
    Size(e) > 0 &&
    match e
    case Int(value, size) => value <= Mask(size)
    case Id(_) => true
    case LocRef(_, _) => false
    case Mem(_, _) => true
    case Op(op, args, size) =>
      if IsHandled(op) then
        && |args| > 0 && (!IsNary(op) ==> |args| <= 2)
        && (forall i :: 0 <= i < |args| ==> WellFormed(args[i]) && Size(args[i]) == size)
      else if op == "-" then |args| == 1 && WellFormed(args[0]) && Size(args[0]) == size
      else if op == "%" then
        |args| == 2 && (forall i :: 0 <= i < |args| ==> WellFormed(args[i]) && Size(args[i]) == size)
      else true
    case Slice(arg, start, stop) => WellFormed(arg) && start < stop <= Size(arg)
    case Compose(args) => |args| > 0 && forall i :: 0 <= i < |args| ==> WellFormed(args[i])
    case Cond(_, src1, src2) => WellFormed(src1) && WellFormed(src2) && Size(src1) == Size(src2)
  }

  ghost predicate World<M(!new)>(m: Machine<M>, s: State<M>) {
    Standard(m) && WellSized(s)
  }

  // ----- what such a machine computes -----

  /** On values of the size, operators fold their operands by the table. */
  lemma {:induction false} StandardOps<M(!new)>(m: Machine<M>, op: string, vs: seq<int>, ss: seq<int>, size: nat)
    requires HandledOps(m) && size > 0 && IsHandled(op) && |vs| > 0 && (!IsNary(op) ==> |vs| <= 2) && AllSized(vs, size)
    ensures m.op(op, vs, ss, size) == Fold(HandlerOf(op), size, vs)
    decreases |vs|
  {
    hide HandlerOf, IsNary, IsHandled, Means, Step;
    var h := HandlerOf(op);
    if |vs| == 2 {
      StandardPair(m, op, vs[0], vs[1], ss, size);
      FoldTwo(h, size, vs[0], vs[1]);
      assert vs == [vs[0], vs[1]];
    } else if |vs| > 2 {
      var k := |vs| - 1;
      var first := Fold(h, size, vs[..k]);
      StandardOps(m, op, vs[..k], ss, size);
      FoldFits(h, size, vs[..k]);
      assert Nested(m, op, vs, ss, ss, ss, size);
      StandardPair(m, op, first, vs[k], ss, size);
    }
  }

  lemma StandardPair<M(!new)>(m: Machine<M>, op: string, x: nat, y: nat, ss: seq<int>, size: nat)
    requires HandledOps(m) && size > 0 && IsHandled(op) && x <= Mask(size) && y <= Mask(size)
    ensures m.op(op, [x, y], ss, size) == Step(HandlerOf(op), size, x, y)
  {
    hide HandlerOf, IsNary, IsHandled, Means, Step;
    HandlerMeans(op, size, x, y, m.op(op, [x, y], ss, size));
  }

  lemma StandardParts<M(!new)>(m: Machine<M>)
    requires Standard(m)
    ensures forall op, vs, ss, size: nat :: !IsHandled(op) ==> 0 <= m.op(op, vs, ss, size) <= Mask(size)
    ensures forall v: nat, start: nat, stop: nat :: start <= stop ==>
      m.slice(v, start, stop) == Low(Shr(v, start), stop - start)
    ensures forall vs, ss :: m.compose(vs, ss) == Concat(vs, ss)
    ensures forall mem, a, size: nat :: 0 <= m.load(mem, a, size) <= Mask(size)
  {
    hide HandledOps, Concat, Low, Shr, Pow2, IsHandled;
    forall v: nat, start: nat, stop: nat | start <= stop
      ensures m.slice(v, start, stop) == Low(Shr(v, start), stop - start)
    {
      ShrOver(v, start);
      ShrOver(Shr(v, start), stop - start);
    }
  }

  /** Well-formed expressions have values of their size. */
  lemma {:induction false} EvalFits<M(!new)>(m: Machine<M>, e: Expr, s: State<M>)
    requires WellFormed(e) && Standard(m) && WellSized(s)
    ensures 0 <= Eval(m, e, s) <= Mask(Size(e))
    decreases e
  {
    hide Fold, Concat, Step, Standard, HandledOps, IsHandled, IsNary, HandlerOf;
    match e
    case Int(_, _) =>
    case Id(_) =>
    case Mem(_, _) => StandardParts(m);
    case Slice(arg, start, stop) =>
      StandardParts(m);
      EvalFits(m, arg, s);
      Split(Shr(Eval(m, arg, s), start), stop - start);
    case Cond(_, src1, src2) =>
      EvalFits(m, src1, s);
      EvalFits(m, src2, s);
    case Compose(args) =>
      forall i | 0 <= i < |args|
        ensures 0 <= Eval(m, args[i], s) <= Mask(Size(args[i])) && Size(args[i]) > 0
      {
        EvalFits(m, args[i], s);
      }
      StandardParts(m);
      ConcatFits(EvalAll(m, args, s), Sizes(args));
      SizesTotal(args);
    case Op(op, args, size) =>
      if !IsHandled(op) {
        StandardParts(m);
      } else {
        forall i | 0 <= i < |args|
          ensures 0 <= Eval(m, args[i], s) <= Mask(size)
        {
          EvalFits(m, args[i], s);
        }
        StandardHandles(m);
        StandardOps(m, op, EvalAll(m, args, s), Sizes(args), size);
        FoldFits(HandlerOf(op), size, EvalAll(m, args, s));
      }
  }

  lemma StandardHandles<M(!new)>(m: Machine<M>)
    requires Standard(m)
    ensures HandledOps(m) && OtherOps(m)
  {}

  // ----- there are such machines -----

  function StandardOp(op: string, vs: seq<int>, ss: seq<int>, size: nat): (r: int) {
    if IsHandled(op) then
      if |vs| == 1 then vs[0]
      else if size > 0 && |vs| > 1 then Fold(HandlerOf(op), size, vs)
      else 0
    else if op == "-" && |vs| == 1 then (0 - vs[0]) % Pow2(size)
    else if op == "%" && |vs| == 2 && 0 <= vs[0] <= Mask(size) && vs[1] > 0 then vs[0] % vs[1]
    else 0
  }

  /** A machine with the standard operators and the given memory. */
  function StandardMachine<M(!new)>(load: (M, int, nat) -> int, store: (M, set<Write>) -> M): (m: Machine<M>) {
    Machine(
      (op, vs, ss, size: nat) => StandardOp(op, vs, ss, size),
      (v: int, start: nat, stop: nat) => if v >= 0 && start <= stop then (v / Pow2(start)) % Pow2(stop - start) else 0,
      (vs: seq<int>, ss: seq<int>) => Concat(vs, ss),
      loc => loc, load, store)
  }

  lemma StandardPairMeans(op: string, size: nat, x: nat, y: nat, ss: seq<int>)
    requires size > 0 && x <= Mask(size) && y <= Mask(size)
    ensures Means(op, size, x, y, StandardOp(op, [x, y], ss, size))
  {
    hide HandlerOf, Step, Fold;
    if IsHandled(op) {
      FoldTwo(HandlerOf(op), size, x, y);
      HandlerMeans(op, size, x, y, Step(HandlerOf(op), size, x, y));
    }
  }

  lemma StandardNested(op: string, vs: seq<int>, ss: seq<int>, ss1: seq<int>, ss2: seq<int>, size: nat)
    requires IsNary(op) && |vs| > 2
    ensures StandardOp(op, vs, ss, size) ==
      StandardOp(op, [StandardOp(op, vs[..|vs| - 1], ss1, size), vs[|vs| - 1]], ss2, size)
  {
    hide HandlerOf, Step, IsNary;
    var x := StandardOp(op, vs[..|vs| - 1], ss1, size);
    if size > 0 { FoldTwo(HandlerOf(op), size, x, vs[|vs| - 1]); }
  }

  lemma StandardSmall(op: string, vs: seq<int>, ss: seq<int>, size: nat)
    requires !IsHandled(op)
    ensures 0 <= StandardOp(op, vs, ss, size) <= Mask(size)
  {
    if op == "-" && |vs| == 1 {
      assert 0 <= (0 - vs[0]) % Pow2(size) < Pow2(size);
    } else if op == "%" && |vs| == 2 && 0 <= vs[0] <= Mask(size) && vs[1] > 0 {
      ModSmaller(vs[0], vs[1]);
    }
  }

  /** Such machines exist. */
  lemma StandardExists<M(!new)>(load: (M, int, nat) -> int, store: (M, set<Write>) -> M)
    requires forall mem, a, size: nat :: 0 <= load(mem, a, size) <= Mask(size)
    ensures Standard(StandardMachine(load, store))
  {
    hide Fold, Concat, HandledOps, Pow2, HandlerOf;
    var m := StandardMachine(load, store);
    StandardHandled(m);
    forall op, vs: seq<int>, ss: seq<int>, size: nat | !IsHandled(op)
      ensures 0 <= m.op(op, vs, ss, size) <= Mask(size)
    {
      StandardSmall(op, vs, ss, size);
    }
  }

  lemma StandardHandled<M(!new)>(m: Machine<M>)
    requires forall op, vs, ss, size: nat :: m.op(op, vs, ss, size) == StandardOp(op, vs, ss, size)
    ensures HandledOps(m)
  {
    hide Means, IsHandled, IsNary, HandlerOf, Fold;
    forall op, ss: seq<int>, size: nat, x: nat, y: nat | size > 0 && x <= Mask(size) && y <= Mask(size)
      ensures Means(op, size, x, y, m.op(op, [x, y], ss, size))
    {
      StandardPairMeans(op, size, x, y, ss);
    }
    forall op, vs: seq<int>, ss: seq<int>, ss1: seq<int>, ss2: seq<int>, size: nat | IsNary(op) && |vs| > 2
      ensures Nested(m, op, vs, ss, ss1, ss2, size)
    {
      StandardNested(op, vs, ss, ss1, ss2, size);
    }
  }
}
