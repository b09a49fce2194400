/**
 Exactly which set the range analysis computes for an expression
 (miasm/analysis/expression_range.py): stated operator by operator on the sets of the operands.
 */
module RangePoints {
  import opened Bits
  import opened Intervals
  import opened ModularRanges
  import opened ModularIntervals
  import opened Operators
  import opened Ir

  // ----- one operator -----

  /** p is the sum of a member of s and a member of t. */
  ghost predicate SumOfMembers(size: nat, s: seq<Range>, t: seq<Range>, p: int) {
    exists x: nat, y: nat :: In(s, x) && In(t, y) && p == Wrap(x + y, size)
  }

  /** p is in the set of the operator of that name on two sets. */
  ghost predicate CombinePoint(op: string, size: nat, s: seq<Range>, t: seq<Range>, p: int)
    requires size > 0
  {
    match op
    case "+" => SumOfMembers(size, s, t, p)
    case "*" => SetPoint(Mul, size, s, t, p)
    case "&" => SetPoint(AndOp, size, s, t, p)
    case "|" => SetPoint(OrOp, size, s, t, p)
    case "^" => SetPoint(XorOp, size, s, t, p)
    case "<<" => ClampedPoint(ShiftLeft, size, s, t, p)
    case ">>" => ClampedPoint(ShiftRight, size, s, t, p)
    case "a>>" => ClampedPoint(ArithmeticRight, size, s, t, p)
    case "<<<" => TurnedPoint(RotateLeft, size, s, t, p)
    case ">>>" => TurnedPoint(RotateRight, size, s, t, p)
    case _ => false
  }

  ghost predicate HandlerPoint(h: Handler, size: nat, s: seq<Range>, t: seq<Range>, p: int)
    requires size > 0 && !h.Unhandled?
  {
    match h
    case Bin(op) => SetPoint(op, size, s, t, p)
    case Shifts(op) => ClampedPoint(op, size, s, t, p)
    case Rotates(op) => TurnedPoint(op, size, s, t, p)
  }

  /** Each entry of the table computes the set its name says. */
  lemma HandlerPoints(op: string, size: nat, s: seq<Range>, t: seq<Range>, p: int)
    requires size > 0 && IsHandled(op) && Fits(s, size) && Fits(t, size)
    ensures CombinePoint(op, size, s, t, p) <==> HandlerPoint(HandlerOf(op), size, s, t, p)
  {
    hide SetPoint, ClampedPoint, TurnedPoint, SumOfMembers, In, Canonical;
    if op == "+" { SumSet(size, s, t, p); }
  }

  lemma SumSet(size: nat, s: seq<Range>, t: seq<Range>, p: int)
    requires Fits(s, size) && Fits(t, size)
    ensures SetPoint(Add, size, s, t, p) <==> SumOfMembers(size, s, t, p)
  {
    hide SetPoint, In, Canonical, Wrap;
    SetSums(size, s, t, p);
  }

  ghost predicate CombineIs(op: string, size: nat, s: seq<Range>, t: seq<Range>, r: seq<Range>)
    requires size > 0
  {
    Fits(r, size) && forall p :: In(r, p) <==> CombinePoint(op, size, s, t, p)
  }

  /** The sets of the operands, combined from left to right. */
  ghost predicate FoldIs(op: string, size: nat, rs: seq<seq<Range>>, r: seq<Range>)
    requires size > 0 && |rs| > 0
  {
    if |rs| == 1 then r == rs[0]
    else
      var k := |rs| - 1;
      exists acc :: FoldIs(op, size, rs[..k], acc) && CombineIs(op, size, acc, rs[k], r)
  }

  // ----- slices and concatenations -----

  /** r is the set of a & mask. */
  ghost predicate Masked(size: nat, a: seq<Range>, mask: nat, r: seq<Range>) {
    Fits(r, size) && forall p :: In(r, p) <==> SetPoint(AndOp, size, a, [(mask, mask)], p)
  }

  /** r is the set of a shifted by k. */
  ghost predicate Moved(op: ShiftOp, size: nat, a: seq<Range>, k: nat, r: seq<Range>)
    requires size > 0
  {
    Fits(r, size) && forall p :: In(r, p) <==> ClampedPoint(op, size, a, [(k, k)], p)
  }

  ghost predicate Joined(size: nat, a: seq<Range>, b: seq<Range>, r: seq<Range>) {
    Fits(r, size) && forall p :: In(r, p) <==> SetPoint(OrOp, size, a, b, p)
  }

  /** The bits from start to stop of every member, masked and then moved down. */
  ghost predicate SliceIs(size: nat, a: seq<Range>, start: nat, stop: nat, r: seq<Range>)
    requires size > 0
  {
    && Pow2(stop) >= Pow2(start)
    && exists masked :: Masked(size, a, Pow2(stop) - Pow2(start), masked) && Moved(ShiftRight, size, masked, start, r)
  }

  /** Every part moved up past the parts before it, and merged with them. */
  ghost predicate ConcatIs(size: nat, rs: seq<seq<Range>>, sizes: seq<int>, r: seq<Range>)
    requires size > 0 && |rs| == |sizes| > 0
  {
    if |rs| == 1 then r == rs[0]
    else
      var k := |rs| - 1;
      && Total(sizes[..k]) >= 0
      && exists acc, moved ::
        && ConcatIs(size, rs[..k], sizes[..k], acc) && Moved(ShiftLeft, size, rs[k], Total(sizes[..k]), moved)
        && Joined(size, acc, moved, r)
  }

  // ----- whole expressions -----

  ghost predicate IsOne(s: seq<Range>, v: int) {
    forall p :: In(s, p) <==> p == v
  }

  ghost predicate IsFull(s: seq<Range>, size: nat) {
    forall p :: In(s, p) <==> 0 <= p <= Mask(size)
  }

  ghost predicate IsUnion(s: seq<Range>, t: seq<Range>, r: seq<Range>) {
    forall p :: In(r, p) <==> In(s, p) || In(t, p)
  }

  /** The opposites of the members of a. */
  ghost predicate NegIs(size: nat, a: seq<Range>, r: seq<Range>) {
    forall p :: In(r, p) <==> HasOpposite(size, a, p)
  }

  /** The remainders of the members of a by the only member of b; anything when b has several, or none. */
  ghost predicate ModIs(size: nat, a: seq<Range>, b: seq<Range>, r: seq<Range>) {
    if exists d: nat :: IsOne(b, d) then forall d: nat :: IsOne(b, d) ==> HasRemainders(a, d, r)
    else IsFull(r, size)
  }

  ghost predicate HasRemainders(a: seq<Range>, d: nat, r: seq<Range>) {
    forall p :: In(r, p) <==> HasRemainder(a, d, p)
  }

  /** r is the set of the expression. */
  ghost predicate Computes(e: Expr, r: seq<Range>)
    requires WellFormed(e)
  {
    Fits(r, Size(e)) &&
    match e
    case Int(value, _) => IsOne(r, value)
    case Id(_) => IsFull(r, Size(e))
    case LocRef(_, _) => true
    case Mem(_, _) => IsFull(r, Size(e))
    case Op(op, args, size) =>
      if IsHandled(op) then
        exists rs: seq<seq<Range>> :: |rs| == |args| && (forall i :: 0 <= i < |args| ==> Computes(args[i], rs[i])) &&
          FoldIs(op, size, rs, r)
      else if op == "-" then exists a :: Computes(args[0], a) && NegIs(size, a, r)
      else if op == "%" then exists a, b :: Computes(args[0], a) && Computes(args[1], b) && ModIs(size, a, b, r)
      else IsFull(r, size)
    case Slice(arg, start, stop) => exists a :: Computes(arg, a) && SliceIs(Size(arg), a, start, stop, r)
    case Compose(args) =>
      exists rs: seq<seq<Range>> :: |rs| == |args| && (forall i :: 0 <= i < |args| ==> Computes(args[i], rs[i])) &&
        ConcatIs(Size(e), rs, Sizes(args), r)
    case Cond(_, src1, src2) => exists a, b :: Computes(src1, a) && Computes(src2, b) && IsUnion(a, b, r)
  }

  /** The sets of the operands of a handled operator. */
  lemma FoldOperands(e: Expr, r: seq<Range>) returns (rs: seq<seq<Range>>)
    requires e.Op? && IsHandled(e.op) && WellFormed(e) && Computes(e, r)
    ensures e.size > 0 && |rs| == |e.args| > 0 && FoldIs(e.op, e.size, rs, r)
    ensures forall i :: 0 <= i < |e.args| ==> WellFormed(e.args[i]) && Size(e.args[i]) == e.size
    ensures forall i :: 0 <= i < |e.args| ==> Computes(e.args[i], rs[i]) && Fits(rs[i], e.size)
  {
    hide FoldIs, IsHandled, In, Canonical;
    rs :| |rs| == |e.args| && (forall i :: 0 <= i < |e.args| ==> Computes(e.args[i], rs[i])) &&
      FoldIs(e.op, e.size, rs, r);
  }

  lemma NegOperand(e: Expr, r: seq<Range>) returns (a: seq<Range>)
    requires e.Op? && e.op == "-" && WellFormed(e) && Computes(e, r)
    ensures e.size > 0 && |e.args| == 1 && WellFormed(e.args[0]) && Size(e.args[0]) == e.size
    ensures Computes(e.args[0], a) && NegIs(e.size, a, r) && Fits(r, e.size)
  {
    hide NegIs, In, Canonical;
    a :| Computes(e.args[0], a) && NegIs(e.size, a, r);
  }

  lemma ModOperands(e: Expr, r: seq<Range>) returns (a: seq<Range>, b: seq<Range>)
    requires e.Op? && e.op == "%" && WellFormed(e) && Computes(e, r)
    ensures e.size > 0 && |e.args| == 2 && WellFormed(e.args[0]) && WellFormed(e.args[1])
    ensures Size(e.args[0]) == e.size && Size(e.args[1]) == e.size
    ensures Computes(e.args[0], a) && Computes(e.args[1], b) && ModIs(e.size, a, b, r) && Fits(r, e.size)
  {
    hide ModIs, In, Canonical;
    a, b :| Computes(e.args[0], a) && Computes(e.args[1], b) && ModIs(e.size, a, b, r);
  }

  lemma ConcatOperands(e: Expr, r: seq<Range>) returns (rs: seq<seq<Range>>)
    requires e.Compose? && WellFormed(e) && Computes(e, r)
    ensures Size(e) > 0 && |rs| == |e.args| > 0 && ConcatIs(Size(e), rs, Sizes(e.args), r)
    ensures forall i :: 0 <= i < |e.args| ==> WellFormed(e.args[i]) && Size(e.args[i]) > 0
    ensures forall i :: 0 <= i < |e.args| ==> Computes(e.args[i], rs[i])
  {
    hide ConcatIs, In, Canonical;
    rs :| |rs| == |e.args| && (forall i :: 0 <= i < |e.args| ==> Computes(e.args[i], rs[i])) &&
      ConcatIs(Size(e), rs, Sizes(e.args), r);
  }

  // ----- there is only one such set -----

  lemma SameSet(r: seq<Range>, r': seq<Range>, size: nat)
    requires Fits(r, size) && Fits(r', size) && forall p :: In(r, p) <==> In(r', p)
    ensures r == r'
  {
    hide In, Canonical;
    CanonicalUnique(r, r');
  }

  lemma {:induction false} FoldOnce(op: string, size: nat, rs: seq<seq<Range>>, r: seq<Range>, r': seq<Range>)
    requires size > 0 && |rs| > 0 && FoldIs(op, size, rs, r) && FoldIs(op, size, rs, r')
    ensures r == r'
    decreases |rs|
  {
    hide CombinePoint, In, Canonical;
    if |rs| > 1 {
      var acc :| FoldIs(op, size, rs[..|rs| - 1], acc) && CombineIs(op, size, acc, rs[|rs| - 1], r);
      var acc' :| FoldIs(op, size, rs[..|rs| - 1], acc') && CombineIs(op, size, acc', rs[|rs| - 1], r');
      FoldOnce(op, size, rs[..|rs| - 1], acc, acc');
      SameSet(r, r', size);
    }
  }

  lemma SliceOnce(size: nat, a: seq<Range>, start: nat, stop: nat, r: seq<Range>, r': seq<Range>)
    requires size > 0 && SliceIs(size, a, start, stop, r) && SliceIs(size, a, start, stop, r')
    ensures r == r'
  {
    hide SetPoint, ClampedPoint, In, Canonical, Pow2;
    var mask := Pow2(stop) - Pow2(start);
    var masked :| Masked(size, a, mask, masked) && Moved(ShiftRight, size, masked, start, r);
    var masked' :| Masked(size, a, mask, masked') && Moved(ShiftRight, size, masked', start, r');
    SameSet(masked, masked', size);
    SameSet(r, r', size);
  }

  lemma {:induction false} ConcatOnce(size: nat, rs: seq<seq<Range>>, sizes: seq<int>, r: seq<Range>, r': seq<Range>)
    requires size > 0 && |rs| == |sizes| > 0 && ConcatIs(size, rs, sizes, r) && ConcatIs(size, rs, sizes, r')
    ensures r == r'
    decreases |rs|
  {
    hide SetPoint, ClampedPoint, In, Canonical, Total;
    if |rs| > 1 {
      var k := |rs| - 1;
      var index := Total(sizes[..k]);
      var acc, moved :| ConcatIs(size, rs[..k], sizes[..k], acc) && Moved(ShiftLeft, size, rs[k], index, moved) &&
        Joined(size, acc, moved, r);
      var acc', moved' :| ConcatIs(size, rs[..k], sizes[..k], acc') && Moved(ShiftLeft, size, rs[k], index, moved') &&
        Joined(size, acc', moved', r');
      ConcatOnce(size, rs[..k], sizes[..k], acc, acc');
      SameSet(moved, moved', size);
      SameSet(r, r', size);
    }
  }

  lemma ModOnce(size: nat, a: seq<Range>, b: seq<Range>, r: seq<Range>, r': seq<Range>)
    requires Fits(r, size) && Fits(r', size) && ModIs(size, a, b, r) && ModIs(size, a, b, r')
    ensures r == r'
  {
    hide In, Canonical, HasRemainder;
    if d: nat :| IsOne(b, d) {
      assert HasRemainders(a, d, r) && HasRemainders(a, d, r');
    }
    SameSet(r, r', size);
  }

  lemma ArgsOnce(args: seq<Expr>, rs: seq<seq<Range>>, rs': seq<seq<Range>>)
    requires |rs| == |rs'| == |args| && forall i :: 0 <= i < |args| ==> rs[i] == rs'[i]
    ensures rs == rs'
  {}

  /** The set of an expression is unique. */
  lemma {:induction false} ComputesOnce(e: Expr, r: seq<Range>, r': seq<Range>)
    requires WellFormed(e) && Computes(e, r) && Computes(e, r')
    ensures r == r'
    decreases e, 2
  {
    hide FoldIs, ConcatIs, SliceIs, ModIs, In, Canonical, HasOpposite, IsHandled;
    match e
    case Int(_, _) => SameSet(r, r', Size(e));
    case Id(_) => SameSet(r, r', Size(e));
    case Mem(_, _) => SameSet(r, r', Size(e));
    case Slice(arg, start, stop) =>
      var a :| Computes(arg, a) && SliceIs(Size(arg), a, start, stop, r);
      var a' :| Computes(arg, a') && SliceIs(Size(arg), a', start, stop, r');
      ComputesOnce(arg, a, a');
      SliceOnce(Size(arg), a, start, stop, r, r');
    case Cond(_, src1, src2) =>
      var a, b :| Computes(src1, a) && Computes(src2, b) && IsUnion(a, b, r);
      var a', b' :| Computes(src1, a') && Computes(src2, b') && IsUnion(a', b', r');
      ComputesOnce(src1, a, a');
      ComputesOnce(src2, b, b');
      SameSet(r, r', Size(e));
    case Compose(_) => ComposeOnce(e, r, r');
    case Op(_, _, _) => OpOnce(e, r, r');
  }

  lemma {:induction false} ComposeOnce(e: Expr, r: seq<Range>, r': seq<Range>)
    requires e.Compose? && WellFormed(e) && Computes(e, r) && Computes(e, r')
    ensures r == r'
    decreases e, 0
  {
    hide ConcatIs, Computes, WellFormed, In, Canonical;
    var rs := ConcatOperands(e, r);
    var rs' := ConcatOperands(e, r');
    forall i | 0 <= i < |e.args| ensures rs[i] == rs'[i] { ComputesOnce(e.args[i], rs[i], rs'[i]); }
    ArgsOnce(e.args, rs, rs');
    ConcatOnce(Size(e), rs, Sizes(e.args), r, r');
  }

  lemma {:induction false} FoldedOnce(e: Expr, r: seq<Range>, r': seq<Range>)
    requires e.Op? && IsHandled(e.op) && WellFormed(e) && Computes(e, r) && Computes(e, r')
    ensures r == r'
    decreases e, 0
  {
    hide *;
    var rs := FoldOperands(e, r);
    var rs' := FoldOperands(e, r');
    forall i | 0 <= i < |e.args| ensures rs[i] == rs'[i] { ComputesOnce(e.args[i], rs[i], rs'[i]); }
    ArgsOnce(e.args, rs, rs');
    FoldOnce(e.op, e.size, rs, r, r');
  }

  lemma {:induction false} OpOnce(e: Expr, r: seq<Range>, r': seq<Range>)
    requires e.Op? && WellFormed(e) && Computes(e, r) && Computes(e, r')
    ensures r == r'
    decreases e, 1
  {
    hide FoldIs, ConcatIs, SliceIs, ModIs, In, Canonical, HasOpposite;
    if IsHandled(e.op) {
      FoldedOnce(e, r, r');
    } else if e.op == "-" {
      var a := NegOperand(e, r);
      var a' := NegOperand(e, r');
      ComputesOnce(e.args[0], a, a');
      SameSet(r, r', e.size);
    } else if e.op == "%" {
      var a, b := ModOperands(e, r);
      var a', b' := ModOperands(e, r');
      ComputesOnce(e.args[0], a, a');
      ComputesOnce(e.args[1], b, b');
      ModOnce(e.size, a, b, r, r');
    } else {
      SameSet(r, r', e.size);
    }
  }

  // ----- sums are exact -----

  /** Each value lies in its set. */
  ghost predicate AllIn(rs: seq<seq<Range>>, vs: seq<int>) {
    |rs| == |vs| && forall i :: 0 <= i < |rs| ==> In(rs[i], vs[i])
  }

  ghost predicate AllFitting(rs: seq<seq<Range>>, size: nat) {
    forall i :: 0 <= i < |rs| ==> Fits(rs[i], size)
  }

  function Sum(vs: seq<int>): (r: int) {
    if vs == [] then 0 else Sum(vs[..|vs| - 1]) + vs[|vs| - 1]
  }

  ghost predicate IsSumOf(size: nat, rs: seq<seq<Range>>, vs: seq<int>, p: int) {
    AllIn(rs, vs) && p == Sum(vs) % Pow2(size)
  }

  /** p is the sum of one member of each set. */
  ghost predicate SumOfAll(size: nat, rs: seq<seq<Range>>, p: int) {
    exists vs: seq<int> :: IsSumOf(size, rs, vs, p)
  }

  lemma SumAppend(vs: seq<int>, y: int)
    ensures Sum(vs + [y]) == Sum(vs) + y
  {
    assert (vs + [y])[..|vs|] == vs;
  }

  lemma ModSum(x: int, y: int, p: int)
    requires p > 0
    ensures (x % p + y) % p == (x + y) % p
  {
    var q := x / p;
    assert x == p * q + x % p;
    var z := x % p + y;
    assert z == p * (z / p) + z % p;
    assert p * (q + z / p) == p * q + p * (z / p);
    ModAt(x + y, p, q + z / p);
  }

  /** The set of a sum holds the sums of members of the sets of the operands, and nothing else. */
  lemma {:induction false} SumsExact(size: nat, rs: seq<seq<Range>>, r: seq<Range>, p: int)
    requires size > 0 && |rs| > 0 && AllFitting(rs, size) && FoldIs("+", size, rs, r)
    ensures In(r, p) <==> SumOfAll(size, rs, p)
    decreases |rs|, 1
  {
    hide In, Canonical, Wrap, Sum, Pow2;
    if |rs| == 1 {
      OneSum(size, rs, p);
    } else {
      var k := |rs| - 1;
      var first := rs[..k];
      var acc :| FoldIs("+", size, first, acc) && CombineIs("+", size, acc, rs[k], r);
      assert In(r, p) <==> SumOfMembers(size, acc, rs[k], p);
      if In(r, p) {
        var x: nat, y: nat :| In(acc, x) && In(rs[k], y) && p == Wrap(x + y, size);
        SumsExact(size, first, acc, x);
        MoreTerms(size, rs, x, y, p);
      }
      if vs: seq<int> :| IsSumOf(size, rs, vs, p) { FewerTerms(size, rs, acc, vs, p); }
    }
  }

  lemma OneSum(size: nat, rs: seq<seq<Range>>, p: int)
    requires |rs| == 1 && AllFitting(rs, size)
    ensures In(rs[0], p) <==> SumOfAll(size, rs, p)
  {
    hide In, Canonical, Pow2;
    if In(rs[0], p) {
      assert AllIn(rs, [p]) && Sum([p]) == p;
      ModAt(p, Pow2(size), 0);
      assert IsSumOf(size, rs, [p], p);
    }
    if vs: seq<int> :| IsSumOf(size, rs, vs, p) {
      assert In(rs[0], vs[0]) && Sum(vs) == vs[0];
      ModAt(vs[0], Pow2(size), 0);
    }
  }

  lemma MoreTerms(size: nat, rs: seq<seq<Range>>, x: nat, y: nat, p: int)
    requires |rs| > 1 && SumOfAll(size, rs[..|rs| - 1], x) && In(rs[|rs| - 1], y) && p == Wrap(x + y, size)
    ensures SumOfAll(size, rs, p)
  {
    hide In, Wrap;
    var k := |rs| - 1;
    var first := rs[..k];
    assert SumOfAll(size, first, x);
    var vs: seq<int> :| IsSumOf(size, first, vs, x);
    WrapModulo(x + y, size);
    ModSum(Sum(vs), y, Pow2(size));
    var vs' := vs + [y];
    SumAppend(vs, y);
    assert forall i :: 0 <= i < k ==> first[i] == rs[i];
    assert IsSumOf(size, rs, vs', p);
  }

  lemma FewerTerms(size: nat, rs: seq<seq<Range>>, acc: seq<Range>, vs: seq<int>, p: int)
    requires size > 0 && |rs| > 1 && AllFitting(rs, size) && FoldIs("+", size, rs[..|rs| - 1], acc)
    requires IsSumOf(size, rs, vs, p)
    ensures SumOfMembers(size, acc, rs[|rs| - 1], p)
    decreases |rs|, 0
  {
    hide In, Canonical, Wrap, Pow2, FoldIs;
    var k := |rs| - 1;
    var first, x, y := rs[..k], Sum(vs[..k]) % Pow2(size), vs[k];
    assert forall i :: 0 <= i < k ==> first[i] == rs[i];
    assert IsSumOf(size, first, vs[..k], x);
    SumsExact(size, first, acc, x);
    assert In(rs[k], y) && y >= 0;
    WrapModulo(x + y, size);
    ModSum(Sum(vs[..k]), y, Pow2(size));
    assert In(acc, x) && In(rs[k], y) && p == Wrap(x + y, size);
  }

  /** So for the analysis: the set of a sum is the set of the sums of its operands' members. */
  lemma SumRange(e: Expr, r: seq<Range>, rs: seq<seq<Range>>, p: int)
    requires e.Op? && e.op == "+" && WellFormed(e) && Computes(e, r)
    requires |rs| == |e.args| && forall i :: 0 <= i < |e.args| ==> Computes(e.args[i], rs[i])
    ensures In(r, p) <==> SumOfAll(e.size, rs, p)
  {
    hide FoldIs, In, Canonical, SumOfAll;
    var rs' := FoldOperands(e, r);
    forall i | 0 <= i < |e.args| ensures rs[i] == rs'[i] { ComputesOnce(e.args[i], rs[i], rs'[i]); }
    ArgsOnce(e.args, rs, rs');
    SumsExact(e.size, rs, r, p);
  }

  // ----- constants are exact -----

  /** Built from constants by operators that keep a single value single. */
  predicate Constant(e: Expr) {
    match e
    case Int(_, _) => true
    case Id(_) => false
    case LocRef(_, _) => false
    case Mem(_, _) => false
    case Op(op, args, _) =>
      if op == "%" then |args| == 2 && Constant(args[0]) && args[1].Int? && args[1].value > 0
      else op in {"+", "&", "|", "^", ">>", "a>>", "-"} && forall i :: 0 <= i < |args| ==> Constant(args[i])
    case Slice(arg, _, _) => Constant(arg)
    case Compose(args) => forall i :: 0 <= i < |args| ==> Constant(args[i])
    case Cond(_, _, _) => false
  }

  ghost predicate AllOne(rs: seq<seq<Range>>, vs: seq<int>) {
    |rs| == |vs| && forall i :: 0 <= i < |rs| ==> IsOne(rs[i], vs[i])
  }

  lemma SingleRange(s: seq<Range>, v: int)
    requires Canonical(s) && IsOne(s, v)
    ensures s == [(v, v)]
  {
    assert IsOne([(v, v)], v) by {
      forall p ensures In([(v, v)], p) <==> p == v { InOne((v, v), p); CoversBounds((v, v), p); }
    }
    CanonicalUnique(s, [(v, v)]);
  }

  lemma OnePair(op: BinOp, size: nat, x: nat, y: nat, p: int)
    requires x <= Mask(size) && y <= Mask(size) && (op.Mul? ==> x * y <= Mask(size))
    ensures SetPoint(op, size, [(x, x)], [(y, y)], p) <==> p == Apply(op, size, x, y)
  {
    hide PairPoint, Apply;
    PairOne(op, size, x, y, p);
    assert RangesPoint(op, size, [(x, x)], 0, [(y, y)], 0, p) <==> PairPoint(op, size, x, x, y, y, p);
  }

  lemma OneShift(op: ShiftOp, size: nat, x: nat, k: nat, p: int)
    requires size > 0 && x <= Mask(size) && (op.ShiftLeft? ==> Shl(x, Clamp(k, size)) <= Mask(size))
    ensures ClampedPoint(op, size, [(x, x)], [(k, k)], p) <==> p == Shift(op, size, x, k)
  {
    hide ShiftPoint, Shift, Shl;
    ShiftOne(op, size, x, Clamp(k, size), p);
    ClampShift(op, size, x, k);
    assert RangeShifted(op, size, [(x, x)], 0, Clamp(k, size), p) <==> ShiftPoint(op, size, x, x, Clamp(k, size), p);
    forall j: nat ensures In([(k, k)], j) <==> j == k { InOne((k, k), j); CoversBounds((k, k), j); }
  }

  /** One operator on single values. */
  lemma OneCombined(op: string, size: nat, x: nat, y: nat, p: int)
    requires size > 0 && op in {"+", "&", "|", "^", ">>", "a>>"} && x <= Mask(size) && y <= Mask(size)
    ensures CombinePoint(op, size, [(x, x)], [(y, y)], p) <==> p == Step(HandlerOf(op), size, x, y)
  {
    hide SetPoint, ClampedPoint, Apply, Shift, SumOfMembers, In, Canonical;
    OneFits(size, x);
    OneFits(size, y);
    HandlerPoints(op, size, [(x, x)], [(y, y)], p);
    match op
    case ">>" => OneShift(ShiftRight, size, x, y, p);
    case "a>>" => OneShift(ArithmeticRight, size, x, y, p);
    case "+" => OnePair(Add, size, x, y, p);
    case "&" => OnePair(AndOp, size, x, y, p);
    case "|" => OnePair(OrOp, size, x, y, p);
    case "^" => OnePair(XorOp, size, x, y, p);
    case _ =>
  }

  lemma OneFits(size: nat, x: nat)
    requires x <= Mask(size)
    ensures Fits([(x, x)], size) && IsOne([(x, x)], x)
  {
    forall p ensures In([(x, x)], p) <==> p == x { InOne((x, x), p); CoversBounds((x, x), p); }
  }

  lemma {:induction false} FoldOfOnes(op: string, size: nat, rs: seq<seq<Range>>, vs: seq<int>, r: seq<Range>)
    requires size > 0 && op in {"+", "&", "|", "^", ">>", "a>>"} && |rs| > 0 && AllFitting(rs, size) && AllOne(rs, vs)
    requires AllSized(vs, size) && FoldIs(op, size, rs, r)
    ensures IsOne(r, Fold(HandlerOf(op), size, vs))
    decreases |rs|
  {
    hide CombinePoint, In, Canonical, HandlerOf, Step;
    var h := HandlerOf(op);
    if |rs| > 1 {
      var k := |rs| - 1;
      var first := rs[..k];
      var acc :| FoldIs(op, size, first, acc) && CombineIs(op, size, acc, rs[k], r);
      assert forall i :: 0 <= i < k ==> first[i] == rs[i] && vs[..k][i] == vs[i];
      FoldOfOnes(op, size, first, vs[..k], acc);
      FoldFits(h, size, vs[..k]);
      var x, y := Fold(h, size, vs[..k]), vs[k];
      FoldCanonical(op, size, first, acc);
      SingleRange(acc, x);
      assert IsOne(rs[k], y);
      SingleRange(rs[k], y);
      forall p ensures In(r, p) <==> p == Step(h, size, x, y) { OneCombined(op, size, x, y, p); }
    }
  }

  lemma FoldCanonical(op: string, size: nat, rs: seq<seq<Range>>, r: seq<Range>)
    requires size > 0 && |rs| > 0 && AllFitting(rs, size) && FoldIs(op, size, rs, r)
    ensures Fits(r, size)
  {
    hide CombinePoint, In, Canonical;
  }

  lemma OneSlice(size: nat, v: nat, start: nat, stop: nat, r: seq<Range>)
    requires size > 0 && v <= Mask(size) && start < stop <= size && SliceIs(size, [(v, v)], start, stop, r)
    ensures IsOne(r, Low(Shr(v, start), stop - start))
  {
    hide SetPoint, ClampedPoint, In, Canonical, Pow2, And, Low, Shr;
    SliceMask(start, stop);
    var mask := Pow2(stop) - Pow2(start);
    var masked :| Masked(size, [(v, v)], mask, masked) && Moved(ShiftRight, size, masked, start, r);
    PowMono(stop, size);
    forall p ensures In(masked, p) <==> p == And(v, mask) { OnePair(AndOp, size, v, mask, p); }
    AndBounds(v, mask);
    SingleRange(masked, And(v, mask));
    forall p ensures In(r, p) <==> p == Shr(And(v, mask), start) { OneShift(ShiftRight, size, And(v, mask), start, p); }
    MaskedShift(v, start, stop);
  }

  lemma {:induction false} ConcatOfOnes(size: nat, rs: seq<seq<Range>>, sizes: seq<int>, vs: seq<int>, r: seq<Range>)
    requires size > 0 && |rs| == |sizes| > 0 && Widths(vs, sizes) && Total(sizes) <= size && AllOne(rs, vs)
    requires (forall i :: 0 <= i < |rs| ==> Canonical(rs[i])) && ConcatIs(size, rs, sizes, r)
    ensures IsOne(r, Concat(vs, sizes)) && Canonical(r)
    decreases |rs|
  {
    hide SetPoint, ClampedPoint, In, Canonical, Total, Concat, Or, Wrap, Shl;
    if |rs| == 1 {
      assert vs == [vs[0]] && sizes == [sizes[0]];
      OneConcat(vs[0], sizes[0]);
      assert IsOne(rs[0], vs[0]);
    } else {
      var k := |rs| - 1;
      TotalPrefix(sizes, k);
      assert sizes[..k + 1] == sizes;
      var first, widths, index := rs[..k], sizes[..k], Total(sizes[..k]);
      var acc, moved :| ConcatIs(size, first, widths, acc) && Moved(ShiftLeft, size, rs[k], index, moved) &&
        Joined(size, acc, moved, r);
      assert forall i :: 0 <= i < k ==> first[i] == rs[i] && vs[..k][i] == vs[i] && widths[i] == sizes[i];
      ConcatOfOnes(size, first, widths, vs[..k], acc);
      ConcatFits(vs[..k], widths);
      PowMono(index, size);
      var x, y, v := Concat(vs[..k], widths), Wrap(Shl(vs[k], index), size), vs[k];
      SingleRange(acc, x);
      assert IsOne(rs[k], v);
      SingleRange(rs[k], v);
      OneMoved(size, v, sizes[k], index, moved);
      SingleRange(moved, y);
      forall p ensures In(r, p) <==> p == Or(x, y) { OnePair(OrOp, size, x, y, p); }
      assert vs == vs[..k] + [v] && sizes == widths + [sizes[k]];
      ConcatStep(vs[..k], widths, v, sizes[k], size);
    }
  }

  lemma OneMoved(size: nat, v: nat, k: nat, index: nat, moved: seq<Range>)
    requires size > 0 && k > 0 && v <= Mask(k) && index + k <= size && Moved(ShiftLeft, size, [(v, v)], index, moved)
    ensures IsOne(moved, Wrap(Shl(v, index), size))
  {
    hide ClampedPoint, In, Canonical, Wrap, Shl;
    PowMono(k, size);
    PowMono(index + k, size);
    ShlBelow(v, k, index);
    forall p ensures In(moved, p) <==> p == Wrap(Shl(v, index), size) { OneShift(ShiftLeft, size, v, index, p); }
  }

  lemma OneNeg(size: nat, a: seq<Range>, x: nat, r: seq<Range>)
    requires IsOne(a, x) && NegIs(size, a, r)
    ensures IsOne(r, (0 - x) % Pow2(size))
  {
    hide In, Wrap, Pow2;
    WrapModulo(0 - x, size);
    forall p ensures HasOpposite(size, a, p) <==> p == Opposite(size, x) {
      assert In(a, x);
    }
  }

  lemma OneMod(size: nat, a: seq<Range>, b: seq<Range>, x: nat, d: nat, r: seq<Range>)
    requires IsOne(a, x) && IsOne(b, d) && d > 0 && ModIs(size, a, b, r)
    ensures IsOne(r, x % d)
  {
    hide In;
    assert HasRemainders(a, d, r);
    forall p ensures HasRemainder(a, d, p) <==> p == x % d {
      assert In(a, x);
    }
  }

  /** The set of a constant expression is its value alone. */
  lemma {:induction false} ConstantExact<M(!new)>(m: Machine<M>, e: Expr, s: State<M>, r: seq<Range>)
    requires Constant(e) && WellFormed(e) && World(m, s) && Computes(e, r)
    ensures IsOne(r, Eval(m, e, s))
    decreases e, 2
  {
    hide FoldIs, ConcatIs, SliceIs, In, Canonical, World, IsHandled, IsNary;
    match e
    case Int(_, _) =>
    case Slice(arg, start, stop) =>
      var a :| Computes(arg, a) && SliceIs(Size(arg), a, start, stop, r);
      ConstantExact(m, arg, s, a);
      WorldFits(m, arg, s);
      var v := Eval(m, arg, s);
      SingleRange(a, v);
      OneSlice(Size(arg), v, start, stop, r);
    case Compose(args) => ConstantCompose(m, e, s, r);
    case Op(_, _, _) => ConstantOp(m, e, s, r);
  }

  lemma WorldFits<M(!new)>(m: Machine<M>, e: Expr, s: State<M>)
    requires WellFormed(e) && World(m, s)
    ensures 0 <= Eval(m, e, s) <= Mask(Size(e)) && Size(e) > 0
    ensures forall v: nat, start: nat, stop: nat :: start <= stop ==>
      m.slice(v, start, stop) == Low(Shr(v, start), stop - start)
  {
    hide Standard, WellSized;
    EvalFits(m, e, s);
    StandardParts(m);
  }

  lemma {:induction false} ConstantArgs<M(!new)>(m: Machine<M>, e: Expr, s: State<M>, rs: seq<seq<Range>>)
    requires (e.Op? || e.Compose?) && World(m, s) && |rs| == |e.args|
    requires forall i :: 0 <= i < |e.args| ==> Constant(e.args[i]) && WellFormed(e.args[i]) && Size(e.args[i]) > 0
    requires forall i :: 0 <= i < |e.args| ==> Computes(e.args[i], rs[i])
    ensures AllOne(rs, EvalAll(m, e.args, s))
    ensures forall i :: 0 <= i < |e.args| ==> Fits(rs[i], Size(e.args[i]))
    ensures Widths(EvalAll(m, e.args, s), Sizes(e.args))
    decreases e, 0
  {
    hide World, In, Canonical;
    forall i | 0 <= i < |e.args|
      ensures IsOne(rs[i], EvalAll(m, e.args, s)[i]) && Fits(rs[i], Size(e.args[i]))
      ensures 0 <= EvalAll(m, e.args, s)[i] <= Mask(Size(e.args[i])) && Size(e.args[i]) > 0
    {
      ConstantExact(m, e.args[i], s, rs[i]);
      WorldFits(m, e.args[i], s);
    }
  }

  lemma {:induction false} ConstantCompose<M(!new)>(m: Machine<M>, e: Expr, s: State<M>, r: seq<Range>)
    requires e.Compose? && Constant(e) && WellFormed(e) && World(m, s) && Computes(e, r)
    ensures IsOne(r, Eval(m, e, s))
    decreases e, 1
  {
    hide ConcatIs, In, Canonical, HandledOps, OtherOps, Concat, WellSized, Computes;
    var rs := ConcatOperands(e, r);
    ConstantArgs(m, e, s, rs);
    SizesTotal(e.args);
    ConcatOfOnes(Size(e), rs, Sizes(e.args), EvalAll(m, e.args, s), r);
  }

  lemma {:induction false} ConstantOp<M(!new)>(m: Machine<M>, e: Expr, s: State<M>, r: seq<Range>)
    requires e.Op? && Constant(e) && WellFormed(e) && World(m, s) && Computes(e, r)
    ensures IsOne(r, Eval(m, e, s))
    decreases e, 1
  {
    hide FoldIs, In, Canonical, WellSized, HandledOps, Fold, ModIs, NegIs, Slices, Composes, Loads, Computes, WellFormed;
    var args, size := e.args, e.size;
    var vs := EvalAll(m, args, s);
    if e.op == "-" {
      var a := NegOperand(e, r);
      ConstantArgs(m, e, s, [a]);
      assert IsOne([a][0], vs[0]);
      OneNeg(size, a, vs[0], r);
    } else if e.op == "%" {
      var a, b := ModOperands(e, r);
      ConstantArgs(m, e, s, [a, b]);
      assert IsOne([a, b][0], vs[0]) && IsOne([a, b][1], vs[1]);
      OneMod(size, a, b, vs[0], vs[1], r);
    } else {
      var rs := FoldOperands(e, r);
      ConstantArgs(m, e, s, rs);
      FoldOfOnes(e.op, size, rs, vs, r);
      if !IsNary(e.op) { NotNary(e); }
      StandardOps(m, e.op, vs, Sizes(args), size);
    }
  }

  lemma NotNary(e: Expr)
    requires e.Op? && IsHandled(e.op) && WellFormed(e) && !IsNary(e.op)
    ensures |e.args| <= 2
  {}
}
