/**
 Range analysis of expressions (miasm/analysis/expression_range.py): the value of an expression always
 lies in the set computed for it, and that set is the one its operators give.
 */
module ExprRange {
  import opened Bits
  import opened Intervals
  import opened ModularRanges
  import opened ModularIntervals
  import opened Operators
  import opened RangePoints
  import opened Ir

  /** Whatever the machine and the state, the value lies in the set. */
  ghost predicate Sound<M(!new)>(e: Expr, r: seq<Range>) {
    forall m: Machine<M>, s: State<M> :: World(m, s) ==> In(r, Eval(m, e, s))
  }

  /** The operands of the operator are analysed. */
  predicate Analysed(op: string) {
    IsHandled(op) || op == "-" || op == "%"
  }

  /** d is a divisor met by the analysis of e. */
  ghost predicate Divisor(e: Expr, d: Expr) {
    match e
    case Int(_, _) => false
    case Id(_) => false
    case LocRef(_, _) => false
    case Mem(_, _) => false
    case Op(op, args, size) =>
      || (Analysed(op) && exists i :: 0 <= i < |args| && Divisor(args[i], d))
      || (op == "%" && |args| == 2 && d == args[1])
    case Slice(arg, _, _) => Divisor(arg, d)
    case Compose(args) => exists i :: 0 <= i < |args| && Divisor(args[i], d)
    case Cond(_, src1, src2) => Divisor(src1, d) || Divisor(src2, d)
  }

  ghost predicate AlwaysZero<M(!new)>(d: Expr) {
    forall m: Machine<M>, s: State<M> :: World(m, s) ==> Eval(m, d, s) == 0
  }

  /** Some divisor met by the analysis is zero in every state. */
  ghost predicate DividesByZero<M(!new)>(e: Expr) {
    exists d :: Divisor(e, d) && AlwaysZero<M>(d)
  }

  // ----- one operator -----

  /** What a Python call gives: an exception or a set. */
  datatype Outcome = TypeError | Computed(values: ModularSet)

  ghost predicate IsEmpty(s: ModularSet)
    reads s
  {
    s.intervals == []
  }

  /** Two operands of a handled operator; an empty set of shift amounts has no largest one to compare. */
  method Combine(h: Handler, a: ModularSet, b: ModularSet) returns (r: Outcome)
    requires !h.Unhandled? && a.Valid() && b.Valid() && b.size == a.size
    ensures r.TypeError? <==> h.Shifts? && IsEmpty(b)
    ensures r.Computed? ==> fresh(r.values) && r.values.Valid() && r.values.size == a.size
    ensures r.Computed? ==> forall p :: r.values.Has(p) <==> HandlerPoint(h, a.size, a.intervals, b.intervals, p)
    ensures r.Computed? ==> forall x: nat, y: nat :: a.Has(x) && b.Has(y) ==> r.values.Has(Step(h, a.size, x, y))
  {
    hide Apply, Shift, Rotate, In, Canonical, SetPoint, ClampedPoint, TurnedPoint;
    match h
    case Bin(op) =>
      var c := a.Binary(op, b);
      r := Computed(c);
      forall x: nat, y: nat | a.Has(x) && b.Has(y)
        ensures c.Has(Step(h, a.size, x, y))
      {
        SetSound(op, a.size, a.intervals, b.intervals, x, y);
      }
    case Rotates(op) =>
      var c := a.RotateBy(op, b);
      r := Computed(c);
    case Shifts(op) =>
      if b.intervals == [] { return TypeError; }
      var c := a.ShiftBy(op, b);
      r := Computed(c);
      forall x: nat, y: nat | a.Has(x) && b.Has(y)
        ensures c.Has(Step(h, a.size, x, y))
      {
        ClampedSound(op, a.size, a.intervals, b.intervals, x, y);
      }
  }

  // ----- several operands -----

  lemma AllInPrefix(rs: seq<seq<Range>>, vs: seq<int>, i: nat)
    requires i < |rs| && AllIn(rs[..i + 1], vs)
    ensures |vs| == i + 1 && AllIn(rs[..i], vs[..i]) && In(rs[i], vs[i])
  {
    hide In;
    assert forall k :: 0 <= k < i ==> rs[..i + 1][k] == rs[k];
    assert rs[..i + 1][i] == rs[i];
  }

  ghost function Contents(sets: seq<ModularSet>): (rs: seq<seq<Range>>)
    reads sets
  {
    seq(|sets|, i requires 0 <= i < |sets| reads sets => sets[i].intervals)
  }

  ghost predicate Operands(sets: seq<ModularSet>, size: nat)
    reads sets
  {
    |sets| > 0 && forall i :: 0 <= i < |sets| ==> sets[i].Valid() && sets[i].size == size
  }

  /** The sets of the operands combined from left to right: that set exactly, holding every result. */
  method FoldSets(op: string, size: nat, sets: seq<ModularSet>) returns (r: Outcome)
    requires IsHandled(op) && size > 0 && Operands(sets, size)
    ensures r.TypeError? <==> HandlerOf(op).Shifts? && exists i :: 0 < i < |sets| && IsEmpty(sets[i])
    ensures r.Computed? ==> (fresh(r.values) || r.values in sets) && r.values.Valid() && r.values.size == size
    ensures r.Computed? ==> FoldIs(op, size, Contents(sets), r.values.intervals)
    ensures r.Computed? ==> forall vs :: AllIn(Contents(sets), vs) ==> r.values.Has(Fold(HandlerOf(op), size, vs))
  {
    hide In, Step, Canonical, HandlerOf, IsHandled, IsNary, FoldIs, HandlerPoint;
    var h := HandlerOf(op);
    ghost var rs := Contents(sets);
    var acc := sets[0];
    forall vs | AllIn(rs[..1], vs)
      ensures In(sets[0].intervals, Fold(h, size, vs))
    {
      AllInPrefix(rs, vs, 0);
    }
    FoldStart(op, size, rs);
    for i := 1 to |sets|
      invariant (fresh(acc) || acc in sets) && acc.Valid() && acc.size == size
      invariant Operands(sets, size) && Contents(sets) == rs
      invariant h.Shifts? ==> forall k :: 0 < k < i ==> !IsEmpty(sets[k])
      invariant FoldIs(op, size, rs[..i], acc.intervals)
      invariant forall vs :: AllIn(rs[..i], vs) ==> In(acc.intervals, Fold(h, size, vs))
    {
      ghost var before := acc.intervals;
      var a := acc;
      var c := Combine(h, a, sets[i]);
      if c.TypeError? { return TypeError; }
      acc := c.values;
      forall vs | AllIn(rs[..i + 1], vs)
        ensures In(acc.intervals, Fold(h, size, vs))
      {
        AllInPrefix(rs, vs, i);
        FoldStep(h, size, vs, before, rs[i]);
        assert a.Has(Fold(h, size, vs[..i])) && sets[i].Has(vs[i]);
      }
      assert forall p :: In(acc.intervals, p) <==> acc.Has(p);
      FoldMore(op, size, rs, i, before, acc.intervals);
    }
    assert rs[..|sets|] == rs;
    r := Computed(acc);
  }

  lemma FoldStart(op: string, size: nat, rs: seq<seq<Range>>)
    requires size > 0 && |rs| > 0
    ensures FoldIs(op, size, rs[..1], rs[0])
  {}

  lemma FoldMore(op: string, size: nat, rs: seq<seq<Range>>, i: nat, acc: seq<Range>, r: seq<Range>)
    requires size > 0 && IsHandled(op) && 0 < i < |rs| && FoldIs(op, size, rs[..i], acc)
    requires Fits(acc, size) && Fits(rs[i], size) && Fits(r, size)
    requires forall p :: In(r, p) <==> HandlerPoint(HandlerOf(op), size, acc, rs[i], p)
    ensures FoldIs(op, size, rs[..i + 1], r)
  {
    hide In, Canonical, HandlerOf, IsHandled, HandlerPoint, CombinePoint;
    var all := rs[..i + 1];
    assert all[..i] == rs[..i] && all[i] == rs[i];
    forall p ensures In(r, p) <==> CombinePoint(op, size, acc, rs[i], p) { HandlerPoints(op, size, acc, rs[i], p); }
  }

  lemma FoldStep(h: Handler, size: nat, vs: seq<int>, before: seq<Range>, last: seq<Range>)
    requires !h.Unhandled? && size > 0 && |vs| > 1 && Fits(before, size) && Fits(last, size)
    requires In(before, Fold(h, size, vs[..|vs| - 1])) && In(last, vs[|vs| - 1])
    ensures Fold(h, size, vs[..|vs| - 1]) >= 0 && vs[|vs| - 1] >= 0
    ensures Fold(h, size, vs) == Step(h, size, Fold(h, size, vs[..|vs| - 1]), vs[|vs| - 1])
  {
    hide In, Step, Canonical;
  }

  // ----- constants and full sets -----

  method Full(size: nat) returns (r: ModularSet)
    requires size > 0
    ensures fresh(r) && r.Valid() && r.size == size && IsFull(r.intervals, size)
  {
    var all := One(size, 0, Mask(size));
    r := new ModularSet(size, all);
  }

  /** An integer operand, as a set of one value. */
  method Promote(size: nat, v: nat) returns (r: ModularSet)
    requires size > 0 && v <= Mask(size)
    ensures fresh(r) && r.Valid() && r.size == size && r.intervals == [(v, v)]
    ensures forall p :: r.Has(p) <==> p == v
  {
    var one := One(size, v, v);
    r := new ModularSet(size, one);
    SingleRange(one, v);
  }

  // ----- slices -----

  /** The bits from start to stop; shrinking an empty set has no largest value to compare. */
  method SliceOf(arg: ModularSet, start: nat, stop: nat) returns (r: Outcome)
    requires arg.Valid() && start < stop <= arg.size
    ensures r.TypeError? <==> IsEmpty(arg) && stop - start < arg.size
    ensures r.Computed? ==> fresh(r.values) && r.values.Valid() && r.values.size == stop - start
    ensures r.Computed? ==> SliceIs(arg.size, arg.intervals, start, stop, r.values.intervals)
    ensures r.Computed? ==> forall v: nat :: arg.Has(v) ==> r.values.Has(Low(Shr(v, start), stop - start))
  {
    hide In, Canonical, Xor, And, Shr, Low, SetPoint, ClampedPoint;
    ghost var size, points := arg.size, arg.intervals;
    SliceMask(start, stop);
    PowMono(stop, arg.size);
    SmallSize(arg.size);
    var mask := Xor(Pow2(start) - 1, Pow2(stop) - 1);
    var maskSet := Promote(arg.size, mask);
    var masked := arg.Binary(AndOp, maskSet);
    var shifts := Promote(arg.size, start);
    var c := masked.ShiftBy(ShiftRight, shifts);
    ghost var m, values := masked.intervals, c.intervals;
    assert forall p :: In(m, p) <==> masked.Has(p);
    assert forall p :: In(values, p) <==> c.Has(p);
    assert Masked(size, points, mask, m) && Moved(ShiftRight, size, m, start, values);
    forall v: nat | arg.Has(v)
      ensures c.Has(Low(Shr(v, start), stop - start))
    {
      SliceHolds(size, points, start, stop, m, values, v);
    }
    SliceBound(size, points, start, stop, m, values);
    HullBounds(arg.intervals);
    if arg.intervals != [] {
      ghost var p := HullOf(arg.intervals).start;
      assert arg.Has(p) && c.Has(Low(Shr(p, start), stop - start));
      NotEmpty(c.intervals, Low(Shr(p, start), stop - start));
    } else {
      SliceEmpty(size, mask, start, m, values);
    }
    HullBounds(c.intervals);
    if stop - start < c.size && c.intervals == [] { return TypeError; }
    c.SizeUpdate(stop - start);
    r := Computed(c);
  }

  lemma OnePoint(v: int, p: int)
    ensures In([(v, v)], p) <==> p == v
  {
    InOne((v, v), p);
    CoversBounds((v, v), p);
  }

  lemma SliceHolds(size: nat, a: seq<Range>, start: nat, stop: nat, masked: seq<Range>, r: seq<Range>, v: nat)
    requires size > 0 && Fits(a, size) && start < stop <= size && Pow2(start) <= Pow2(stop) <= Pow2(size)
    requires Masked(size, a, Pow2(stop) - Pow2(start), masked) && Moved(ShiftRight, size, masked, start, r) && In(a, v)
    ensures In(r, Low(Shr(v, start), stop - start))
  {
    hide SetPoint, ClampedPoint, In, Canonical, Low, Shr, And, Pow2;
    var mask := Pow2(stop) - Pow2(start);
    OneFits(size, mask);
    OnePoint(mask, mask);
    OnePoint(start, start);
    SetSound(AndOp, size, a, [(mask, mask)], v, mask);
    assert In(masked, And(v, mask));
    ClampedSound(ShiftRight, size, masked, [(start, start)], And(v, mask), start);
    MaskedShift(v, start, stop);
  }

  lemma SliceEmpty(size: nat, mask: nat, start: nat, masked: seq<Range>, r: seq<Range>)
    requires size > 0 && Masked(size, [], mask, masked) && Moved(ShiftRight, size, masked, start, r)
    ensures r == []
  {
    hide PairPoint, ShiftPoint;
    HullBounds(masked);
    assert forall p :: !SetPoint(AndOp, size, [], [(mask, mask)], p);
    assert masked == [];
    HullBounds(r);
    assert forall p :: !ClampedPoint(ShiftRight, size, masked, [(start, start)], p);
  }

  lemma NotEmpty(s: seq<Range>, p: int)
    requires In(s, p)
    ensures s != []
  {}

  /** Nothing of the shifted set exceeds the slice, so shrinking the size is safe. */
  lemma SliceBound(size: nat, a: seq<Range>, start: nat, stop: nat, masked: seq<Range>, r: seq<Range>)
    requires size > 0 && start < stop <= size && Pow2(start) <= Pow2(stop) <= Pow2(size)
    requires Masked(size, a, Pow2(stop) - Pow2(start), masked) && Moved(ShiftRight, size, masked, start, r)
    ensures forall p :: In(r, p) ==> p <= Mask(stop - start)
  {
    hide SetPoint, ClampedPoint, In, Canonical, Shr, Pow2;
    var mask := Pow2(stop) - Pow2(start);
    SliceMask(start, stop);
    OneFits(size, mask);
    forall j ensures In([(start, start)], j) <==> j == start { OnePoint(start, j); }
    forall p | In(r, p)
      ensures p <= Mask(stop - start)
    {
      var y: nat, k: nat := ClampedRight(size, masked, [(start, start)], p);
      SetAnds(size, a, [(mask, mask)], y);
      var z :| In([(mask, mask)], z) && y <= z;
      OnePoint(mask, z);
      ShrMono(y, mask, start);
    }
  }

  // ----- concatenation -----

  /** The sets of the parts of a concatenation, each of its own size, all distinct objects. */
  ghost predicate Parts(sets: seq<ModularSet>, sizes: seq<int>)
    reads sets
  {
    && |sets| == |sizes| > 0
    && (forall i :: 0 <= i < |sets| ==> sets[i].Valid() && sets[i].size == sizes[i])
    && (forall i, j :: 0 <= i < j < |sets| ==> sets[i] != sets[j])
  }

  lemma PartWidths(rs: seq<seq<Range>>, sizes: seq<int>, vs: seq<int>)
    requires |rs| == |sizes| && (forall i :: 0 <= i < |rs| ==> sizes[i] > 0 && Fits(rs[i], sizes[i])) && AllIn(rs, vs)
    ensures Widths(vs, sizes)
  {
    hide In, Canonical;
  }

  ghost predicate AllFit(rs: seq<seq<Range>>, sizes: seq<int>) {
    |rs| == |sizes| && forall i :: 0 <= i < |rs| ==> sizes[i] > 0 && Fits(rs[i], sizes[i])
  }

  /** The accumulated set holds the concatenation of the first parts. */
  ghost predicate HoldsConcat(rs: seq<seq<Range>>, sizes: seq<int>, i: nat, r: seq<Range>)
    requires i <= |rs| == |sizes|
  {
    forall vs :: AllIn(rs[..i], vs) ==> In(r, Concat(vs, sizes[..i]))
  }

  lemma HoldsConcatStep(rs: seq<seq<Range>>, sizes: seq<int>, i: nat, size: nat, acc: seq<Range>, r: seq<Range>)
    requires AllFit(rs, sizes) && i < |rs| && HoldsConcat(rs, sizes, i, acc) && Total(sizes[..i]) >= 0
    requires Total(sizes[..i]) + sizes[i] <= size
    requires forall x: nat, v: nat :: In(acc, x) && In(rs[i], v) ==> In(r, Or(x, Wrap(Shl(v, Total(sizes[..i])), size)))
    ensures HoldsConcat(rs, sizes, i + 1, r)
  {
    hide In, Canonical, Or, Wrap, Shl, Concat, Total;
    var pre, ss := rs[..i + 1], sizes[..i + 1];
    forall vs | AllIn(pre, vs)
      ensures In(r, Concat(vs, ss))
    {
      AllInPrefix(rs, vs, i);
      PrefixWidths(rs, sizes, vs[..i], i);
      assert vs == vs[..i] + [vs[i]] && sizes[..i + 1] == sizes[..i] + [sizes[i]];
      assert Fits(rs[i], sizes[i]) && 0 <= vs[i] <= Mask(sizes[i]);
      ConcatStep(vs[..i], sizes[..i], vs[i], sizes[i], size);
    }
  }

  lemma PrefixWidths(rs: seq<seq<Range>>, sizes: seq<int>, vs: seq<int>, i: nat)
    requires AllFit(rs, sizes) && i <= |rs| && AllIn(rs[..i], vs)
    ensures Widths(vs, sizes[..i])
  {
    hide In, Canonical;
    PartWidths(rs[..i], sizes[..i], vs);
  }

  lemma PartsFit(sets: seq<ModularSet>, sizes: seq<int>)
    requires Parts(sets, sizes)
    ensures AllFit(Contents(sets), sizes)
  {}

  lemma TotalFirst(sizes: seq<int>)
    requires |sizes| > 0 && forall k :: 0 <= k < |sizes| ==> sizes[k] > 0
    ensures Total(sizes[..1]) == sizes[0] <= Total(sizes)
  {
    assert sizes[..1] == [sizes[0]];
    TotalPositive(sizes[1..]);
  }

  lemma FirstConcat(rs: seq<seq<Range>>, sizes: seq<int>)
    requires AllFit(rs, sizes) && |rs| > 0
    ensures HoldsConcat(rs, sizes, 1, rs[0])
  {
    forall vs | AllIn(rs[..1], vs)
      ensures In(rs[0], Concat(vs, sizes[..1]))
    {
      AllInPrefix(rs, vs, 0);
      OneConcat(vs[0], sizes[0]);
      assert sizes[..1] == [sizes[0]] && vs == [vs[0]];
    }
  }

  /** One part more, shifted to its place. */
  method AppendPart(a: ModularSet, part: ModularSet, index: nat) returns (r: ModularSet, ghost moved: seq<Range>)
    requires a.Valid() && part.Valid() && part.size == a.size && index < a.size
    ensures fresh(r) && r.Valid() && r.size == a.size
    ensures Moved(ShiftLeft, a.size, part.intervals, index, moved) && Joined(a.size, a.intervals, moved, r.intervals)
    ensures forall x: nat, v: nat :: In(a.intervals, x) && In(part.intervals, v) ==>
      In(r.intervals, Or(x, Wrap(Shl(v, index), a.size)))
  {
    hide In, Canonical, Or, Wrap, Shl, SetPoint, ClampedPoint;
    SmallSize(a.size);
    var amount := Promote(a.size, index);
    var shifted := part.ShiftBy(ShiftLeft, amount);
    moved := shifted.intervals;
    r := a.Binary(OrOp, shifted);
    assert forall p :: In(moved, p) <==> shifted.Has(p);
    assert forall p :: In(r.intervals, p) <==> r.Has(p);
    forall x: nat, v: nat | In(a.intervals, x) && In(part.intervals, v)
      ensures In(r.intervals, Or(x, Wrap(Shl(v, index), a.size)))
    {
      OnePoint(index, index);
      ClampedSound(ShiftLeft, a.size, part.intervals, [(index, index)], v, index);
      SetSound(OrOp, a.size, a.intervals, moved, x, Wrap(Shl(v, index), a.size));
    }
  }

  /**
   The parts put side by side; each set is widened in place, shifted, and merged with the others.
   That set exactly, holding every concatenation.
   */
  method ComposeSets(size: nat, sets: seq<ModularSet>, ghost sizes: seq<int>) returns (r: ModularSet)
    requires size > 0 && Parts(sets, sizes) && Total(sizes) == size
    modifies sets
    ensures (fresh(r) || r in sets) && r.Valid() && r.size == size
    ensures ConcatIs(size, old(Contents(sets)), sizes, r.intervals)
    ensures forall vs :: AllIn(old(Contents(sets)), vs) ==> r.Has(Concat(vs, sizes))
  {
    hide In, Canonical, Concat, Total, Fits, HoldsConcat, AllFit, AllIn, HullOf, Or, Wrap, Shl, Pow2, ConcatIs, Moved, Joined;
    ghost var rs := Contents(sets);
    PartsFit(sets, sizes);
    TotalFirst(sizes);
    SmallSize(size);
    var index := sets[0].size;
    sets[0].SizeUpdate(size);
    r := sets[0];
    FirstConcat(rs, sizes);
    ConcatStart(size, rs, sizes);
    for i := 1 to |sets|
      invariant (fresh(r) || r == sets[0]) && r.Valid() && r.size == size
      invariant forall k :: i <= k < |sets| ==> sets[k].Valid() && sets[k].size == sizes[k]
      invariant forall k :: i <= k < |sets| ==> sets[k].intervals == rs[k]
      invariant forall k :: 0 < k < |sets| ==> sets[k] != sets[0]
      invariant index == Total(sizes[..i]) && HoldsConcat(rs, sizes, i, r.intervals)
      invariant ConcatIs(size, rs[..i], sizes[..i], r.intervals)
    {
      TotalPrefix(sizes, i);
      var width := sets[i].size;
      sets[i].SizeUpdate(size);
      ghost var acc := r.intervals;
      ghost var moved;
      r, moved := AppendPart(r, sets[i], index);
      HoldsConcatStep(rs, sizes, i, size, acc, r.intervals);
      ConcatMore(size, rs, sizes, i, acc, moved, r.intervals);
      index := index + width;
    }
    HoldsConcatAll(rs, sizes, r.intervals);
    assert rs[..|sets|] == rs && sizes[..|sets|] == sizes;
  }

  lemma ConcatStart(size: nat, rs: seq<seq<Range>>, sizes: seq<int>)
    requires size > 0 && |rs| == |sizes| > 0
    ensures ConcatIs(size, rs[..1], sizes[..1], rs[0])
  {}

  lemma ConcatMore(
    size: nat, rs: seq<seq<Range>>, sizes: seq<int>, i: nat, acc: seq<Range>, moved: seq<Range>, r: seq<Range>)
    requires size > 0 && 0 < i < |rs| == |sizes| && Total(sizes[..i]) >= 0 && ConcatIs(size, rs[..i], sizes[..i], acc)
    requires Moved(ShiftLeft, size, rs[i], Total(sizes[..i]), moved) && Joined(size, acc, moved, r)
    ensures ConcatIs(size, rs[..i + 1], sizes[..i + 1], r)
  {
    hide Moved, Joined, Total;
    var all, widths := rs[..i + 1], sizes[..i + 1];
    assert all[..i] == rs[..i] && all[i] == rs[i] && widths[..i] == sizes[..i];
  }

  lemma HoldsConcatAll(rs: seq<seq<Range>>, sizes: seq<int>, r: seq<Range>)
    requires |rs| == |sizes| && HoldsConcat(rs, sizes, |rs|, r)
    ensures forall vs :: AllIn(rs, vs) ==> In(r, Concat(vs, sizes))
  {
    hide In, Concat;
    assert rs[..|rs|] == rs && sizes[..|rs|] == sizes;
  }

  // ----- the analysis -----

  /** There is a machine and a state, so a set holding every value is not empty. */
  lemma SomeWorld<M(00,!new)>() returns (m: Machine<M>, s: State<M>)
    ensures World(m, s)
  {
    hide Standard;
    var mem: M := *;
    m := StandardMachine((mem: M, a: int, size: nat) => 0, (mem: M, w: set<Write>) => mem);
    StandardExists(m.load, m.store);
    s := State((id: Ident) => 0, mem);
  }

  lemma EmptyUnsound<M(00,!new)>(e: Expr)
    ensures !Sound<M>(e, [])
  {
    var m, s := SomeWorld<M>();
    hide World;
    assert !In([], Eval(m, e, s));
  }

  lemma ArgumentsIn<M(!new)>(m: Machine<M>, e: Expr, s: State<M>, rs: seq<seq<Range>>)
    requires (e.Op? || e.Compose?) && |rs| == |e.args| && World(m, s)
    requires forall i :: 0 <= i < |e.args| ==> Sound<M>(e.args[i], rs[i])
    ensures AllIn(rs, EvalAll(m, e.args, s))
  {
    hide World, In, Eval;
    forall i | 0 <= i < |e.args|
      ensures In(rs[i], EvalAll(m, e.args, s)[i])
    {
      assert Sound<M>(e.args[i], rs[i]);
    }
  }

  lemma FullSound<M(!new)>(e: Expr, r: seq<Range>)
    requires WellFormed(e) && (e.Id? || e.Mem? || (e.Op? && !IsHandled(e.op))) && IsFull(r, Size(e))
    ensures Sound<M>(e, r)
  {
    hide In, Standard;
    forall m: Machine<M>, s: State<M> | World(m, s)
      ensures In(r, Eval(m, e, s))
    {
      EvalFits(m, e, s);
    }
  }

  lemma SliceSound<M(!new)>(e: Expr, size: nat, a: seq<Range>, r: seq<Range>)
    requires e.Slice? && WellFormed(e) && Sound<M>(e.arg, a) && Fits(a, size)
    requires forall v: nat :: In(a, v) ==> In(r, Low(Shr(v, e.start), e.stop - e.start))
    ensures Sound<M>(e, r)
  {
    hide In, Standard, Canonical, Low, Shr, IsHandled;
    forall m: Machine<M>, s: State<M> | World(m, s)
      ensures In(r, Eval(m, e, s))
    {
      var v := Eval(m, e.arg, s);
      assert In(a, v);
      StandardParts(m);
      assert m.slice(v, e.start, e.stop) == Low(Shr(v, e.start), e.stop - e.start);
    }
  }

  lemma CondSound<M(!new)>(e: Expr, a: seq<Range>, b: seq<Range>, r: seq<Range>)
    requires e.Cond? && Sound<M>(e.src1, a) && Sound<M>(e.src2, b) && forall p :: In(r, p) <==> In(a, p) || In(b, p)
    ensures Sound<M>(e, r)
  {
    hide In, Standard, WellSized;
    forall m: Machine<M>, s: State<M> | World(m, s)
      ensures In(r, Eval(m, e, s))
    {
    }
  }

  lemma ComposeSound<M(!new)>(e: Expr, rs: seq<seq<Range>>, r: seq<Range>)
    requires e.Compose? && |rs| == |e.args| && forall i :: 0 <= i < |rs| ==> Sound<M>(e.args[i], rs[i])
    requires forall vs :: AllIn(rs, vs) ==> In(r, Concat(vs, Sizes(e.args)))
    ensures Sound<M>(e, r)
  {
    hide In, AllIn, Standard, Concat, WellSized, IsHandled;
    forall m: Machine<M>, s: State<M> | World(m, s)
      ensures In(r, Eval(m, e, s))
    {
      ArgumentsIn(m, e, s, rs);
      StandardParts(m);
    }
  }

  lemma FoldSound<M(!new)>(e: Expr, rs: seq<seq<Range>>, r: seq<Range>)
    requires e.Op? && IsHandled(e.op) && (!IsNary(e.op) ==> |e.args| <= 2) && |rs| == |e.args| > 0 && e.size > 0
    requires forall i :: 0 <= i < |rs| ==> Sound<M>(e.args[i], rs[i]) && Fits(rs[i], e.size)
    requires forall vs :: AllIn(rs, vs) && |vs| > 0 ==> In(r, Fold(HandlerOf(e.op), e.size, vs))
    ensures Sound<M>(e, r)
  {
    hide In, Fold, Canonical, Standard, WellSized, IsHandled, IsNary, HandlerOf, HandledOps;
    forall m: Machine<M>, s: State<M> | World(m, s)
      ensures In(r, Eval(m, e, s))
    {
      ArgumentsIn(m, e, s, rs);
      var vs := EvalAll(m, e.args, s);
      assert forall i :: 0 <= i < |vs| ==> In(rs[i], vs[i]);
      StandardHandles(m);
      StandardOps(m, e.op, vs, Sizes(e.args), e.size);
    }
  }

  lemma NegSound<M(!new)>(e: Expr, a: seq<Range>, r: seq<Range>)
    requires e.Op? && e.op == "-" && |e.args| == 1 && Sound<M>(e.args[0], a) && Fits(a, e.size) && NegIs(e.size, a, r)
    ensures Sound<M>(e, r)
  {
    hide In, Standard, HandledOps, WellSized, Canonical, Wrap, Pow2, IsHandled;
    forall m: Machine<M>, s: State<M> | World(m, s)
      ensures In(r, Eval(m, e, s))
    {
      ArgumentsIn(m, e, s, [a]);
      var vs := EvalAll(m, e.args, s);
      assert In([a][0], vs[0]);
      StandardHandles(m);
      WrapModulo(0 - vs[0], e.size);
      assert m.op("-", vs, Sizes(e.args), e.size) == Opposite(e.size, vs[0]);
    }
  }

  lemma ModSound<M(!new)>(e: Expr, a: seq<Range>, b: seq<Range>, divisor: nat, r: seq<Range>)
    requires e.Op? && e.op == "%" && |e.args| == 2 && Sound<M>(e.args[0], a) && Sound<M>(e.args[1], b) && Fits(a, e.size)
    requires IsOne(b, divisor) && divisor > 0 && HasRemainders(a, divisor, r)
    ensures Sound<M>(e, r)
  {
    hide In, Standard, HandledOps, WellSized, Canonical, Pow2, IsHandled;
    forall m: Machine<M>, s: State<M> | World(m, s)
      ensures In(r, Eval(m, e, s))
    {
      ArgumentsIn(m, e, s, [a, b]);
      var vs := EvalAll(m, e.args, s);
      assert In([a, b][0], vs[0]) && In([a, b][1], vs[1]);
      StandardHandles(m);
      assert m.op("%", vs, Sizes(e.args), e.size) == vs[0] % vs[1];
    }
  }

  // ----- divisors that are zero -----

  ghost predicate IsZero(s: seq<Range>) {
    IsOne(s, 0)
  }

  lemma DividesBelow<M(!new)>(e: Expr, i: nat)
    requires (e.Op? || e.Compose?) && i < |e.args| && (e.Op? ==> Analysed(e.op)) && DividesByZero<M>(e.args[i])
    ensures DividesByZero<M>(e)
  {
    hide AlwaysZero;
    var d :| Divisor(e.args[i], d) && AlwaysZero<M>(d);
    assert Divisor(e, d);
  }

  lemma ZeroDivides<M(!new)>(e: Expr, b: seq<Range>)
    requires e.Op? && e.op == "%" && |e.args| == 2 && Sound<M>(e.args[1], b) && IsZero(b)
    ensures DividesByZero<M>(e)
  {
    hide World;
    assert AlwaysZero<M>(e.args[1]);
    assert Divisor(e, e.args[1]);
  }

  /**
   A remainder: the set holds its value, in every state of every machine, exactly when the set of
   the divisor is not {0}; it is empty otherwise.
   */
  method ModRange<M(00,!new)>(e: Expr, a: ModularSet, b: ModularSet) returns (r: ModularSet)
    requires e.Op? && WellFormed(e) && e.op == "%" && a.Valid() && b.Valid() && a.size == e.size
    ensures fresh(r) && r.Valid() && r.size == e.size && ModIs(e.size, a.intervals, b.intervals, r.intervals)
    ensures Sound<M>(e.args[0], a.intervals) && Sound<M>(e.args[1], b.intervals) ==>
      (Sound<M>(e, r.intervals) <==> !IsZero(b.intervals))
    ensures IsZero(b.intervals) ==> r.intervals == []
  {
    hide World, Sound, In, Canonical, Fold, WellFormed, Size, HasRemainder;
    WellFormedMod(e);
    HullBounds(b.intervals);
    LengthOne(b.intervals);
    ZeroHull(b.intervals);
    OneHull(b.intervals);
    if Length(b.intervals) == 1 {
      var hull := HullOf(b.intervals);
      r := a.Mod(hull.start);
      assert forall p :: In(r.intervals, p) <==> r.Has(p);
      assert HasRemainders(a.intervals, hull.start, r.intervals);
      if hull.start > 0 {
        if Sound<M>(e.args[0], a.intervals) && Sound<M>(e.args[1], b.intervals) {
          ModSound<M>(e, a.intervals, b.intervals, hull.start, r.intervals);
        }
      } else {
        NoRemainderByZero(a.intervals, r.intervals);
        EmptyUnsound<M>(e);
      }
      return;
    }
    r := Full(e.size);
    FullSound<M>(e, r.intervals);
  }

  lemma NoRemainderByZero(a: seq<Range>, r: seq<Range>)
    requires Canonical(r) && HasRemainders(a, 0, r)
    ensures r == []
  {
    HullBounds(r);
  }

  /** A set of one value, by its bounds. */
  lemma OneHull(s: seq<Range>)
    requires Canonical(s)
    ensures (exists d: nat :: IsOne(s, d)) ==> Length(s) == 1
    ensures Length(s) == 1 ==> IsOne(s, HullOf(s).start)
    ensures forall d: nat :: IsOne(s, d) ==> d == HullOf(s).start
  {
    hide In, Length;
    HullBounds(s);
    LengthOne(s);
    forall d: nat | IsOne(s, d)
      ensures Length(s) == 1 && d == HullOf(s).start
    {
      assert In(s, d);
    }
  }

  lemma ZeroHull(s: seq<Range>)
    requires Canonical(s)
    ensures IsZero(s) <==> HullOf(s) == Hull(0, 0)
  {
    hide In;
    HullBounds(s);
    assert IsZero(s) ==> In(s, 0);
  }

  lemma WellFormedMod(e: Expr)
    requires e.Op? && e.op == "%" && WellFormed(e)
    ensures |e.args| == 2 && e.size > 0 && Size(e) == e.size && !IsHandled(e.op)
    ensures forall i :: 0 <= i < |e.args| ==> WellFormed(e.args[i]) && Size(e.args[i]) == e.size
  {}

  // ----- the whole expression -----

  ghost predicate IsResult<M(!new)>(e: Expr, r: Outcome, zero: bool)
    requires WellFormed(e)
    reads if r.Computed? then {r.values} else {}
  {
    && (r.Computed? ==> r.values.Valid() && r.values.size == Size(e) && Computes(e, r.values.intervals))
    && (!zero ==> r.Computed? && Sound<M>(e, r.values.intervals))
    && (zero ==> DividesByZero<M>(e))
  }

  /** The sets of the operands, each a new object. */
  method ArgRanges<M(00,!new)>(e: Expr) returns (ok: bool, sets: seq<ModularSet>, ghost zero: bool)
    requires (e.Op? || e.Compose?) && (e.Op? ==> Analysed(e.op))
    requires forall i :: 0 <= i < |e.args| ==> WellFormed(e.args[i])
    ensures ok ==> |sets| == |e.args| && fresh(set x | x in sets)
    ensures ok ==> forall i :: 0 <= i < |sets| ==> sets[i].Valid() && sets[i].size == Size(e.args[i])
    ensures ok ==> forall i, j :: 0 <= i < j < |sets| ==> sets[i] != sets[j]
    ensures !zero ==> ok && forall i :: 0 <= i < |sets| ==> Sound<M>(e.args[i], sets[i].intervals) && !IsEmpty(sets[i])
    ensures zero ==> DividesByZero<M>(e)
    ensures !ok ==> exists i :: 0 <= i < |e.args| && DividesByZero<M>(e.args[i])
    ensures ok ==> forall i :: 0 <= i < |sets| && e.args[i].Int? ==> IsOne(sets[i].intervals, e.args[i].value)
    ensures ok ==> forall i :: 0 <= i < |sets| ==> Computes(e.args[i], sets[i].intervals)
    decreases e, 0
  {
    hide World, Sound, WellFormed, Size, In, Canonical, DividesByZero, IsOne, Computes;
    sets, ok, zero := [], true, false;
    for k := 0 to |e.args|
      invariant |sets| == k && fresh(set x | x in sets)
      invariant forall i :: 0 <= i < k ==> sets[i].Valid() && sets[i].size == Size(e.args[i])
      invariant forall i, j :: 0 <= i < j < k ==> sets[i] != sets[j]
      invariant !zero ==> forall i :: 0 <= i < k ==> Sound<M>(e.args[i], sets[i].intervals) && !IsEmpty(sets[i])
      invariant zero ==> DividesByZero<M>(e)
      invariant forall i :: 0 <= i < k && e.args[i].Int? ==> IsOne(sets[i].intervals, e.args[i].value)
      invariant forall i :: 0 <= i < k ==> Computes(e.args[i], sets[i].intervals)
    {
      var r, z := ExprRange<M>(e.args[k]);
      if z { DividesBelow<M>(e, k); }
      zero := zero || z;
      if r.TypeError? { return false, [], true; }
      EmptyUnsound<M>(e.args[k]);
      sets := sets + [r.values];
    }
  }

  /** A remainder by the constant zero. */
  predicate ByZero(e: Expr) {
    e.Op? && e.op == "%" && |e.args| == 2 && e.args[1].Int? && e.args[1].value == 0
  }

  /**
   The set of the possible values of an expression. Unless a divisor met on the way is zero in every
   state, there is one, and it holds the value of the expression whatever the machine and the state.
   When there is one, it is exactly the set that the operators give on the sets of the operands.
   */
  method ExprRange<M(00,!new)>(e: Expr) returns (r: Outcome, ghost zero: bool)
    requires WellFormed(e)
    ensures r.Computed? ==> fresh(r.values)
    ensures IsResult<M>(e, r, zero)
    ensures e.Int? ==> r.Computed? && IsOne(r.values.intervals, e.value)
    ensures ByZero(e) ==> (!DividesByZero<M>(e.args[0]) ==> r.Computed?) && (r.Computed? ==> IsEmpty(r.values))
    decreases e, 2
  {
    hide Standard, In, Canonical, Fold, Concat, WellSized, DividesByZero, IsHandled;
    zero := false;
    match e
    case Int(value, size) =>
      var c := Promote(size, value);
      assert c.Has(value);
      assert forall p :: In(c.intervals, p) <==> c.Has(p);
      r := Computed(c);
    case Id(id) =>
      var c := Full(id.v.size);
      FullSound<M>(e, c.intervals);
      r := Computed(c);
    case Mem(_, size) =>
      var c := Full(size);
      FullSound<M>(e, c.intervals);
      r := Computed(c);
    case Slice(arg, start, stop) =>
      r, zero := SliceRange<M>(e);
    case Compose(args) =>
      r, zero := ComposeRange<M>(e);
    case Cond(_, src1, src2) =>
      r, zero := CondRange<M>(e);
    case Op(op, args, size) =>
      r, zero := OpRange<M>(e);
  }

  lemma ConstantDivides<M(!new)>(e: Expr)
    requires e.Int?
    ensures !DividesByZero<M>(e)
  {}

  lemma DividesInside<M(!new)>(e: Expr, sub: Expr)
    requires (e.Slice? && sub == e.arg) || (e.Cond? && (sub == e.src1 || sub == e.src2))
    requires DividesByZero<M>(sub)
    ensures DividesByZero<M>(e)
  {
    hide AlwaysZero;
    var d :| Divisor(sub, d) && AlwaysZero<M>(d);
    assert Divisor(e, d);
  }

  method SliceRange<M(00,!new)>(e: Expr) returns (r: Outcome, ghost zero: bool)
    requires e.Slice? && WellFormed(e)
    ensures r.Computed? ==> fresh(r.values)
    ensures IsResult<M>(e, r, zero)
    decreases e, 1
  {
    hide World, Sound, In, Canonical, DividesByZero, Low, Shr, SliceIs;
    var a;
    a, zero := ExprRange<M>(e.arg);
    if zero { DividesInside<M>(e, e.arg); }
    if a.TypeError? { return TypeError, zero; }
    EmptyUnsound<M>(e.arg);
    r := SliceOf(a.values, e.start, e.stop);
    if !zero { SliceSound<M>(e, Size(e.arg), a.values.intervals, r.values.intervals); }
  }

  method CondRange<M(00,!new)>(e: Expr) returns (r: Outcome, ghost zero: bool)
    requires e.Cond? && WellFormed(e)
    ensures r.Computed? ==> fresh(r.values)
    ensures IsResult<M>(e, r, zero)
    decreases e, 1
  {
    hide World, Sound, In, Canonical, DividesByZero;
    var a, z1 := ExprRange<M>(e.src1);
    if z1 { DividesInside<M>(e, e.src1); }
    if a.TypeError? { return TypeError, true; }
    var b, z2 := ExprRange<M>(e.src2);
    if z2 { DividesInside<M>(e, e.src2); }
    zero := z1 || z2;
    if b.TypeError? { return TypeError, true; }
    var c := a.values.UnionWith(b.values);
    if !zero { CondSound<M>(e, a.values.intervals, b.values.intervals, c.intervals); }
    r := Computed(c);
  }

  method ComposeRange<M(00,!new)>(e: Expr) returns (r: Outcome, ghost zero: bool)
    requires e.Compose? && WellFormed(e)
    ensures r.Computed? ==> fresh(r.values)
    ensures IsResult<M>(e, r, zero)
    decreases e, 1
  {
    hide World, Sound, In, Canonical, Concat, DividesByZero, ConcatIs;
    var ok, sets;
    ok, sets, zero := ArgRanges<M>(e);
    if !ok { return TypeError, true; }
    SizesTotal(e.args);
    ghost var rs := Contents(sets);
    ghost var sizes := Sizes(e.args);
    assert Parts(sets, sizes);
    assert forall i :: 0 <= i < |e.args| ==> Computes(e.args[i], rs[i]);
    var c := ComposeSets(SizeSum(e.args), sets, sizes);
    if !zero { ComposeSound<M>(e, rs, c.intervals); }
    r := Computed(c);
  }

  /** What is known of the operands of an operator. */
  lemma OpArgs(e: Expr)
    requires e.Op? && WellFormed(e)
    ensures e.size > 0 && Size(e) == e.size
    ensures Analysed(e.op) ==>
      |e.args| > 0 && forall i :: 0 <= i < |e.args| ==> WellFormed(e.args[i]) && Size(e.args[i]) == e.size
    ensures Analysed(e.op) && !IsHandled(e.op) && e.op != "-" ==> e.op == "%" && |e.args| == 2
    ensures e.op == "-" ==> |e.args| == 1 && !IsHandled(e.op)
    ensures e.op == "%" ==> !IsHandled(e.op) && Analysed(e.op)
    ensures IsHandled(e.op) && !IsNary(e.op) ==> |e.args| <= 2
  {}

  method OpRange<M(00,!new)>(e: Expr) returns (r: Outcome, ghost zero: bool)
    requires e.Op? && WellFormed(e)
    ensures r.Computed? ==> fresh(r.values)
    ensures IsResult<M>(e, r, zero)
    ensures ByZero(e) ==> (!DividesByZero<M>(e.args[0]) ==> r.Computed?) && (r.Computed? ==> IsEmpty(r.values))
    decreases e, 1
  {
    hide World, Sound, In, Canonical, Fold, DividesByZero, WellFormed, Size, HandlerOf, IsHandled, IsNary, Computes, FoldIs, NegIs, ModIs;
    OpArgs(e);
    if !Analysed(e.op) {
      var c := Full(e.size);
      FullSound<M>(e, c.intervals);
      ComputesFull(e, c.intervals);
      return Computed(c), false;
    }
    var ok, sets;
    ok, sets, zero := ArgRanges<M>(e);
    if !ok {
      if ByZero(e) { ConstantDivides<M>(e.args[1]); }
      return TypeError, true;
    }
    if IsHandled(e.op) {
      r := FoldSets(e.op, e.size, sets);
      if r.Computed? { ComputesFold(e, Contents(sets), r.values.intervals); }
      if !zero { FoldSound<M>(e, Contents(sets), r.values.intervals); }
    } else if e.op == "-" {
      var c := sets[0].Neg();
      NegPoints(e.size, sets[0], c);
      ComputesNeg(e, sets[0].intervals, c.intervals);
      if !zero { NegSound<M>(e, sets[0].intervals, c.intervals); }
      r := Computed(c);
    } else {
      var c := ModRange<M>(e, sets[0], sets[1]);
      ComputesMod(e, sets[0].intervals, sets[1].intervals, c.intervals);
      if !zero && IsZero(sets[1].intervals) {
        ZeroDivides<M>(e, sets[1].intervals);
        zero := true;
      }
      r := Computed(c);
    }
  }

  lemma NegPoints(size: nat, a: ModularSet, c: ModularSet)
    requires forall p :: c.Has(p) <==> HasOpposite(size, a.intervals, p)
    ensures NegIs(size, a.intervals, c.intervals)
  {
    hide In, HasOpposite;
    assert forall p :: In(c.intervals, p) <==> c.Has(p);
  }

  lemma ComputesFull(e: Expr, r: seq<Range>)
    requires e.Op? && WellFormed(e) && !Analysed(e.op) && Fits(r, e.size) && IsFull(r, e.size)
    ensures Computes(e, r)
  {
    hide In, Canonical;
  }

  lemma ComputesFold(e: Expr, rs: seq<seq<Range>>, r: seq<Range>)
    requires e.Op? && WellFormed(e) && IsHandled(e.op) && |rs| == |e.args| > 0 && Fits(r, e.size)
    requires e.size > 0 && FoldIs(e.op, e.size, rs, r)
    requires forall i :: 0 <= i < |e.args| ==> WellFormed(e.args[i]) && Computes(e.args[i], rs[i])
    ensures Computes(e, r)
  {
    hide In, Canonical, FoldIs;
  }

  lemma ComputesNeg(e: Expr, a: seq<Range>, r: seq<Range>)
    requires e.Op? && WellFormed(e) && e.op == "-" && |e.args| == 1 && WellFormed(e.args[0]) && Computes(e.args[0], a)
    requires Fits(r, e.size) && NegIs(e.size, a, r)
    ensures Computes(e, r)
  {
    hide In, Canonical, NegIs;
  }

  lemma ComputesMod(e: Expr, a: seq<Range>, b: seq<Range>, r: seq<Range>)
    requires e.Op? && WellFormed(e) && e.op == "%" && |e.args| == 2 && WellFormed(e.args[0]) && WellFormed(e.args[1])
    requires Computes(e.args[0], a) && Computes(e.args[1], b) && Fits(r, e.size) && ModIs(e.size, a, b, r)
    ensures Computes(e, r)
  {
    hide In, Canonical, ModIs;
  }

  /**
   Where the analysis fails: the set of v % 0 is empty, while every machine gives the expression
   a value within its size.
   */
  method RemainderByZero<M(00,!new)>(v: Var) returns (r: ModularSet)
    requires v.size > 0
    ensures r.Valid() && r.size == v.size && r.intervals == []
    ensures forall m: Machine<M>, s: State<M> :: World(m, s) ==>
      0 <= Eval(m, ZeroRemainder(v), s) <= Mask(v.size) && !r.Has(Eval(m, ZeroRemainder(v), s))
  {
    hide World, Sound, Canonical, DividesByZero;
    var e := ZeroRemainder(v);
    ZeroRemainderOk<M>(v);
    var o, _ := ExprRange<M>(e);
    r := o.values;
    var full := Full(v.size);
    FullSound<M>(e, full.intervals);
    forall m: Machine<M>, s: State<M> | World(m, s)
      ensures 0 <= Eval(m, e, s) <= Mask(v.size)
    {
      assert Sound<M>(e, full.intervals);
      InFull<M>(m, e, s, full.intervals);
    }
  }

  function ZeroRemainder(v: Var): (e: Expr) {
    Op("%", [Id(Plain(v)), Int(0, v.size)], v.size)
  }

  lemma ZeroRemainderOk<M(!new)>(v: Var)
    requires v.size > 0
    ensures WellFormed(ZeroRemainder(v)) && ByZero(ZeroRemainder(v)) && !DividesByZero<M>(ZeroRemainder(v).args[0])
  {
    assert !IsHandled("%");
    assert WellFormed(Id(Plain(v))) && WellFormed(Int(0, v.size));
  }

  lemma InFull<M(!new)>(m: Machine<M>, e: Expr, s: State<M>, r: seq<Range>)
    requires Sound<M>(e, r) && World(m, s)
    ensures In(r, Eval(m, e, s))
  {
    hide World, In;
  }
}
