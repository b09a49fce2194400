/**
 Sets of fixed-size values as unions of ranges (miasm/analysis/modularintervals.py, class
 ModularIntervals): each operation returns the points its ranges give, no others, and every possible
 result is one of them.
 */
module ModularIntervals {
  import opened Bits
  import opened HackersDelight
  import opened Intervals
  import opened ModularRanges

  // ----- small facts -----

  /** One element of a canonical list of values of that size. */
  lemma RangeFits(s: seq<Range>, size: nat, i: nat)
    requires Fits(s, size) && i < |s|
    ensures 0 <= s[i].0 <= s[i].1 <= Mask(size)
    ensures forall p :: Covers(s[i], p) ==> In(s, p)
  {
    assert Covers(s[i], s[i].0) && Covers(s[i], s[i].1);
    assert In(s, s[i].0) && In(s, s[i].1);
  }

  lemma NoPrefix(s: seq<Range>)
    ensures forall p :: !In(s[..0], p)
    ensures s[..|s|] == s
  {
    assert s[..0] == [];
  }

  lemma NothingFits(size: nat)
    ensures Fits([], size)
  {}

  // ----- two operands -----

  /** p is a point of the operation on some range of s and some range of t. */
  ghost predicate SetPoint(op: BinOp, size: nat, s: seq<Range>, t: seq<Range>, p: int) {
    exists i, j :: RangesPoint(op, size, s, i, t, j, p)
  }

  ghost predicate RangesPoint(op: BinOp, size: nat, s: seq<Range>, i: int, t: seq<Range>, j: int, p: int) {
    && 0 <= i < |s| && 0 <= j < |t| && 0 <= s[i].0 && 0 <= s[i].1 && 0 <= t[j].0 && 0 <= t[j].1
    && PairPoint(op, size, s[i].0, s[i].1, t[j].0, t[j].1, p)
  }

  /** The result of every pair of members is a point. */
  lemma SetSound(op: BinOp, size: nat, s: seq<Range>, t: seq<Range>, x: nat, y: nat)
    requires Fits(s, size) && Fits(t, size) && In(s, x) && In(t, y)
    ensures SetPoint(op, size, s, t, Apply(op, size, x, y))
  {
    hide PairPoint, Apply;
    var i :| 0 <= i < |s| && Covers(s[i], x);
    var j :| 0 <= j < |t| && Covers(t[j], y);
    RangeFits(s, size, i);
    RangeFits(t, size, j);
    PairSound(op, size, s[i].0, s[i].1, t[j].0, t[j].1, x, y);
    assert RangesPoint(op, size, s, i, t, j, Apply(op, size, x, y));
  }

  /** Of two sums of ranges, exactly the sums of members. */
  lemma SetSums(size: nat, s: seq<Range>, t: seq<Range>, p: int)
    requires Fits(s, size) && Fits(t, size)
    ensures SetPoint(Add, size, s, t, p) <==> exists x: nat, y: nat :: In(s, x) && In(t, y) && p == Wrap(x + y, size)
  {
    hide Wrap, In, Canonical;
    if SetPoint(Add, size, s, t, p) {
      var i, j :| RangesPoint(Add, size, s, i, t, j, p);
      RangeFits(s, size, i);
      RangeFits(t, size, j);
      var x: nat, y: nat :| InBox(s[i].0, s[i].1, t[j].0, t[j].1, x, y) && p == Wrap(x + y, size);
      CoversBounds(s[i], x);
      CoversBounds(t[j], y);
      assert In(s, x) && In(t, y);
    }
    if x: nat, y: nat :| In(s, x) && In(t, y) && p == Wrap(x + y, size) { SetSound(Add, size, s, t, x, y); }
  }

  /** No member of an intersection of bits exceeds every member of the right operand. */
  lemma SetAnds(size: nat, s: seq<Range>, t: seq<Range>, p: int)
    requires Fits(t, size) && SetPoint(AndOp, size, s, t, p)
    ensures exists y :: In(t, y) && p <= y
  {
    hide PairPoint, In, Canonical;
    var i, j :| RangesPoint(AndOp, size, s, i, t, j, p);
    RangeFits(t, size, j);
    AndPoint(size, s[i].0, s[i].1, t[j].0, t[j].1, p);
    CoversBounds(t[j], t[j].1);
    assert In(t, t[j].1);
  }

  ghost predicate PointsUpTo(op: BinOp, size: nat, s: seq<Range>, t: seq<Range>, i: int, j: int, ret: seq<Range>) {
    forall p :: In(ret, p) <==> exists i', j' :: (i' < i || (i' == i && j' < j)) && RangesPoint(op, size, s, i', t, j', p)
  }

  lemma PointsMore(op: BinOp, size: nat, s: seq<Range>, t: seq<Range>, i: nat, j: nat, ret: seq<Range>, more: seq<Range>, ret': seq<Range>)
    requires i < |s| && j < |t| && 0 <= s[i].0 <= s[i].1 && 0 <= t[j].0 <= t[j].1 && PointsUpTo(op, size, s, t, i, j, ret)
    requires forall p :: In(more, p) <==> PairPoint(op, size, s[i].0, s[i].1, t[j].0, t[j].1, p)
    requires forall p :: In(ret', p) <==> In(ret, p) || In(more, p)
    ensures PointsUpTo(op, size, s, t, i, j + 1, ret')
  {
    hide PairPoint, In;
    forall p
      ensures In(ret', p) <==> exists i', j' :: (i' < i || (i' == i && j' < j + 1)) && RangesPoint(op, size, s, i', t, j', p)
    {
      assert In(more, p) <==> RangesPoint(op, size, s, i, t, j, p);
    }
  }

  lemma PointsNextRow(op: BinOp, size: nat, s: seq<Range>, t: seq<Range>, i: nat, ret: seq<Range>)
    requires PointsUpTo(op, size, s, t, i, |t|, ret)
    ensures PointsUpTo(op, size, s, t, i + 1, 0, ret)
  {
    hide PairPoint, In;
    forall p
      ensures In(ret, p) <==> exists i', j' :: (i' < i + 1 || (i' == i + 1 && j' < 0)) && RangesPoint(op, size, s, i', t, j', p)
    {
      assert In(ret, p) <==> exists i', j' :: (i' < i || (i' == i && j' < |t|)) && RangesPoint(op, size, s, i', t, j', p);
    }
  }

  lemma PointsStart(op: BinOp, size: nat, s: seq<Range>, t: seq<Range>)
    ensures PointsUpTo(op, size, s, t, 0, 0, [])
  {
    hide PairPoint;
    forall p ensures !In([], p) { InNothing(p); }
  }

  lemma PointsEnd(op: BinOp, size: nat, s: seq<Range>, t: seq<Range>, ret: seq<Range>)
    requires PointsUpTo(op, size, s, t, |s|, 0, ret)
    ensures forall p :: In(ret, p) <==> SetPoint(op, size, s, t, p)
  {
    hide PairPoint, In;
  }

  /** All pairs of ranges: the set holds the points of every pair, and nothing else. */
  method SetBinary(op: BinOp, size: nat, s: seq<Range>, t: seq<Range>) returns (ret: seq<Range>)
    requires Fits(s, size) && Fits(t, size)
    ensures Fits(ret, size) && forall p :: In(ret, p) <==> SetPoint(op, size, s, t, p)
  {
    hide In, Canonical, PointsUpTo, SetPoint, PairPoint;
    ret := [];
    NothingFits(size);
    PointsStart(op, size, s, t);
    for i := 0 to |s|
      invariant Fits(ret, size) && PointsUpTo(op, size, s, t, i, 0, ret)
    {
      RangeFits(s, size, i);
      for j := 0 to |t|
        invariant Fits(ret, size) && PointsUpTo(op, size, s, t, i, j, ret)
      {
        RangeFits(t, size, j);
        var more := RangeBinary(op, size, s[i].0, s[i].1, t[j].0, t[j].1);
        ghost var before := ret;
        ret := Union(ret, more);
        PointsMore(op, size, s, t, i, j, before, more, ret);
      }
      PointsNextRow(op, size, s, t, i, ret);
    }
    PointsEnd(op, size, s, t, ret);
  }

  // ----- one operand -----

  function Opposite(size: nat, x: nat): (r: nat) {
    Wrap(0 - x, size)
  }

  ghost predicate HasOpposite(size: nat, s: seq<Range>, p: int) {
    exists x: nat :: In(s, x) && p == Opposite(size, x)
  }

  /** The opposites of the members, exactly. */
  method SetNeg(size: nat, s: seq<Range>) returns (ret: seq<Range>)
    requires Fits(s, size)
    ensures Fits(ret, size) && forall p :: In(ret, p) <==> HasOpposite(size, s, p)
  {
    hide Wrap, In, Canonical;
    ret := [];
    NothingFits(size);
    NoPrefix(s);
    forall p ensures !In([], p) { InNothing(p); }
    for i := 0 to |s|
      invariant Fits(ret, size)
      invariant forall p :: In(ret, p) <==> HasOpposite(size, s[..i], p)
    {
      RangeFits(s, size, i);
      var more := RangeMinus(size, s[i].0, s[i].1);
      ghost var before := ret;
      ret := Union(ret, more);
      forall p
        ensures In(ret, p) <==> HasOpposite(size, s[..i + 1], p)
      {
        NegStep(size, s, i, more, p);
      }
    }
  }

  lemma NegStep(size: nat, s: seq<Range>, i: nat, more: seq<Range>, p: int)
    requires i < |s| && 0 <= s[i].0 <= s[i].1
    requires In(more, p) <==> exists x: nat :: IsOpposite(size, s[i].0, s[i].1, p, x)
    ensures HasOpposite(size, s[..i + 1], p) <==> HasOpposite(size, s[..i], p) || In(more, p)
  {
    hide Wrap, In;
    var before, after := s[..i], s[..i + 1];
    forall x: nat
      ensures In(after, x) <==> In(before, x) || s[i].0 <= x <= s[i].1
    {
      InStep(s, i, x);
      CoversBounds(s[i], x);
    }
    if HasOpposite(size, after, p) {
      var x: nat :| In(after, x) && p == Opposite(size, x);
      assert In(before, x) || IsOpposite(size, s[i].0, s[i].1, p, x);
    }
    if x: nat :| IsOpposite(size, s[i].0, s[i].1, p, x) { assert In(after, x) && p == Opposite(size, x); }
  }

  ghost predicate HasRemainder(s: seq<Range>, modulo: nat, p: int) {
    modulo > 0 && exists x: nat :: In(s, x) && p == x % modulo
  }

  /** The remainders of the members, exactly; none by zero. */
  method SetMod(size: nat, s: seq<Range>, modulo: nat) returns (ret: seq<Range>)
    requires Fits(s, size)
    ensures Fits(ret, size) && forall p :: In(ret, p) <==> HasRemainder(s, modulo, p)
  {
    hide In, Canonical, HasRemainder;
    ret := [];
    NothingFits(size);
    NoRemainder(s, modulo);
    for i := 0 to |s|
      invariant Fits(ret, size) && forall p :: In(ret, p) <==> HasRemainder(s[..i], modulo, p)
    {
      RangeFits(s, size, i);
      var more := RangeMod(size, s[i].0, s[i].1, modulo);
      ret := Union(ret, more);
      forall p
        ensures HasRemainder(s[..i + 1], modulo, p) <==>
          HasRemainder(s[..i], modulo, p) || IsRemainder(s[i].0, s[i].1, modulo, p)
      {
        ModStep(s, i, modulo, p);
      }
    }
    NoPrefix(s);
  }

  lemma NoRemainder(s: seq<Range>, modulo: nat)
    ensures forall p :: !HasRemainder(s[..0], modulo, p) && !In([], p)
  {
    NoPrefix(s);
    forall p ensures !In([], p) { InNothing(p); }
  }

  lemma ModStep(s: seq<Range>, i: nat, modulo: nat, p: int)
    requires i < |s| && 0 <= s[i].0 <= s[i].1
    ensures HasRemainder(s[..i + 1], modulo, p) <==>
      HasRemainder(s[..i], modulo, p) || IsRemainder(s[i].0, s[i].1, modulo, p)
  {
    hide In;
    var before, after := s[..i], s[..i + 1];
    forall x: nat
      ensures In(after, x) <==> In(before, x) || s[i].0 <= x <= s[i].1
    {
      InStep(s, i, x);
      CoversBounds(s[i], x);
    }
    if modulo > 0 && IsRemainder(s[i].0, s[i].1, modulo, p) {
      var x :| s[i].0 <= x <= s[i].1 && p == x % modulo;
      assert In(after, x);
    }
  }

  // ----- shifts -----

  /** p is a point of some range of s shifted by some amount. */
  ghost predicate ShiftedPoint(op: ShiftOp, size: nat, s: seq<Range>, amounts: seq<Range>, p: int)
    requires size > 0
  {
    exists i, k: nat :: In(amounts, k) && RangeShifted(op, size, s, i, k, p)
  }

  ghost predicate RangeShifted(op: ShiftOp, size: nat, s: seq<Range>, i: int, k: nat, p: int)
    requires size > 0
  {
    0 <= i < |s| && 0 <= s[i].0 && 0 <= s[i].1 && ShiftPoint(op, size, s[i].0, s[i].1, k, p)
  }

  /** One amount, over all ranges. */
  method ShiftAll(op: ShiftOp, size: nat, s: seq<Range>, shift: nat, ret0: seq<Range>) returns (ret: seq<Range>)
    requires size > 0 && Fits(s, size) && shift <= size && Fits(ret0, size)
    ensures Fits(ret, size)
    ensures forall p :: In(ret, p) <==> In(ret0, p) || exists i :: RangeShifted(op, size, s, i, shift, p)
  {
    hide ShiftPoint, In, Canonical;
    ret := ret0;
    for i := 0 to |s|
      invariant Fits(ret, size)
      invariant forall p :: In(ret, p) <==> In(ret0, p) || exists i' :: i' < i && RangeShifted(op, size, s, i', shift, p)
    {
      RangeFits(s, size, i);
      var more := RangeShiftUniq(op, size, s[i].0, s[i].1, shift);
      ret := Union(ret, more);
      assert forall p :: In(more, p) <==> RangeShifted(op, size, s, i, shift, p);
    }
  }

  lemma RangePoints(s: seq<Range>, i: nat)
    requires i < |s| && Canonical(s)
    ensures s[i].0 <= s[i].1 && forall p :: s[i].0 <= p <= s[i].1 ==> In(s, p)
  {
    forall p | s[i].0 <= p <= s[i].1
      ensures In(s, p)
    {
      assert Covers(s[i], p);
    }
  }

  ghost predicate ShiftedFrom(op: ShiftOp, size: nat, s: seq<Range>, lo: int, hi: int, p: int)
    requires size > 0
  {
    exists i, k: nat :: lo <= k < hi && RangeShifted(op, size, s, i, k, p)
  }

  /** All the amounts of one range. */
  method ShiftRange(op: ShiftOp, size: nat, s: seq<Range>, range: Range, ret0: seq<Range>) returns (ret: seq<Range>)
    requires size > 0 && Fits(s, size) && 0 <= range.0 <= range.1 <= size && Fits(ret0, size)
    ensures Fits(ret, size)
    ensures forall p :: In(ret, p) <==> In(ret0, p) || ShiftedFrom(op, size, s, range.0, range.1 + 1, p)
  {
    hide ShiftPoint, In, Canonical, ShiftedFrom;
    ret := ret0;
    var shift := range.0;
    forall p ensures !ShiftedFrom(op, size, s, range.0, range.0, p) { NoneShifted(op, size, s, range.0, p); }
    while shift <= range.1
      invariant range.0 <= shift <= range.1 + 1 && Fits(ret, size)
      invariant forall p :: In(ret, p) <==> In(ret0, p) || ShiftedFrom(op, size, s, range.0, shift, p)
      decreases range.1 + 1 - shift
    {
      ret := ShiftAll(op, size, s, shift, ret);
      forall p
        ensures ShiftedFrom(op, size, s, range.0, shift + 1, p) <==>
          ShiftedFrom(op, size, s, range.0, shift, p) || exists i :: RangeShifted(op, size, s, i, shift, p)
      {
        OneMoreShift(op, size, s, range.0, shift, p);
      }
      shift := shift + 1;
    }
  }

  lemma NoneShifted(op: ShiftOp, size: nat, s: seq<Range>, lo: int, p: int)
    requires size > 0
    ensures !ShiftedFrom(op, size, s, lo, lo, p)
  {}

  lemma OneMoreShift(op: ShiftOp, size: nat, s: seq<Range>, lo: int, shift: nat, p: int)
    requires size > 0 && lo <= shift
    ensures ShiftedFrom(op, size, s, lo, shift + 1, p) <==>
      ShiftedFrom(op, size, s, lo, shift, p) || exists i :: RangeShifted(op, size, s, i, shift, p)
  {
    hide RangeShifted;
    if ShiftedFrom(op, size, s, lo, shift + 1, p) {
      var i, k: nat :| lo <= k < shift + 1 && RangeShifted(op, size, s, i, k, p);
      assert k < shift ==> ShiftedFrom(op, size, s, lo, shift, p);
    }
  }

  lemma MoreAmounts(op: ShiftOp, size: nat, s: seq<Range>, amounts: seq<Range>, i: nat, p: int)
    requires size > 0 && i < |amounts|
    ensures ShiftedPoint(op, size, s, amounts[..i + 1], p) <==>
      ShiftedPoint(op, size, s, amounts[..i], p) || ShiftedFrom(op, size, s, amounts[i].0, amounts[i].1 + 1, p)
  {
    hide RangeShifted, In;
    var before, after := amounts[..i], amounts[..i + 1];
    forall k: nat
      ensures In(after, k) <==> In(before, k) || amounts[i].0 <= k <= amounts[i].1
    {
      InStep(amounts, i, k);
      CoversBounds(amounts[i], k);
    }
  }

  /** The set holds the points of every range shifted by every amount, and nothing else. */
  method ShiftBySet(op: ShiftOp, size: nat, s: seq<Range>, amounts: seq<Range>) returns (ret: seq<Range>)
    requires size > 0 && Fits(s, size) && Canonical(amounts) && forall k :: In(amounts, k) ==> 0 <= k <= size
    ensures Fits(ret, size) && forall p :: In(ret, p) <==> ShiftedPoint(op, size, s, amounts, p)
  {
    hide In, Canonical, ShiftedPoint, ShiftedFrom;
    ret := [];
    NothingFits(size);
    NoAmounts(op, size, s, amounts);
    for i := 0 to |amounts|
      invariant Fits(ret, size) && forall p :: In(ret, p) <==> ShiftedPoint(op, size, s, amounts[..i], p)
    {
      RangePoints(amounts, i);
      assert In(amounts, amounts[i].0) && In(amounts, amounts[i].1);
      ret := ShiftRange(op, size, s, amounts[i], ret);
      ghost var after := amounts[..i + 1];
      forall p
        ensures ShiftedPoint(op, size, s, after, p) <==>
          ShiftedPoint(op, size, s, amounts[..i], p) || ShiftedFrom(op, size, s, amounts[i].0, amounts[i].1 + 1, p)
      {
        MoreAmounts(op, size, s, amounts, i, p);
      }
    }
    NoPrefix(amounts);
  }

  lemma NoAmounts(op: ShiftOp, size: nat, s: seq<Range>, amounts: seq<Range>)
    requires size > 0
    ensures forall p :: !ShiftedPoint(op, size, s, amounts[..0], p) && !In([], p)
  {
    hide RangeShifted;
    NoPrefix(amounts);
    forall p ensures !In([], p) { InNothing(p); }
  }

  /** A shift past the size is a shift by the size. */
  function Clamp(k: nat, size: nat): (r: nat) {
    if k > size then size else k
  }

  /** The shift amounts: those of the set, each past the size taken as the size. */
  method Amounts(shifter: seq<Range>, size: nat) returns (amounts: seq<Range>)
    requires Canonical(shifter) && shifter != [] && forall k :: In(shifter, k) ==> k >= 0
    ensures Canonical(amounts) && forall k :: In(amounts, k) ==> 0 <= k <= size
    ensures forall k :: In(amounts, k) <==> exists j: nat :: In(shifter, j) && k == Clamp(j, size)
  {
    hide In, Canonical;
    amounts := shifter;
    HullBounds(shifter);
    if HullOf(shifter).end >= size {
      var last := Make([(size, size)]);
      amounts := Union(amounts, last);
      forall p ensures In(last, p) <==> p == size { InOne((size, size), p); CoversBounds((size, size), p); }
    }
    var allowed := Make([(0, size)]);
    forall p ensures In(allowed, p) <==> 0 <= p <= size { InOne((0, size), p); CoversBounds((0, size), p); }
    amounts := Intersection(amounts, allowed);
    forall k
      ensures In(amounts, k) <==> exists j: nat :: In(shifter, j) && k == Clamp(j, size)
    {
      if In(amounts, k) {
        var j := if In(shifter, k) then k else HullOf(shifter).end;
        assert In(shifter, j) && k == Clamp(j, size);
      }
      if j: nat :| In(shifter, j) && k == Clamp(j, size) { assert j <= HullOf(shifter).end; }
    }
  }

  // ----- rotations -----

  function RotateUniq(op: RotateOp, size: nat, x: nat, shift: nat): (r: nat)
    requires size > 0
  {
    if shift > size then 0 else
    match op
    case RotateLeft => Or(Wrap(Shl(x, shift), size), Shr(x, size - shift))
    case RotateRight => Or(Shr(x, shift), Wrap(Shl(x, size - shift), size))
  }

  lemma RotateIsUniq(op: RotateOp, size: nat, x: nat, s: nat)
    requires size > 0
    ensures Rotate(op, size, x, s) == RotateUniq(op, size, x, s % size) && 0 <= s % size < size
  {}

  function Leftward(op: RotateOp): (r: ShiftOp) {
    if op.RotateRight? then ShiftRight else ShiftLeft
  }

  function Rightward(op: RotateOp): (r: ShiftOp) {
    if op.RotateRight? then ShiftLeft else ShiftRight
  }

  /** l is the set of a range shifted by one amount. */
  ghost predicate IsShifted(op: ShiftOp, size: nat, a: nat, b: nat, shift: nat, l: seq<Range>)
    requires size > 0
  {
    Fits(l, size) && forall p :: In(l, p) <==> ShiftPoint(op, size, a, b, shift, p)
  }

  /** p is a point of the or of the range shifted one way and of the rest shifted the other way. */
  ghost predicate RotatePoint(op: RotateOp, size: nat, a: nat, b: nat, shift: nat, p: int)
    requires size > 0
  {
    shift <= size && exists l, m ::
      IsShifted(Leftward(op), size, a, b, shift, l) && IsShifted(Rightward(op), size, a, b, size - shift, m) && SetPoint(OrOp, size, l, m, p)
  }

  lemma ShiftedOnce(op: ShiftOp, size: nat, a: nat, b: nat, shift: nat, l: seq<Range>, l': seq<Range>)
    requires size > 0 && IsShifted(op, size, a, b, shift, l) && IsShifted(op, size, a, b, shift, l')
    ensures l == l'
  {
    hide ShiftPoint, In, Canonical;
    CanonicalUnique(l, l');
  }

  /** A rotation is the or of two shifts, each bounded on its own. */
  method RangeRotateUniq(op: RotateOp, size: nat, a: nat, b: nat, shift: nat) returns (r: seq<Range>)
    requires size > 0 && a <= b <= Mask(size) && shift <= size
    ensures Fits(r, size) && forall p :: In(r, p) <==> RotatePoint(op, size, a, b, shift, p)
    ensures forall x: nat :: a <= x <= b ==> In(r, RotateUniq(op, size, x, shift))
  {
    hide Or, In, Canonical, Wrap, Shl, Shr, ShiftPoint, SetPoint, RotateUniq;
    var left := if op.RotateRight? then ShiftRight else ShiftLeft;
    var right := if op.RotateRight? then ShiftLeft else ShiftRight;
    var l := RangeShiftUniq(left, size, a, b, shift);
    var m := RangeShiftUniq(right, size, a, b, size - shift);
    r := SetBinary(OrOp, size, l, m);
    forall p
      ensures In(r, p) <==> RotatePoint(op, size, a, b, shift, p)
    {
      if RotatePoint(op, size, a, b, shift, p) {
        var l', m' :| IsShifted(Leftward(op), size, a, b, shift, l') &&
          IsShifted(Rightward(op), size, a, b, size - shift, m') && SetPoint(OrOp, size, l', m', p);
        ShiftedOnce(left, size, a, b, shift, l, l');
        ShiftedOnce(right, size, a, b, size - shift, m, m');
      }
    }
    forall x: nat | a <= x <= b
      ensures In(r, RotateUniq(op, size, x, shift))
    {
      RotateHeld(op, size, a, b, shift, x, l, m);
    }
  }

  lemma RotateHeld(op: RotateOp, size: nat, a: nat, b: nat, shift: nat, x: nat, l: seq<Range>, m: seq<Range>)
    requires size > 0 && a <= x <= b <= Mask(size) && shift <= size
    requires IsShifted(Leftward(op), size, a, b, shift, l) && IsShifted(Rightward(op), size, a, b, size - shift, m)
    ensures SetPoint(OrOp, size, l, m, RotateUniq(op, size, x, shift))
  {
    hide Or, In, Canonical, Wrap, Shl, Shr, ShiftPoint, SetPoint;
    var u, v := Shift(Leftward(op), size, x, shift), Shift(Rightward(op), size, x, size - shift);
    ShiftSound(Leftward(op), size, a, b, shift, x);
    ShiftSound(Rightward(op), size, a, b, size - shift, x);
    assert In(l, u) && In(m, v);
    SetSound(OrOp, size, l, m, u, v);
  }

  ghost predicate RotatedPoint(op: RotateOp, size: nat, s: seq<Range>, amounts: seq<Range>, p: int)
    requires size > 0
  {
    exists i, k: nat :: In(amounts, k) && RangeRotated(op, size, s, i, k, p)
  }

  ghost predicate RangeRotated(op: RotateOp, size: nat, s: seq<Range>, i: int, k: nat, p: int)
    requires size > 0
  {
    0 <= i < |s| && 0 <= s[i].0 && 0 <= s[i].1 && RotatePoint(op, size, s[i].0, s[i].1, k, p)
  }

  method RotateAll(op: RotateOp, size: nat, s: seq<Range>, shift: nat, ret0: seq<Range>) returns (ret: seq<Range>)
    requires size > 0 && Fits(s, size) && shift <= size && Fits(ret0, size)
    ensures Fits(ret, size)
    ensures forall p :: In(ret, p) <==> In(ret0, p) || exists i :: RangeRotated(op, size, s, i, shift, p)
    ensures forall x: nat :: In(s, x) ==> In(ret, RotateUniq(op, size, x, shift))
  {
    hide RotatePoint, RotateUniq, In, Canonical;
    ret := ret0;
    NoPrefix(s);
    for i := 0 to |s|
      invariant Fits(ret, size)
      invariant forall p :: In(ret, p) <==> In(ret0, p) || exists i' :: i' < i && RangeRotated(op, size, s, i', shift, p)
      invariant forall x: nat :: In(s[..i], x) ==> In(ret, RotateUniq(op, size, x, shift))
    {
      RangeFits(s, size, i);
      var more := RangeRotateUniq(op, size, s[i].0, s[i].1, shift);
      ret := Union(ret, more);
      assert forall p :: In(more, p) <==> RangeRotated(op, size, s, i, shift, p);
      forall x: nat | In(s[..i + 1], x)
        ensures In(ret, RotateUniq(op, size, x, shift))
      {
        InStep(s, i, x);
        CoversBounds(s[i], x);
      }
    }
  }

  ghost predicate RotatedFrom(op: RotateOp, size: nat, s: seq<Range>, lo: int, hi: int, p: int)
    requires size > 0
  {
    exists i, k: nat :: lo <= k < hi && RangeRotated(op, size, s, i, k, p)
  }

  method RotateRange(op: RotateOp, size: nat, s: seq<Range>, range: Range, ret0: seq<Range>) returns (ret: seq<Range>)
    requires size > 0 && Fits(s, size) && 0 <= range.0 <= range.1 < size && Fits(ret0, size)
    ensures Fits(ret, size)
    ensures forall p :: In(ret, p) <==> In(ret0, p) || RotatedFrom(op, size, s, range.0, range.1 + 1, p)
    ensures forall x: nat, k: nat :: In(s, x) && range.0 <= k <= range.1 ==> In(ret, RotateUniq(op, size, x, k))
  {
    hide RotatePoint, RotateUniq, In, Canonical, RotatedFrom;
    ret := ret0;
    var shift := range.0;
    forall p ensures !RotatedFrom(op, size, s, range.0, range.0, p) { NoneRotated(op, size, s, range.0, p); }
    while shift <= range.1
      invariant range.0 <= shift <= range.1 + 1 && Fits(ret, size)
      invariant forall p :: In(ret, p) <==> In(ret0, p) || RotatedFrom(op, size, s, range.0, shift, p)
      invariant forall x: nat, k: nat :: In(s, x) && range.0 <= k < shift ==> In(ret, RotateUniq(op, size, x, k))
      decreases range.1 + 1 - shift
    {
      ret := RotateAll(op, size, s, shift, ret);
      forall p
        ensures RotatedFrom(op, size, s, range.0, shift + 1, p) <==>
          RotatedFrom(op, size, s, range.0, shift, p) || exists i :: RangeRotated(op, size, s, i, shift, p)
      {
        OneMoreRotation(op, size, s, range.0, shift, p);
      }
      shift := shift + 1;
    }
  }

  lemma NoneRotated(op: RotateOp, size: nat, s: seq<Range>, lo: int, p: int)
    requires size > 0
    ensures !RotatedFrom(op, size, s, lo, lo, p)
  {}

  lemma OneMoreRotation(op: RotateOp, size: nat, s: seq<Range>, lo: int, shift: nat, p: int)
    requires size > 0 && lo <= shift
    ensures RotatedFrom(op, size, s, lo, shift + 1, p) <==>
      RotatedFrom(op, size, s, lo, shift, p) || exists i :: RangeRotated(op, size, s, i, shift, p)
  {
    hide RangeRotated;
    if RotatedFrom(op, size, s, lo, shift + 1, p) {
      var i, k: nat :| lo <= k < shift + 1 && RangeRotated(op, size, s, i, k, p);
      assert k < shift ==> RotatedFrom(op, size, s, lo, shift, p);
    }
  }

  lemma MoreRotations(op: RotateOp, size: nat, s: seq<Range>, amounts: seq<Range>, i: nat, p: int)
    requires size > 0 && i < |amounts|
    ensures RotatedPoint(op, size, s, amounts[..i + 1], p) <==>
      RotatedPoint(op, size, s, amounts[..i], p) || RotatedFrom(op, size, s, amounts[i].0, amounts[i].1 + 1, p)
  {
    hide RangeRotated, In;
    var before, after := amounts[..i], amounts[..i + 1];
    forall k: nat
      ensures In(after, k) <==> In(before, k) || amounts[i].0 <= k <= amounts[i].1
    {
      InStep(amounts, i, k);
      CoversBounds(amounts[i], k);
    }
  }

  /** The set holds the points of every range rotated by every amount, and nothing else; every rotation is one. */
  method RotateBySet(op: RotateOp, size: nat, s: seq<Range>, amounts: seq<Range>) returns (ret: seq<Range>)
    requires size > 0 && Fits(s, size) && Fits(amounts, size) && forall k :: In(amounts, k) ==> k < size
    ensures Fits(ret, size) && forall p :: In(ret, p) <==> RotatedPoint(op, size, s, amounts, p)
    ensures forall x: nat, k: nat :: In(s, x) && In(amounts, k) ==> In(ret, RotateUniq(op, size, x, k))
  {
    hide In, Canonical, RotatedPoint, RotatedFrom, RotateUniq;
    ret := [];
    NothingFits(size);
    NoRotations(op, size, s, amounts);
    for i := 0 to |amounts|
      invariant Fits(ret, size) && forall p :: In(ret, p) <==> RotatedPoint(op, size, s, amounts[..i], p)
      invariant forall x: nat, k: nat :: In(s, x) && In(amounts[..i], k) ==> In(ret, RotateUniq(op, size, x, k))
    {
      RangePoints(amounts, i);
      assert In(amounts, amounts[i].0) && In(amounts, amounts[i].1);
      ret := RotateRange(op, size, s, amounts[i], ret);
      ghost var after := amounts[..i + 1];
      forall p
        ensures RotatedPoint(op, size, s, after, p) <==>
          RotatedPoint(op, size, s, amounts[..i], p) || RotatedFrom(op, size, s, amounts[i].0, amounts[i].1 + 1, p)
      {
        MoreRotations(op, size, s, amounts, i, p);
      }
      forall x: nat, k: nat | In(s, x) && In(after, k)
        ensures In(ret, RotateUniq(op, size, x, k))
      {
        InStep(amounts, i, k);
        CoversBounds(amounts[i], k);
      }
    }
    NoPrefix(amounts);
  }

  lemma NoRotations(op: RotateOp, size: nat, s: seq<Range>, amounts: seq<Range>)
    requires size > 0
    ensures forall p :: !RotatedPoint(op, size, s, amounts[..0], p) && !In([], p) && !In(amounts[..0], p)
  {
    hide RangeRotated;
    NoPrefix(amounts);
    forall p ensures !In([], p) { InNothing(p); }
  }

  // ----- the class -----

  class ModularSet {
    var intervals: seq<Range>
    var size: nat

    ghost predicate Valid()
      reads this
    {
      size > 0 && Fits(intervals, size)
    }

    ghost predicate Has(p: int)
      reads this
    {
      In(intervals, p)
    }

    constructor (size: nat, intervals: seq<Range>)
      requires size > 0 && Fits(intervals, size)
      ensures Valid() && this.size == size && this.intervals == intervals
    {
      this.size, this.intervals := size, intervals;
    }

    /** +, |, &, ^ and *; both sizes must agree. */
    method Binary(op: BinOp, target: ModularSet) returns (r: ModularSet)
      requires Valid() && target.Valid() && target.size == size
      ensures fresh(r) && r.Valid() && r.size == size
      ensures forall p :: r.Has(p) <==> SetPoint(op, size, intervals, target.intervals, p)
    {
      hide SetPoint;
      var ret := SetBinary(op, size, intervals, target.intervals);
      r := new ModularSet(size, ret);
    }

    method Neg() returns (r: ModularSet)
      requires Valid()
      ensures fresh(r) && r.Valid() && r.size == size
      ensures forall p :: r.Has(p) <==> HasOpposite(size, intervals, p)
    {
      var ret := SetNeg(size, intervals);
      r := new ModularSet(size, ret);
    }

    /** Remainders by a constant; nothing is left when it is zero. */
    method Mod(modulo: nat) returns (r: ModularSet)
      requires Valid()
      ensures fresh(r) && r.Valid() && r.size == size
      ensures forall p :: r.Has(p) <==> HasRemainder(intervals, modulo, p)
    {
      var ret := SetMod(size, intervals, modulo);
      r := new ModularSet(size, ret);
    }

    /** <<, >> and a>>, for every shift amount. */
    method ShiftBy(op: ShiftOp, shifter: ModularSet) returns (r: ModularSet)
      requires Valid() && shifter.Valid() && shifter.size == size && shifter.intervals != []
      ensures fresh(r) && r.Valid() && r.size == size
      ensures forall p :: r.Has(p) <==> ClampedPoint(op, size, intervals, shifter.intervals, p)
    {
      hide In, Canonical, ShiftedPoint, ClampedPoint;
      var amounts := Amounts(shifter.intervals, size);
      var ret := ShiftBySet(op, size, intervals, amounts);
      forall p
        ensures ShiftedPoint(op, size, intervals, amounts, p) <==> ClampedPoint(op, size, intervals, shifter.intervals, p)
      {
        ClampedAmounts(op, size, intervals, shifter.intervals, amounts, p);
      }
      r := new ModularSet(size, ret);
    }

    /** >>> and <<<, for every rotation amount taken modulo the size. */
    method RotateBy(op: RotateOp, shifter: ModularSet) returns (r: ModularSet)
      requires Valid() && shifter.Valid() && shifter.size == size
      ensures fresh(r) && r.Valid() && r.size == size
      ensures forall p :: r.Has(p) <==> TurnedPoint(op, size, intervals, shifter.intervals, p)
      ensures forall x: nat, k: nat :: Has(x) && shifter.Has(k) ==> r.Has(Rotate(op, size, x, k))
    {
      hide Rotate, RotateUniq, In, Canonical, RotatedPoint, TurnedPoint;
      var amounts := shifter.Mod(size);
      assert forall k :: In(amounts.intervals, k) <==> amounts.Has(k);
      assert forall k :: shifter.Has(k) <==> In(shifter.intervals, k);
      var ret := RotateBySet(op, size, intervals, amounts.intervals);
      forall p
        ensures RotatedPoint(op, size, intervals, amounts.intervals, p) <==> TurnedPoint(op, size, intervals, shifter.intervals, p)
      {
        TurnedAmounts(op, size, intervals, shifter.intervals, amounts.intervals, p);
      }
      forall x: nat, k: nat | Has(x) && shifter.Has(k)
        ensures In(ret, Rotate(op, size, x, k))
      {
        RotateIsUniq(op, size, x, k);
        assert In(amounts.intervals, k % size);
      }
      r := new ModularSet(size, ret);
    }

    /** Changes the size in place; shrinking needs every value to fit. */
    method SizeUpdate(newSize: nat)
      requires Valid() && newSize > 0
      requires newSize < size ==> intervals != [] && HullOf(intervals).end <= Mask(newSize)
      modifies this`size
      ensures Valid() && size == newSize
    {
      HullBounds(intervals);
      if newSize >= size { PowMono(size, newSize); }
      size := newSize;
    }

    method UnionWith(other: ModularSet) returns (r: ModularSet)
      requires Valid() && other.Valid() && other.size == size
      ensures fresh(r) && r.Valid() && r.size == size
      ensures forall p :: In(r.intervals, p) <==> In(intervals, p) || In(other.intervals, p)
    {
      var all := Union(intervals, other.intervals);
      r := new ModularSet(size, all);
    }
  }

  /** p is a point of some range of s shifted by some member of t, or by the size when it is larger. */
  ghost predicate ClampedPoint(op: ShiftOp, size: nat, s: seq<Range>, t: seq<Range>, p: int)
    requires size > 0
  {
    exists i, k: nat :: In(t, k) && RangeShifted(op, size, s, i, Clamp(k, size), p)
  }

  lemma ClampedAmounts(op: ShiftOp, size: nat, s: seq<Range>, t: seq<Range>, amounts: seq<Range>, p: int)
    requires size > 0 && forall k :: In(amounts, k) <==> exists j: nat :: In(t, j) && k == Clamp(j, size)
    ensures ShiftedPoint(op, size, s, amounts, p) <==> ClampedPoint(op, size, s, t, p)
  {
    hide RangeShifted, In;
    if i, k: nat :| In(amounts, k) && RangeShifted(op, size, s, i, k, p) {
      var j: nat :| In(t, j) && k == Clamp(j, size);
      assert RangeShifted(op, size, s, i, Clamp(j, size), p);
    }
    if i, j: nat :| In(t, j) && RangeShifted(op, size, s, i, Clamp(j, size), p) { assert In(amounts, Clamp(j, size)); }
  }

  /** Every member shifted by every amount is a point. */
  lemma ClampedSound(op: ShiftOp, size: nat, s: seq<Range>, t: seq<Range>, x: nat, k: nat)
    requires size > 0 && Fits(s, size) && In(s, x) && In(t, k)
    ensures ClampedPoint(op, size, s, t, Shift(op, size, x, k))
  {
    hide ShiftPoint, Shift;
    var i :| 0 <= i < |s| && Covers(s[i], x);
    RangeFits(s, size, i);
    ClampShift(op, size, x, k);
    ShiftSound(op, size, s[i].0, s[i].1, Clamp(k, size), x);
    assert RangeShifted(op, size, s, i, Clamp(k, size), Shift(op, size, x, k));
  }

  /** Nothing shifted right by less than the size exceeds a member shifted right. */
  lemma ClampedRight(size: nat, s: seq<Range>, t: seq<Range>, p: int) returns (y: nat, k: nat)
    requires size > 0 && Fits(s, size) && ClampedPoint(ShiftRight, size, s, t, p) && forall j :: In(t, j) ==> j <= size
    ensures In(s, y) && In(t, k) && p <= Shr(y, k)
  {
    hide In, Canonical, Shr;
    var i, j: nat :| In(t, j) && RangeShifted(ShiftRight, size, s, i, Clamp(j, size), p);
    RangeFits(s, size, i);
    CoversBounds(s[i], s[i].1);
    y, k := s[i].1, j;
  }

  /** p is a point of some range of s rotated by some member of t, modulo the size. */
  ghost predicate TurnedPoint(op: RotateOp, size: nat, s: seq<Range>, t: seq<Range>, p: int)
    requires size > 0
  {
    exists i, k: nat :: In(t, k) && RangeRotated(op, size, s, i, k % size, p)
  }

  lemma TurnedAmounts(op: RotateOp, size: nat, s: seq<Range>, t: seq<Range>, amounts: seq<Range>, p: int)
    requires size > 0 && forall k :: In(amounts, k) <==> HasRemainder(t, size, k)
    ensures RotatedPoint(op, size, s, amounts, p) <==> TurnedPoint(op, size, s, t, p)
  {
    hide RangeRotated, In;
    if i, k: nat :| In(amounts, k) && RangeRotated(op, size, s, i, k, p) {
      assert HasRemainder(t, size, k);
      var j: nat :| In(t, j) && k == j % size;
      assert RangeRotated(op, size, s, i, j % size, p);
    }
    if i, j: nat :| In(t, j) && RangeRotated(op, size, s, i, j % size, p) { assert HasRemainder(t, size, j % size); }
  }

  /** Past the size, every shift amount does the same. */
  lemma ClampShift(op: ShiftOp, size: nat, x: nat, k: nat)
    requires size > 0 && x <= Mask(size)
    ensures Shift(op, size, x, k) == Shift(op, size, x, Clamp(k, size))
  {
    if k > size {
      LongShr(x, size, k);
      LongShr(Mask(size) - x, size, k);
      LongShl(x, size, k);
      LongShl(x, size, size);
      BelowPower(x, size);
      BelowPower(Mask(size) - x, size);
    }
  }

  lemma {:induction false} LongShr(x: nat, size: nat, k: nat)
    requires x < Pow2(size) && k >= size
    ensures Shr(x, k) == 0
  {
    if k > 0 { LongShr(x / 2, if size > 0 then size - 1 else 0, k - 1); }
  }

  lemma {:induction false} LongShl(x: nat, size: nat, k: nat)
    requires k >= size
    ensures Low(Shl(x, k), size) == 0
  {
    if size > 0 {
      assert Shl(x, k) / 2 == Shl(x, k - 1);
      LongShl(x, size - 1, k - 1);
    }
  }
}
