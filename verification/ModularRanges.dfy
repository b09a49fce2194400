/**
 What one operation does to ranges of fixed-size values
 (miasm/analysis/modularintervals.py, the _range_* functions): which points the set returned holds,
 and that the result for every choice of operands is one of them.
 */
module ModularRanges {
  import opened Bits
  import opened HackersDelight
  import opened Intervals

  function Mask(size: nat): (r: nat) {
    Pow2(size) - 1
  }

  /** v & mask, for any integer: two's complement on size bits. */
  function Wrap(v: int, size: nat): (r: nat)
    ensures r <= Mask(size)
  {
    if v >= 0 then Split(v, size); Low(v, size)
    else Split(-v - 1, size); Mask(size) - Low(-v - 1, size)
  }

  /** Every point is a value of that size. */
  ghost predicate Fits(s: seq<Range>, size: nat) {
    Canonical(s) && forall p :: In(s, p) ==> 0 <= p <= Mask(size)
  }

  // ----- the operations -----

  datatype BinOp = Add | OrOp | AndOp | XorOp | Mul

  function Apply(op: BinOp, size: nat, x: nat, y: nat): (r: nat) {
    match op
    case Add => Wrap(x + y, size)
    case OrOp => Or(x, y)
    case AndOp => And(x, y)
    case XorOp => Xor(x, y)
    case Mul => Wrap(x * y, size)
  }

  datatype ShiftOp = ShiftLeft | ShiftRight | ArithmeticRight

  /** An arithmetic shift fills with the sign bit. */
  function Ashr(x: nat, shift: nat, size: nat): (r: int)
    requires size > 0
  {
    if x < Pow2(size - 1) || x > Mask(size) then Shr(x, shift) else Mask(size) - Shr(Mask(size) - x, shift)
  }

  function Shift(op: ShiftOp, size: nat, x: nat, shift: nat): (r: int)
    requires size > 0
  {
    match op
    case ShiftLeft => Wrap(Shl(x, shift), size)
    case ShiftRight => Shr(x, shift)
    case ArithmeticRight => Ashr(x, shift, size)
  }

  datatype RotateOp = RotateLeft | RotateRight

  function Rotate(op: RotateOp, size: nat, x: nat, shift: nat): (r: nat)
    requires size > 0
  {
    var s := shift % size;
    match op
    case RotateLeft => Or(Wrap(Shl(x, s), size), Shr(x, size - s))
    case RotateRight => Or(Shr(x, s), Wrap(Shl(x, size - s), size))
  }

  // ----- wrapping -----

  lemma WrapSmall(v: nat, size: nat)
    requires v <= Mask(size)
    ensures Wrap(v, size) == v
  {
    BelowPower(v, size);
  }

  lemma {:induction false} LowCarry(v: nat, size: nat)
    ensures Low(v + Pow2(size), size) == Low(v, size)
  {
    if size > 0 {
      assert (v + Pow2(size)) / 2 == v / 2 + Pow2(size - 1);
      LowCarry(v / 2, size - 1);
    }
  }

  /** One overflow, or one borrow. */
  lemma WrapOnce(v: int, size: nat)
    requires 0 - Pow2(size) <= v < 2 * Pow2(size)
    ensures Wrap(v, size) == if v < 0 then v + Pow2(size) else if v > Mask(size) then v - Pow2(size) else v
  {
    if v < 0 {
      BelowPower(-v - 1, size);
    } else if v > Mask(size) {
      LowCarry(v - Pow2(size), size);
      BelowPower(v - Pow2(size), size);
    } else {
      BelowPower(v, size);
    }
  }

  // ----- in terms of powers of two -----

  lemma {:induction false} ShlTimes(x: nat, k: nat)
    ensures Shl(x, k) == x * Pow2(k)
  {
    if k > 0 { ShlTimes(x, k - 1); }
  }

  lemma ShrOver(x: nat, k: nat)
    ensures Shr(x, k) == x / Pow2(k) && Low(x, k) == x % Pow2(k)
  {
    hide Shr, Low, Pow2;
    Split(x, k);
    ShlTimes(Shr(x, k), k);
    ModAt(x, Pow2(k), Shr(x, k));
  }

  /** The division of a negative number, rounded down. */
  lemma NegativeDivision(a: nat, p: int)
    requires p > 0
    ensures (0 - a - 1) / p == 0 - a / p - 1 && (0 - a - 1) % p == p - 1 - a % p
  {
    var q := a / p;
    assert a == p * q + a % p && 0 <= a % p < p;
    assert p * (0 - q - 1) == 0 - p * q - p;
    ModAt(0 - a - 1, p, 0 - q - 1);
  }

  lemma WrapModulo(v: int, size: nat)
    ensures Wrap(v, size) == v % Pow2(size)
  {
    hide Low, Pow2;
    if v >= 0 {
      ShrOver(v, size);
    } else {
      ShrOver(-v - 1, size);
      NegativeDivision(-v - 1, Pow2(size));
    }
  }

  /** A value of that size read as two's complement. */
  function Signed(x: nat, size: nat): (r: int)
    requires size > 0
  {
    if x < Pow2(size - 1) then x else x - Pow2(size)
  }

  /** An arithmetic shift divides the signed value, rounding down. */
  lemma AshrFloor(x: nat, shift: nat, size: nat)
    requires size > 0 && x <= Mask(size)
    ensures Ashr(x, shift, size) == (Signed(x, size) / Pow2(shift)) % Pow2(size)
  {
    hide Shr, Wrap;
    ShrBelow(x, shift);
    ShrOver(x, shift);
    var v := Signed(x, size) / Pow2(shift);
    if x >= Pow2(size - 1) {
      var a := Mask(size) - x;
      ShrBelow(a, shift);
      ShrOver(a, shift);
      NegativeDivision(a, Pow2(shift));
    }
    WrapOnce(v, size);
    WrapModulo(v, size);
  }

  // ----- what rotations do to bits -----

  /** v is x with every bit moved up by k places, those falling off coming back at the bottom. */
  ghost predicate RotatedUp(size: nat, x: nat, k: nat, v: int)
    requires size > 0
  {
    0 <= v <= Mask(size) && forall i :: 0 <= i < size ==> Bit(v, (i + k) % size) == Bit(x, i)
  }

  /** The bit the i-th one goes to when moved up by k. */
  lemma Place(i: nat, k: nat, size: nat)
    requires i < size
    ensures var s := k % size; 0 <= s < size && (i + k) % size == if i + s < size then i + s else i + s - size
  {
    var q := k / size;
    assert k == size * q + k % size;
    assert size * (q + 1) == size * q + size;
    ModAt(i + k, size, if i + k % size < size then q else q + 1);
  }

  lemma RotateFits(op: RotateOp, size: nat, x: nat, k: nat)
    requires size > 0 && x <= Mask(size)
    ensures Rotate(op, size, x, k) <= Mask(size)
  {
    hide Or, Shr, Wrap, Shl;
    var s := k % size;
    ShrBelow(x, s);
    ShrBelow(x, size - s);
    OrBelow(Wrap(Shl(x, s), size), Shr(x, size - s), size);
    OrBelow(Shr(x, s), Wrap(Shl(x, size - s), size), size);
  }

  lemma RotateLeftBit(size: nat, x: nat, k: nat, j: nat)
    requires size > 0 && x <= Mask(size) && j < size
    ensures var s := k % size;
      Bit(Rotate(RotateLeft, size, x, k), j) <==> if j >= s then Bit(x, j - s) else Bit(x, j + size - s)
  {
    hide Bit, Or, Shl, Shr, Low;
    var s := k % size;
    BitOr(Wrap(Shl(x, s), size), Shr(x, size - s), j);
    BitLow(Shl(x, s), size, j);
    BitShl(x, s, j);
    BitShr(x, size - s, j);
    if j >= s { BitSmall(x, size, size - s + j); }
  }

  lemma RotateRightBit(size: nat, x: nat, k: nat, j: nat)
    requires size > 0 && x <= Mask(size) && j < size
    ensures var s := k % size;
      Bit(Rotate(RotateRight, size, x, k), j) <==> if j + s < size then Bit(x, j + s) else Bit(x, j + s - size)
  {
    hide Bit, Or, Shl, Shr, Low;
    var s := k % size;
    BitOr(Shr(x, s), Wrap(Shl(x, size - s), size), j);
    BitLow(Shl(x, size - s), size, j);
    BitShl(x, size - s, j);
    BitShr(x, s, j);
    if j + s >= size { BitSmall(x, size, s + j); }
  }

  /** Rotating left moves bits up; rotating right by the same amount moves them back. */
  lemma RotateBits(size: nat, x: nat, k: nat)
    requires size > 0 && x <= Mask(size)
    ensures RotatedUp(size, x, k, Rotate(RotateLeft, size, x, k))
    ensures RotatedUp(size, Rotate(RotateRight, size, x, k), k, x) && Rotate(RotateRight, size, x, k) <= Mask(size)
  {
    hide Bit, Rotate;
    RotateFits(RotateLeft, size, x, k);
    RotateFits(RotateRight, size, x, k);
    forall i | 0 <= i < size
      ensures Bit(Rotate(RotateLeft, size, x, k), (i + k) % size) == Bit(x, i)
      ensures Bit(x, (i + k) % size) == Bit(Rotate(RotateRight, size, x, k), i)
    {
      Place(i, k, size);
      RotateLeftBit(size, x, k, (i + k) % size);
      RotateRightBit(size, x, k, i);
    }
  }

  /** There is one way to move bits up, and one value it comes from. */
  lemma RotatedOnce(size: nat, x: nat, k: nat, v: int, x': nat, v': int)
    requires size > 0 && x <= Mask(size) && x' <= Mask(size) && RotatedUp(size, x, k, v) && RotatedUp(size, x', k, v')
    ensures x == x' <==> v == v'
  {
    hide Bit;
    if x == x' {
      forall j | 0 <= j < size
        ensures Bit(v, j) == Bit(v', j)
      {
        var s := k % size;
        var i := if j >= s then j - s else j + size - s;
        Place(i, k, size);
        assert (i + k) % size == j;
        assert Bit(v, (i + k) % size) == Bit(x, i) && Bit(v', (i + k) % size) == Bit(x', i);
      }
      BitsEqual(v, v', size);
    } else if v == v' {
      forall i | 0 <= i < size
        ensures Bit(x, i) == Bit(x', i)
      {
        assert Bit(v, (i + k) % size) == Bit(x, i) && Bit(v', (i + k) % size) == Bit(x', i);
      }
      BitsEqual(x, x', size);
    }
  }

  /** Rotating right undoes rotating left. */
  lemma RotateBack(size: nat, x: nat, k: nat)
    requires size > 0 && x <= Mask(size)
    ensures Rotate(RotateLeft, size, x, k) <= Mask(size)
    ensures Rotate(RotateRight, size, Rotate(RotateLeft, size, x, k), k) == x
    ensures Rotate(RotateRight, size, x, k) <= Mask(size)
    ensures Rotate(RotateLeft, size, Rotate(RotateRight, size, x, k), k) == x
  {
    hide Rotate, RotatedUp;
    RotateFits(RotateLeft, size, x, k);
    RotateFits(RotateRight, size, x, k);
    var l, r := Rotate(RotateLeft, size, x, k), Rotate(RotateRight, size, x, k);
    RotateBits(size, x, k);
    RotateBits(size, l, k);
    RotateBits(size, r, k);
    RotatedOnce(size, x, k, l, Rotate(RotateRight, size, l, k), l);
    RotatedOnce(size, r, k, x, r, Rotate(RotateLeft, size, r, k));
  }

  // ----- building small sets -----

  method One(size: nat, lo: int, hi: int) returns (r: seq<Range>)
    requires 0 <= lo && hi <= Mask(size)
    ensures Fits(r, size) && forall p :: In(r, p) <==> lo <= p <= hi
  {
    r := Make([(lo, hi)]);
    forall p
      ensures In(r, p) <==> lo <= p <= hi
    {
      InOne((lo, hi), p);
    }
  }

  method Two(size: nat, lo: int, hi: int, lo': int, hi': int) returns (r: seq<Range>)
    requires 0 <= lo && hi <= Mask(size) && 0 <= lo' && hi' <= Mask(size)
    ensures Fits(r, size) && forall p :: In(r, p) <==> lo <= p <= hi || lo' <= p <= hi'
  {
    r := Make([(lo, hi), (lo', hi')]);
    forall p
      ensures In(r, p) <==> lo <= p <= hi || lo' <= p <= hi'
    {
      InOne((lo, hi), p);
      InOne((lo', hi'), p);
      InJoin([(lo, hi)], [(lo', hi')], p);
      assert [(lo, hi)] + [(lo', hi')] == [(lo, hi), (lo', hi')];
    }
  }

  // ----- addition and negation: exact -----

  /** p is the sum, on that size, of a point of each range. */
  ghost predicate IsSum(size: nat, a: nat, b: nat, c: nat, d: nat, p: int) {
    exists x: nat, y: nat :: InBox(a, b, c, d, x, y) && p == Wrap(x + y, size)
  }

  lemma SumFrom(size: nat, a: nat, b: nat, c: nat, d: nat, v: nat)
    requires a <= b && c <= d && a + c <= v <= b + d
    ensures IsSum(size, a, b, c, d, Wrap(v, size))
  {
    var x := if v - c <= b then v - c else b;
    assert InBox(a, b, c, d, x, v - x) && x + (v - x) == v;
  }

  /** The sums of two ranges, exactly: two pieces when some of them overflow and some do not. */
  method RangeAdd(size: nat, a: nat, b: nat, c: nat, d: nat) returns (r: seq<Range>)
    requires a <= b <= Mask(size) && c <= d <= Mask(size)
    ensures Fits(r, size) && forall p :: In(r, p) <==> IsSum(size, a, b, c, d, p)
  {
    hide Wrap, In, Canonical;
    var m := Mask(size);
    WrapOnce(a + c, size);
    WrapOnce(b + d, size);
    if a + c <= m && b + d >= m + 1 {
      r := Two(size, a + c, m, 0, Wrap(b + d, size));
    } else {
      r := One(size, Wrap(a + c, size), Wrap(b + d, size));
    }
    forall p
      ensures In(r, p) <==> IsSum(size, a, b, c, d, p)
    {
      if In(r, p) {
        var v := if a + c <= p <= b + d then p else p + m + 1;
        WrapOnce(v, size);
        SumFrom(size, a, b, c, d, v);
      }
      if IsSum(size, a, b, c, d, p) {
        var x: nat, y: nat :| InBox(a, b, c, d, x, y) && p == Wrap(x + y, size);
        WrapOnce(x + y, size);
      }
    }
  }

  ghost predicate IsOpposite(size: nat, a: nat, b: nat, p: int, x: nat) {
    a <= x <= b && p == Wrap(0 - x, size)
  }

  /** The opposites of a range, exactly. */
  method RangeMinus(size: nat, a: nat, b: nat) returns (r: seq<Range>)
    requires a <= b <= Mask(size)
    ensures Fits(r, size) && forall p :: In(r, p) <==> exists x :: IsOpposite(size, a, b, p, x)
  {
    hide Wrap, In, Canonical;
    var m := Mask(size);
    WrapOnce(0 - a, size);
    WrapOnce(0 - b, size);
    if a == 0 && b != 0 {
      r := Two(size, 0, 0, Wrap(0 - b, size), m);
    } else {
      r := One(size, Wrap(0 - b, size), Wrap(0 - a, size));
    }
    forall p
      ensures In(r, p) <==> exists x :: IsOpposite(size, a, b, p, x)
    {
      if In(r, p) {
        var x: nat := if p == 0 then 0 else m + 1 - p;
        WrapOnce(0 - x, size);
        assert IsOpposite(size, a, b, p, x);
      }
      if x: nat :| IsOpposite(size, a, b, p, x) {
        WrapOnce(0 - x, size);
      }
    }
  }

  // ----- the bitwise operations and the product -----

  /** p lies between two values of x | y over the box. */
  ghost predicate BetweenOrs(a: nat, b: nat, c: nat, d: nat, p: int) {
    && (exists x, y :: InBox(a, b, c, d, x, y) && Or(x, y) <= p)
    && (exists x, y :: InBox(a, b, c, d, x, y) && p <= Or(x, y))
  }

  ghost predicate BetweenAnds(a: nat, b: nat, c: nat, d: nat, p: int) {
    && (exists x, y :: InBox(a, b, c, d, x, y) && And(x, y) <= p)
    && (exists x, y :: InBox(a, b, c, d, x, y) && p <= And(x, y))
  }

  /** p lies between the bounds of x ^ y that those of x & ~y and ~x & y give. */
  ghost predicate BetweenXors(size: nat, a: nat, b: nat, c: nat, d: nat, p: int) {
    exists lo: nat, hi: nat :: XorBounds(size, a, b, c, d, lo, hi) && lo <= p <= hi
  }

  /** The products, or anything once the largest one overflows. */
  ghost predicate BetweenProducts(size: nat, a: nat, b: nat, c: nat, d: nat, p: int) {
    if b * d > Mask(size) then 0 <= p <= Mask(size) else a * c <= p <= b * d
  }

  /** What the set of one operation on two ranges holds, and nothing else. */
  ghost predicate PairPoint(op: BinOp, size: nat, a: nat, b: nat, c: nat, d: nat, p: int) {
    match op
    case Add => IsSum(size, a, b, c, d, p)
    case OrOp => BetweenOrs(a, b, c, d, p)
    case AndOp => BetweenAnds(a, b, c, d, p)
    case XorOp => BetweenXors(size, a, b, c, d, p)
    case Mul => BetweenProducts(size, a, b, c, d, p)
  }

  method RangeOr(size: nat, a: nat, b: nat, c: nat, d: nat) returns (r: seq<Range>)
    requires a <= b <= Mask(size) && c <= d <= Mask(size)
    ensures Fits(r, size) && forall p :: In(r, p) <==> BetweenOrs(a, b, c, d, p)
  {
    hide Or, In, Canonical;
    var lo := RangeOrMin(size, a, b, c, d);
    var hi := RangeOrMax(size, a, b, c, d);
    ghost var x, y :| InBox(a, b, c, d, x, y) && Or(x, y) == hi;
    OrBelow(x, y, size);
    r := One(size, lo, hi);
  }

  method RangeAnd(size: nat, a: nat, b: nat, c: nat, d: nat) returns (r: seq<Range>)
    requires a <= b <= Mask(size) && c <= d <= Mask(size)
    ensures Fits(r, size) && forall p :: In(r, p) <==> BetweenAnds(a, b, c, d, p)
  {
    hide And, In, Canonical;
    var lo := RangeAndMin(size, a, b, c, d);
    var hi := RangeAndMax(size, a, b, c, d);
    ghost var x, y :| InBox(a, b, c, d, x, y) && And(x, y) == hi;
    AndBounds(x, y);
    r := One(size, lo, hi);
  }

  lemma MulBounds(a: nat, b: nat, c: nat, d: nat)
    requires a <= b && c <= d
    ensures a * c <= b * d
  {
    assert a * c <= b * c <= b * d;
  }

  method RangeMul(size: nat, a: nat, b: nat, c: nat, d: nat) returns (r: seq<Range>)
    requires a <= b <= Mask(size) && c <= d <= Mask(size)
    ensures Fits(r, size) && forall p :: In(r, p) <==> BetweenProducts(size, a, b, c, d, p)
  {
    MulBounds(a, b, c, d);
    if d * b > Mask(size) {
      r := One(size, 0, Mask(size));
    } else {
      r := One(size, a * c, b * d);
    }
  }

  method RangeBinary(op: BinOp, size: nat, a: nat, b: nat, c: nat, d: nat) returns (r: seq<Range>)
    requires a <= b <= Mask(size) && c <= d <= Mask(size)
    ensures Fits(r, size) && forall p :: In(r, p) <==> PairPoint(op, size, a, b, c, d, p)
  {
    hide IsSum, BetweenOrs, BetweenAnds, XorBounds, BetweenProducts;
    match op
    case Add =>
      r := RangeAdd(size, a, b, c, d);
    case OrOp =>
      r := RangeOr(size, a, b, c, d);
    case AndOp =>
      r := RangeAnd(size, a, b, c, d);
    case XorOp =>
      var lo, hi := RangeXor(size, a, b, c, d);
      r := One(size, lo, hi);
      forall p
        ensures In(r, p) <==> BetweenXors(size, a, b, c, d, p)
      {
        if lo': nat, hi': nat :| XorBounds(size, a, b, c, d, lo', hi') && lo' <= p <= hi' {
          XorBoundsUnique(size, a, b, c, d, lo, hi, lo', hi');
        }
      }
    case Mul =>
      r := RangeMul(size, a, b, c, d);
  }

  /** Every result is among the points of the set. */
  lemma PairSound(op: BinOp, size: nat, a: nat, b: nat, c: nat, d: nat, x: nat, y: nat)
    requires a <= b <= Mask(size) && c <= d <= Mask(size) && InBox(a, b, c, d, x, y)
    ensures PairPoint(op, size, a, b, c, d, Apply(op, size, x, y))
  {
    hide Or, And, Xor, Wrap;
    match op
    case Add =>
    case OrOp =>
    case AndOp =>
    case XorOp =>
      var lo, hi := XorBoundsExist(size, a, b, c, d);
      XorBoundsHold(size, a, b, c, d, lo, hi, x, y);
    case Mul =>
      MulBounds(a, x, c, y);
      MulBounds(x, b, y, d);
      if b * d <= Mask(size) { WrapSmall(x * y, size); }
  }

  /** On single values the set is the result; a product must not overflow. */
  lemma PairOne(op: BinOp, size: nat, x: nat, y: nat, p: int)
    requires x <= Mask(size) && y <= Mask(size) && (op.Mul? ==> x * y <= Mask(size))
    ensures PairPoint(op, size, x, x, y, y, p) <==> p == Apply(op, size, x, y)
  {
    hide Or, And, Xor, Wrap, XorBounds;
    PairSound(op, size, x, x, y, y, x, y);
    match op
    case Add =>
    case OrOp =>
    case AndOp =>
    case XorOp =>
      if lo: nat, hi: nat :| XorBounds(size, x, x, y, y, lo, hi) && lo <= p <= hi { XorBoundsOne(size, x, y, lo, hi); }
    case Mul =>
      WrapSmall(x * y, size);
  }

  /** Nothing of x & y exceeds the largest y. */
  lemma AndPoint(size: nat, a: nat, b: nat, c: nat, d: nat, p: int)
    requires PairPoint(AndOp, size, a, b, c, d, p)
    ensures p <= d
  {
    hide And;
    var x, y :| InBox(a, b, c, d, x, y) && p <= And(x, y);
    AndBounds(x, y);
  }

  // ----- modulo -----

  lemma {:induction false} MulMono(m: nat, a: int, b: int)
    requires a <= b
    ensures m * a <= m * b
    decreases b - a
  {
    if a < b {
      MulMono(m, a, b - 1);
      assert m * (b - 1) == m * b - m;
    }
  }

  lemma ModAt(x: int, m: int, q: int)
    requires m > 0 && m * q <= x < m * q + m
    ensures x / m == q && x % m == x - m * q
  {
    var q' := x / m;
    assert x == m * q' + x % m && 0 <= x % m < m;
    assert m * (q + 1) == m * q + m && m * (q' + 1) == m * q' + m;
    if q' < q { MulMono(m, q' + 1, q); }
    if q < q' { MulMono(m, q + 1, q'); }
  }

  ghost predicate IsRemainder(a: nat, b: nat, mod: nat, p: int) {
    mod > 0 && exists x :: a <= x <= b && p == x % mod
  }

  /** The remainders of a range by a constant, exactly; none by zero. */
  method RangeMod(size: nat, a: nat, b: nat, mod: nat) returns (r: seq<Range>)
    requires a <= b <= Mask(size)
    ensures Fits(r, size) && forall p :: In(r, p) <==> IsRemainder(a, b, mod, p)
  {
    hide In, Canonical;
    if b - a >= mod {
      r := One(size, 0, mod - 1);
      forall p
        ensures In(r, p) <==> IsRemainder(a, b, mod, p)
      {
        if 0 <= p < mod { AnyRemainder(a, b, mod, p); }
      }
      return;
    }
    var hi, lo := b % mod, a % mod;
    ModBounds(a, b, mod);
    if hi < lo {
      r := Two(size, 0, hi, lo, mod - 1);
    } else {
      r := One(size, lo, hi);
    }
    forall p
      ensures In(r, p) <==> IsRemainder(a, b, mod, p)
    {
      if In(r, p) { SomeRemainder(a, b, mod, p); }
      if x :| a <= x <= b && p == x % mod { ModBetween(a, b, mod, x); }
    }
  }

  lemma AnyRemainder(a: nat, b: nat, m: nat, p: nat)
    requires b - a >= m > p
    ensures IsRemainder(a, b, m, p)
  {
    var q := a / m;
    assert a == m * q + a % m;
    assert m * (q + 1) == m * q + m;
    var x := if a % m <= p then m * q + p else m * q + m + p;
    ModAt(x, m, if a % m <= p then q else q + 1);
    assert a <= x <= b && p == x % m;
  }

  lemma SomeRemainder(a: nat, b: nat, m: nat, p: int)
    requires m > 0 && a <= b && b - a < m
    requires if b % m < a % m then 0 <= p <= b % m || a % m <= p < m else a % m <= p <= b % m
    ensures IsRemainder(a, b, m, p)
  {
    var q := a / m;
    assert a == m * q + a % m;
    assert m * (q + 1) == m * q + m;
    ModAt(b, m, if b < m * q + m then q else q + 1);
    var x := if p >= a % m then m * q + p else m * q + m + p;
    ModAt(x, m, if p >= a % m then q else q + 1);
    assert a <= x <= b && p == x % m;
  }

  lemma ModSmaller(x: nat, m: nat)
    requires m > 0
    ensures 0 <= x % m <= x && x % m < m
  {
    var q := x / m;
    assert x == m * q + x % m;
    MulMono(m, 0, q);
  }

  lemma ModBounds(a: nat, b: nat, m: nat)
    requires m > 0 && a <= b && b - a < m
    ensures 0 <= b % m <= b && 0 <= a % m <= b && (b % m < a % m ==> m - 1 <= b)
  {
    ModSmaller(a, m);
    ModSmaller(b, m);
    if b < m { ModAt(b, m, 0); ModAt(a, m, 0); }
  }

  lemma ModBetween(a: nat, b: nat, m: nat, x: nat)
    requires m > 0 && a <= x <= b && b - a < m
    ensures if b % m < a % m then x % m <= b % m || a % m <= x % m < m else a % m <= x % m <= b % m
  {
    var q := a / m;
    assert a == m * q + a % m;
    assert m * (q + 1) == m * q + m;
    ModAt(b, m, if b < m * q + m then q else q + 1);
    ModAt(x, m, if x < m * q + m then q else q + 1);
  }

  // ----- shifts -----

  lemma ShrBelow(x: nat, k: nat)
    ensures Shr(x, k) <= x
    decreases k
  {
    if k > 0 { ShrBelow(x / 2, k - 1); }
  }

  lemma {:induction false} LowShl(x: nat, k: nat, size: nat)
    requires k <= size
    ensures Low(Shl(x, k), size) == 0 || Low(Shl(x, k), size) >= Pow2(k)
    decreases size
  {
    if k > 0 {
      assert Shl(x, k) / 2 == Shl(x, k - 1);
      LowShl(x, k - 1, size - 1);
    }
  }

  lemma AshrMono(x: nat, y: nat, shift: nat, size: nat)
    requires size > 0 && x <= y <= Mask(size)
    ensures 0 <= Ashr(x, shift, size) <= Ashr(y, shift, size) <= Mask(size)
  {
    var m := Mask(size);
    ShrMono(x, y, shift);
    ShrMono(m - y, m - x, shift);
    ShrBelow(y, shift);
    ShrBelow(m - x, shift);
    if x < Pow2(size - 1) <= y {
      ShrBelow(x, shift);
      ShrBelow(m - y, shift);
    }
  }

  /** What the set of a range shifted by one amount holds, and nothing else. */
  ghost predicate ShiftPoint(op: ShiftOp, size: nat, a: nat, b: nat, shift: nat, p: int)
    requires size > 0
  {
    match op
    case ShiftLeft =>
      if Shl(b, shift) > Mask(size) then p == 0 || Pow2(shift) - 1 <= p <= Mask(size)
      else Shl(a, shift) <= p <= Shl(b, shift)
    case ShiftRight => Shr(a, shift) <= p <= Shr(b, shift)
    case ArithmeticRight => Ashr(a, shift, size) <= p <= Ashr(b, shift, size)
  }

  /** One shift amount. */
  method RangeShiftUniq(op: ShiftOp, size: nat, a: nat, b: nat, shift: nat) returns (r: seq<Range>)
    requires size > 0 && a <= b <= Mask(size) && shift <= size
    ensures Fits(r, size) && forall p :: In(r, p) <==> ShiftPoint(op, size, a, b, shift, p)
  {
    hide Wrap, Ashr, In, Canonical, Shl, Shr;
    var m := Mask(size);
    match op
    case ShiftLeft =>
      var most := Shl(b, shift);
      if most > m {
        PowMono(shift, size);
        r := Two(size, 0, 0, Pow2(shift) - 1, m);
      } else {
        ShlMono(a, b, shift);
        r := One(size, Shl(a, shift), most);
      }
    case ShiftRight =>
      ShrBelow(b, shift);
      ShrMono(a, b, shift);
      WrapSmall(Shr(a, shift), size);
      WrapSmall(Shr(b, shift), size);
      r := One(size, Wrap(Shr(a, shift), size), Wrap(Shr(b, shift), size));
    case ArithmeticRight =>
      AshrMono(a, b, shift, size);
      AshrSigned(a, shift, size);
      AshrSigned(b, shift, size);
      var endMin, endMax := AshrCode(a, shift, size), AshrCode(b, shift, size);
      r := One(size, if endMin < endMax then endMin else endMax, if endMin < endMax then endMax else endMin);
  }

  /** Every shifted value is among the points of the set. */
  lemma ShiftSound(op: ShiftOp, size: nat, a: nat, b: nat, shift: nat, x: nat)
    requires size > 0 && a <= x <= b <= Mask(size) && shift <= size
    ensures ShiftPoint(op, size, a, b, shift, Shift(op, size, x, shift))
  {
    hide Wrap, Ashr;
    match op
    case ShiftLeft =>
      WrapShl(x, shift, size);
      ShlMono(a, x, shift);
      ShlMono(x, b, shift);
      if Shl(b, shift) <= Mask(size) { WrapSmall(Shl(x, shift), size); }
    case ShiftRight =>
      ShrMono(a, x, shift);
      ShrMono(x, b, shift);
    case ArithmeticRight =>
      AshrMono(a, x, shift, size);
      AshrMono(x, b, shift, size);
  }

  /** On a single value the set is the result; a left shift must not overflow. */
  lemma ShiftOne(op: ShiftOp, size: nat, x: nat, shift: nat, p: int)
    requires size > 0 && x <= Mask(size) && (op.ShiftLeft? ==> Shl(x, shift) <= Mask(size))
    ensures ShiftPoint(op, size, x, x, shift, p) <==> p == Shift(op, size, x, shift)
  {
    hide Wrap, Ashr, Shl, Shr;
    if op.ShiftLeft? { WrapSmall(Shl(x, shift), size); }
  }

  lemma WrapShl(x: nat, shift: nat, size: nat)
    requires shift <= size
    ensures Wrap(Shl(x, shift), size) == 0 || Pow2(shift) <= Wrap(Shl(x, shift), size) <= Mask(size)
  {
    LowShl(x, shift, size);
    Split(Shl(x, shift), size);
  }

  function Unsigned2Signed(value: nat, size: nat): (r: int)
    requires size > 0
  {
    if Bit(value, size - 1) then 0 - Xor(Mask(size), value) - 1 else value
  }

  /** Python's arithmetic right shift of a possibly negative integer. */
  function Sar(v: int, shift: nat): (r: int) {
    if v >= 0 then Shr(v, shift) else 0 - Shr(-v - 1, shift) - 1
  }

  function AshrCode(x: nat, shift: nat, size: nat): (r: nat)
    requires size > 0
  {
    Wrap(Sar(Unsigned2Signed(x, size), shift), size)
  }

  lemma {:induction false} XorMask(x: nat, size: nat)
    requires x <= Mask(size)
    ensures Xor(Mask(size), x) == Mask(size) - x
  {
    hide Xor;
    if size > 0 {
      var m := Mask(size);
      assert m / 2 == Mask(size - 1) && m % 2 == 1;
      XorMask(x / 2, size - 1);
      XorHalf(m, x);
    } else {
      XorZero(0);
    }
  }

  lemma TopBit(x: nat, size: nat)
    requires size > 0 && x <= Mask(size)
    ensures Bit(x, size - 1) <==> x >= Pow2(size - 1)
  {
    var k := size - 1;
    Split(x, k);
    ShlPow(k);
    ShlZero(k);
    if Shr(x, k) >= 2 {
      ShlMono(2, Shr(x, k), k);
      ShlNext(1, k);
    } else if Shr(x, k) == 1 {
    } else {
    }
  }

  /** Going through signed integers is filling with the sign bit. */
  lemma AshrSigned(x: nat, shift: nat, size: nat)
    requires size > 0 && x <= Mask(size)
    ensures AshrCode(x, shift, size) == Ashr(x, shift, size)
  {
    hide Xor, Wrap, Bit;
    var m := Mask(size);
    TopBit(x, size);
    XorMask(x, size);
    ShrBelow(m - x, shift);
    ShrBelow(x, shift);
    WrapOnce(Sar(Unsigned2Signed(x, size), shift), size);
  }
}
