/**
 Exact bounds of x | y and x & y over a box, by the bit loops of Hacker's Delight, chapter 4
 (miasm/analysis/modularintervals.py), and the bounds of x ^ y built from them.
 */
module HackersDelight {
  import opened Bits

  ghost predicate InBox(a: nat, b: nat, c: nat, d: nat, x: nat, y: nat) {
    a <= x <= b && c <= y <= d
  }

  predicate Bit(x: nat, k: nat) {
    Shr(x, k) % 2 == 1
  }

  // ----- single bits -----

  lemma {:induction false} BitLow(v: nat, n: nat, j: nat)
    ensures Bit(Low(v, n), j) <==> j < n && Bit(v, j)
    decreases n
  {
    if n > 0 && j > 0 {
      assert Low(v, n) / 2 == Low(v / 2, n - 1);
      BitLow(v / 2, n - 1, j - 1);
    } else if n == 0 {
      BitSmall(0, 0, j);
    }
  }

  lemma {:induction false} BitShl(x: nat, s: nat, j: nat)
    ensures Bit(Shl(x, s), j) <==> j >= s && Bit(x, j - s)
    decreases s
  {
    if s > 0 && j > 0 {
      assert Shl(x, s) / 2 == Shl(x, s - 1);
      BitShl(x, s - 1, j - 1);
    }
  }

  lemma {:induction false} BitShr(x: nat, s: nat, j: nat)
    ensures Bit(Shr(x, s), j) <==> Bit(x, s + j)
    decreases s
  {
    if s > 0 {
      BitShr(x / 2, s - 1, j);
      assert Shr(x, s + j) == Shr(x / 2, s - 1 + j);
    }
  }

  lemma BitOr(x: nat, y: nat, j: nat)
    ensures Bit(Or(x, y), j) <==> Bit(x, j) || Bit(y, j)
  {
    hide Or, Shr;
    OrParts(x, y, j);
    OrHalf(Shr(x, j), Shr(y, j));
  }

  lemma BitAnd(x: nat, y: nat, j: nat)
    ensures Bit(And(x, y), j) <==> Bit(x, j) && Bit(y, j)
  {
    hide And, Shr;
    AndParts(x, y, j);
    AndHalf(Shr(x, j), Shr(y, j));
  }

  lemma BitXor(x: nat, y: nat, j: nat)
    ensures Bit(Xor(x, y), j) <==> (Bit(x, j) != Bit(y, j))
  {
    hide Xor, Shr;
    XorParts(x, y, j);
    XorHalf(Shr(x, j), Shr(y, j));
  }

  lemma BitSmall(x: nat, n: nat, j: nat)
    requires x < Pow2(n) && j >= n
    ensures !Bit(x, j)
  {
    hide Shr;
    PowMono(n, j);
    BelowPower(x, j);
  }

  /** A number is its bits. */
  lemma {:induction false} BitsEqual(x: nat, y: nat, n: nat)
    requires x < Pow2(n) && y < Pow2(n) && forall i :: 0 <= i < n ==> Bit(x, i) == Bit(y, i)
    ensures x == y
  {
    if n > 0 {
      assert Bit(x, 0) == Bit(y, 0);
      forall i | 0 <= i < n - 1
        ensures Bit(x / 2, i) == Bit(y / 2, i)
      {
        assert Bit(x, i + 1) == Bit(y, i + 1);
      }
      BitsEqual(x / 2, y / 2, n - 1);
    }
  }

  /** x with bit k set and the bits below it cleared. */
  function Raised(x: nat, k: nat): (r: nat) {
    Shl(Shr(Or(x, Pow2(k)), k), k)
  }

  /** x with bit k cleared and the bits below it set. */
  function Dropped(x: nat, k: nat): (r: nat)
    requires x >= Pow2(k)
  {
    Or(x - Pow2(k), Pow2(k) - 1)
  }

  lemma PowParts(k: nat)
    ensures Shr(Pow2(k), k) == 1 && Low(Pow2(k), k) == 0
    ensures Shr(Pow2(k) - 1, k) == 0 && Low(Pow2(k) - 1, k) == Pow2(k) - 1
  {
    ShlPow(k);
    ShlOf(1, 0, k);
    BelowPower(Pow2(k) - 1, k);
  }

  lemma RaisedIs(x: nat, k: nat)
    requires !Bit(x, k)
    ensures Raised(x, k) == Shl(Shr(x, k) + 1, k) && Raised(x, k) > x
    ensures Shr(Raised(x, k), k) == Shr(x, k) + 1 && Low(Raised(x, k), k) == 0
  {
    hide And, Or, Shr, Shl, Low, Pow2;
    PowParts(k);
    OrParts(x, Pow2(k), k);
    OrEven(Shr(x, k));
    ShlOf(Shr(x, k) + 1, 0, k);
    HighLess(x, Raised(x, k), k);
  }

  lemma OrEven(h: nat)
    requires h % 2 == 0
    ensures Or(h, 1) == h + 1
  {
    OrHalf(h, 1);
    OrZero(h / 2);
  }

  lemma BitLarge(x: nat, k: nat)
    requires Bit(x, k)
    ensures x >= Pow2(k)
  {
    Split(x, k);
    ShlPow(k);
    ShlMono(1, Shr(x, k), k);
  }

  lemma DroppedIs(x: nat, k: nat)
    requires Bit(x, k) && x >= Pow2(k)
    ensures Shr(Dropped(x, k), k) == Shr(x, k) - 1 && Low(Dropped(x, k), k) == Pow2(k) - 1 && Dropped(x, k) < x
  {
    hide And, Or, Shr, Shl, Low, Pow2;
    var h, ones := Shr(x, k) - 1, Pow2(k) - 1;
    Split(x, k);
    ShlNext(h, k);
    ShlOf(h, Low(x, k), k);
    PowParts(k);
    OrParts(x - Pow2(k), ones, k);
    OrZero(h);
    OrOnes(Low(x, k), k);
    OrComm(Low(x, k), ones);
    HighLess(Dropped(x, k), x, k);
  }

  /** A low bit that the other side decides does not matter. */
  lemma LowBitIgnored(h: nat, o: nat)
    requires h % 2 == 0
    ensures o % 2 == 1 ==> Or(h + 1, o) == Or(h, o)
    ensures o % 2 == 0 ==> And(h + 1, o) == And(h, o)
  {
    hide Or, And;
    OrHalf(h + 1, o);
    OrHalf(h, o);
    AndHalf(h + 1, o);
    AndHalf(h, o);
  }

  // ----- minimum of x | y -----

  /** Above bit k, x | y exceeds a | c, unless x and y are a and c there. */
  ghost predicate OrMinAt(a: nat, c: nat, x: nat, y: nat, k: nat) {
    Or(Shr(x, k), Shr(y, k)) > Or(Shr(a, k), Shr(c, k)) || (Shr(x, k) == Shr(a, k) && Shr(y, k) == Shr(c, k))
  }

  lemma OrMinStart(a: nat, c: nat, x: nat, y: nat, k: nat)
    requires x < Pow2(k) && y < Pow2(k) && a < Pow2(k) && c < Pow2(k)
    ensures OrMinAt(a, c, x, y, k)
  {
    BelowPower(x, k);
    BelowPower(y, k);
    BelowPower(a, k);
    BelowPower(c, k);
  }

  /** A bit that x may raise while keeping its higher bits can be raised within bounds. */
  lemma RaiseFits(a: nat, b: nat, x: nat, k: nat)
    requires a <= x <= b && !Bit(a, k) && Shr(x, k) > Shr(a, k)
    ensures Raised(a, k) <= b
  {
    RaisedIs(a, k);
    Split(x, k);
    ShlMono(Shr(a, k) + 1, Shr(x, k), k);
  }

  lemma OrMinStep(a: nat, b: nat, c: nat, d: nat, x: nat, y: nat, k: nat)
    requires InBox(a, b, c, d, x, y) && OrMinAt(a, c, x, y, k + 1)
    requires !Bit(a, k) && Bit(c, k) ==> Raised(a, k) > b
    requires Bit(a, k) && !Bit(c, k) ==> Raised(c, k) > d
    ensures OrMinAt(a, c, x, y, k)
  {
    hide Or, Raised;
    ShrMono(a, x, k);
    ShrMono(c, y, k);
    Halves(a, c, x, y, k);
    if !Bit(a, k) && Bit(c, k) && Shr(x, k) > Shr(a, k) { RaiseFits(a, b, x, k); }
    if Bit(a, k) && !Bit(c, k) && Shr(y, k) > Shr(c, k) { RaiseFits(c, d, y, k); }
  }

  lemma Halves(a: nat, c: nat, x: nat, y: nat, k: nat)
    ensures Shr(a, k + 1) == Shr(a, k) / 2 && Shr(c, k + 1) == Shr(c, k) / 2
    ensures Shr(x, k + 1) == Shr(x, k) / 2 && Shr(y, k + 1) == Shr(y, k) / 2
    ensures Or(Shr(x, k), Shr(y, k)) / 2 == Or(Shr(x, k + 1), Shr(y, k + 1))
    ensures Or(Shr(x, k), Shr(y, k)) % 2 == if Bit(x, k) || Bit(y, k) then 1 else 0
    ensures Or(Shr(a, k), Shr(c, k)) / 2 == Or(Shr(a, k + 1), Shr(c, k + 1))
    ensures Or(Shr(a, k), Shr(c, k)) % 2 == if Bit(a, k) || Bit(c, k) then 1 else 0
    ensures And(Shr(x, k), Shr(y, k)) / 2 == And(Shr(x, k + 1), Shr(y, k + 1))
    ensures And(Shr(x, k), Shr(y, k)) % 2 == if Bit(x, k) && Bit(y, k) then 1 else 0
    ensures And(Shr(a, k), Shr(c, k)) / 2 == And(Shr(a, k + 1), Shr(c, k + 1))
    ensures And(Shr(a, k), Shr(c, k)) % 2 == if Bit(a, k) && Bit(c, k) then 1 else 0
  {
    ShrNext(a, k);
    ShrNext(c, k);
    ShrNext(x, k);
    ShrNext(y, k);
    OrHalf(Shr(x, k), Shr(y, k));
    OrHalf(Shr(a, k), Shr(c, k));
    AndHalf(Shr(x, k), Shr(y, k));
    AndHalf(Shr(a, k), Shr(c, k));
  }

  /** Raising a at bit k gives the minimum. */
  lemma OrMinRaise(a: nat, c: nat, x: nat, y: nat, k: nat)
    requires a <= x && c <= y && OrMinAt(a, c, x, y, k + 1) && !Bit(a, k) && Bit(c, k)
    ensures Or(x, y) >= Or(Raised(a, k), c)
  {
    hide And, Or, Raised, Dropped, Shr, Shl, Low, Pow2;
    var t := Raised(a, k);
    RaisedIs(a, k);
    ShrMono(a, x, k);
    ShrMono(c, y, k);
    Halves(a, c, x, y, k);
    LowBitIgnored(Shr(a, k), Shr(c, k));
    OrParts(x, y, k);
    OrParts(t, c, k);
    if Or(Shr(x, k), Shr(y, k)) > Or(Shr(t, k), Shr(c, k)) {
      HighLess(Or(t, c), Or(x, y), k);
    } else {
      Split(y, k);
      Split(c, k);
      OrBounds(Low(x, k), Low(y, k));
      OrZero(Low(c, k));
      Split(Or(x, y), k);
      Split(Or(t, c), k);
    }
  }

  method RangeOrMin(size: nat, xMin: nat, xMax: nat, yMin: nat, yMax: nat) returns (r: nat)
    requires xMin <= xMax < Pow2(size) && yMin <= yMax < Pow2(size)
    ensures exists x, y :: InBox(xMin, xMax, yMin, yMax, x, y) && Or(x, y) == r
    ensures forall x, y :: InBox(xMin, xMax, yMin, yMax, x, y) ==> r <= Or(x, y)
  {
    hide Or, Raised, Bit, OrMinAt;
    var a, c := xMin, yMin;
    var k := size;
    forall x, y | InBox(xMin, xMax, yMin, yMax, x, y)
      ensures OrMinAt(a, c, x, y, k)
    {
      OrMinStart(a, c, x, y, k);
    }
    while k > 0
      invariant forall x, y :: InBox(xMin, xMax, yMin, yMax, x, y) ==> OrMinAt(xMin, yMin, x, y, k)
      invariant a == xMin && c == yMin
    {
      k := k - 1;
      if !Bit(a, k) && Bit(c, k) {
        var temp := Raised(a, k);
        if temp <= xMax {
          RaisedIs(a, k);
          forall x, y | InBox(xMin, xMax, yMin, yMax, x, y)
            ensures Or(temp, c) <= Or(x, y)
          {
            OrMinRaise(a, c, x, y, k);
          }
          assert InBox(xMin, xMax, yMin, yMax, temp, c);
          return Or(temp, c);
        }
      } else if Bit(a, k) && !Bit(c, k) {
        var temp := Raised(c, k);
        if temp <= yMax {
          RaisedIs(c, k);
          forall x, y | InBox(xMin, xMax, yMin, yMax, x, y)
            ensures Or(a, temp) <= Or(x, y)
          {
            OrMinAtComm(a, c, x, y, k + 1);
            OrMinRaise(c, a, y, x, k);
            OrComm(a, temp);
            OrComm(x, y);
          }
          assert InBox(xMin, xMax, yMin, yMax, a, temp);
          return Or(a, temp);
        }
      }
      forall x, y | InBox(xMin, xMax, yMin, yMax, x, y)
        ensures OrMinAt(a, c, x, y, k)
      {
        OrMinStep(a, xMax, c, yMax, x, y, k);
      }
    }
    forall x, y | InBox(xMin, xMax, yMin, yMax, x, y)
      ensures Or(a, c) <= Or(x, y)
    {
      OrMinEnd(a, c, x, y);
    }
    assert InBox(xMin, xMax, yMin, yMax, a, c);
    return Or(a, c);
  }

  lemma OrMinEnd(a: nat, c: nat, x: nat, y: nat)
    requires OrMinAt(a, c, x, y, 0)
    ensures Or(a, c) <= Or(x, y)
  {}

  lemma OrMinAtComm(a: nat, c: nat, x: nat, y: nat, k: nat)
    requires OrMinAt(a, c, x, y, k)
    ensures OrMinAt(c, a, y, x, k)
  {
    OrComm(Shr(x, k), Shr(y, k));
    OrComm(Shr(a, k), Shr(c, k));
  }

  // ----- maximum of x | y -----

  ghost predicate OrMaxAt(b: nat, d: nat, x: nat, y: nat, k: nat) {
    Or(Shr(x, k), Shr(y, k)) < Or(Shr(b, k), Shr(d, k)) || (Shr(x, k) == Shr(b, k) && Shr(y, k) == Shr(d, k))
  }

  lemma OrMaxStart(b: nat, d: nat, x: nat, y: nat, k: nat)
    requires x < Pow2(k) && y < Pow2(k) && b < Pow2(k) && d < Pow2(k)
    ensures OrMaxAt(b, d, x, y, k)
  {
    BelowPower(x, k);
    BelowPower(y, k);
    BelowPower(b, k);
    BelowPower(d, k);
  }

  /** A bit that x may drop while keeping its higher bits can be dropped within bounds. */
  lemma DropFits(a: nat, b: nat, x: nat, k: nat)
    requires a <= x <= b && Bit(b, k) && b >= Pow2(k) && Shr(x, k) < Shr(b, k)
    ensures a <= Dropped(b, k)
  {
    var t := Dropped(b, k);
    DroppedIs(b, k);
    Split(x, k);
    Split(t, k);
    ShlMono(Shr(x, k), Shr(t, k), k);
  }

  lemma OrMaxStep(a: nat, b: nat, c: nat, d: nat, x: nat, y: nat, k: nat)
    requires InBox(a, b, c, d, x, y) && OrMaxAt(b, d, x, y, k + 1)
    requires Bit(b, k) && Bit(d, k) ==> b >= Pow2(k) && d >= Pow2(k) && Dropped(b, k) < a && Dropped(d, k) < c
    ensures OrMaxAt(b, d, x, y, k)
  {
    hide Or, Dropped;
    ShrMono(x, b, k);
    ShrMono(y, d, k);
    Halves(b, d, x, y, k);
    if Bit(b, k) && Bit(d, k) && Shr(x, k) < Shr(b, k) { DropFits(a, b, x, k); }
    if Bit(b, k) && Bit(d, k) && Shr(y, k) < Shr(d, k) { DropFits(c, d, y, k); }
  }

  /** Dropping b at bit k, where d has the bit too, gives the maximum. */
  lemma OrMaxDrop(b: nat, d: nat, x: nat, y: nat, k: nat)
    requires x <= b && y <= d && OrMaxAt(b, d, x, y, k + 1) && Bit(b, k) && Bit(d, k) && b >= Pow2(k)
    ensures Or(x, y) <= Or(Dropped(b, k), d)
  {
    hide And, Or, Raised, Dropped, Shr, Shl, Low, Pow2;
    var t := Dropped(b, k);
    DroppedIs(b, k);
    ShrMono(x, b, k);
    ShrMono(y, d, k);
    Halves(b, d, x, y, k);
    LowBitIgnored(Shr(t, k), Shr(d, k));
    OrParts(x, y, k);
    OrParts(t, d, k);
    Split(d, k);
    OrOnes(Low(d, k), k);
    Split(Or(x, y), k);
    Split(Or(t, d), k);
    ShlMono(Shr(Or(x, y), k), Shr(Or(t, d), k), k);
  }

  method RangeOrMax(size: nat, xMin: nat, xMax: nat, yMin: nat, yMax: nat) returns (r: nat)
    requires xMin <= xMax < Pow2(size) && yMin <= yMax < Pow2(size)
    ensures exists x, y :: InBox(xMin, xMax, yMin, yMax, x, y) && Or(x, y) == r
    ensures forall x, y :: InBox(xMin, xMax, yMin, yMax, x, y) ==> Or(x, y) <= r
  {
    hide Or, Dropped, Bit, OrMaxAt;
    var b, d := xMax, yMax;
    var k := size;
    forall x, y | InBox(xMin, xMax, yMin, yMax, x, y)
      ensures OrMaxAt(b, d, x, y, k)
    {
      OrMaxStart(b, d, x, y, k);
    }
    while k > 0
      invariant forall x, y :: InBox(xMin, xMax, yMin, yMax, x, y) ==> OrMaxAt(xMax, yMax, x, y, k)
      invariant b == xMax && d == yMax
    {
      k := k - 1;
      if Bit(b, k) && Bit(d, k) {
        BitLarge(b, k);
        BitLarge(d, k);
        var temp := Dropped(b, k);
        if temp >= xMin {
          DroppedIs(b, k);
          forall x, y | InBox(xMin, xMax, yMin, yMax, x, y)
            ensures Or(x, y) <= Or(temp, d)
          {
            OrMaxDrop(b, d, x, y, k);
          }
          assert InBox(xMin, xMax, yMin, yMax, temp, d);
          return Or(temp, d);
        }
        temp := Dropped(d, k);
        if temp >= yMin {
          DroppedIs(d, k);
          forall x, y | InBox(xMin, xMax, yMin, yMax, x, y)
            ensures Or(x, y) <= Or(b, temp)
          {
            OrMaxAtComm(b, d, x, y, k + 1);
            OrMaxDrop(d, b, y, x, k);
            OrComm(b, temp);
            OrComm(x, y);
          }
          assert InBox(xMin, xMax, yMin, yMax, b, temp);
          return Or(b, temp);
        }
      }
      forall x, y | InBox(xMin, xMax, yMin, yMax, x, y)
        ensures OrMaxAt(b, d, x, y, k)
      {
        OrMaxStep(xMin, b, yMin, d, x, y, k);
      }
    }
    forall x, y | InBox(xMin, xMax, yMin, yMax, x, y)
      ensures Or(x, y) <= Or(b, d)
    {
      OrMaxEnd(b, d, x, y);
    }
    assert InBox(xMin, xMax, yMin, yMax, b, d);
    return Or(b, d);
  }

  lemma OrMaxEnd(b: nat, d: nat, x: nat, y: nat)
    requires OrMaxAt(b, d, x, y, 0)
    ensures Or(x, y) <= Or(b, d)
  {}

  lemma OrMaxAtComm(b: nat, d: nat, x: nat, y: nat, k: nat)
    requires OrMaxAt(b, d, x, y, k)
    ensures OrMaxAt(d, b, y, x, k)
  {
    OrComm(Shr(x, k), Shr(y, k));
    OrComm(Shr(b, k), Shr(d, k));
  }

  // ----- minimum of x & y -----

  ghost predicate AndMinAt(a: nat, c: nat, x: nat, y: nat, k: nat) {
    And(Shr(x, k), Shr(y, k)) > And(Shr(a, k), Shr(c, k)) || (Shr(x, k) == Shr(a, k) && Shr(y, k) == Shr(c, k))
  }

  lemma AndMinStart(a: nat, c: nat, x: nat, y: nat, k: nat)
    requires x < Pow2(k) && y < Pow2(k) && a < Pow2(k) && c < Pow2(k)
    ensures AndMinAt(a, c, x, y, k)
  {
    BelowPower(x, k);
    BelowPower(y, k);
    BelowPower(a, k);
    BelowPower(c, k);
  }

  lemma AndMinStep(a: nat, b: nat, c: nat, d: nat, x: nat, y: nat, k: nat)
    requires InBox(a, b, c, d, x, y) && AndMinAt(a, c, x, y, k + 1)
    requires !Bit(a, k) && !Bit(c, k) ==> Raised(a, k) > b && Raised(c, k) > d
    ensures AndMinAt(a, c, x, y, k)
  {
    hide And, Raised;
    ShrMono(a, x, k);
    ShrMono(c, y, k);
    Halves(a, c, x, y, k);
    if !Bit(a, k) && !Bit(c, k) && Shr(x, k) > Shr(a, k) { RaiseFits(a, b, x, k); }
    if !Bit(a, k) && !Bit(c, k) && Shr(y, k) > Shr(c, k) { RaiseFits(c, d, y, k); }
  }

  /** Raising a at bit k, where c has no bit either, gives the minimum. */
  lemma AndMinRaise(a: nat, c: nat, x: nat, y: nat, k: nat)
    requires a <= x && c <= y && AndMinAt(a, c, x, y, k + 1) && !Bit(a, k) && !Bit(c, k)
    ensures And(x, y) >= And(Raised(a, k), c)
  {
    hide And, Or, Raised, Dropped, Shr, Shl, Low, Pow2;
    var t := Raised(a, k);
    RaisedIs(a, k);
    Halves(a, c, x, y, k);
    LowBitIgnored(Shr(a, k), Shr(c, k));
    AndParts(x, y, k);
    AndParts(t, c, k);
    AndZero(Low(c, k));
    Split(And(x, y), k);
    Split(And(t, c), k);
    ShlMono(Shr(And(t, c), k), Shr(And(x, y), k), k);
  }

  method RangeAndMin(size: nat, xMin: nat, xMax: nat, yMin: nat, yMax: nat) returns (r: nat)
    requires xMin <= xMax < Pow2(size) && yMin <= yMax < Pow2(size)
    ensures exists x, y :: InBox(xMin, xMax, yMin, yMax, x, y) && And(x, y) == r
    ensures forall x, y :: InBox(xMin, xMax, yMin, yMax, x, y) ==> r <= And(x, y)
  {
    hide And, Raised, Bit, AndMinAt;
    var a, c := xMin, yMin;
    var k := size;
    forall x, y | InBox(xMin, xMax, yMin, yMax, x, y)
      ensures AndMinAt(a, c, x, y, k)
    {
      AndMinStart(a, c, x, y, k);
    }
    while k > 0
      invariant forall x, y :: InBox(xMin, xMax, yMin, yMax, x, y) ==> AndMinAt(xMin, yMin, x, y, k)
      invariant a == xMin && c == yMin
    {
      k := k - 1;
      if !Bit(a, k) && !Bit(c, k) {
        var temp := Raised(a, k);
        if temp <= xMax {
          RaisedIs(a, k);
          forall x, y | InBox(xMin, xMax, yMin, yMax, x, y)
            ensures And(temp, c) <= And(x, y)
          {
            AndMinRaise(a, c, x, y, k);
          }
          assert InBox(xMin, xMax, yMin, yMax, temp, c);
          return And(temp, c);
        }
        temp := Raised(c, k);
        if temp <= yMax {
          RaisedIs(c, k);
          forall x, y | InBox(xMin, xMax, yMin, yMax, x, y)
            ensures And(a, temp) <= And(x, y)
          {
            AndMinAtComm(a, c, x, y, k + 1);
            AndMinRaise(c, a, y, x, k);
            AndComm(a, temp);
            AndComm(x, y);
          }
          assert InBox(xMin, xMax, yMin, yMax, a, temp);
          return And(a, temp);
        }
      }
      forall x, y | InBox(xMin, xMax, yMin, yMax, x, y)
        ensures AndMinAt(a, c, x, y, k)
      {
        AndMinStep(a, xMax, c, yMax, x, y, k);
      }
    }
    forall x, y | InBox(xMin, xMax, yMin, yMax, x, y)
      ensures And(a, c) <= And(x, y)
    {
      AndMinEnd(a, c, x, y);
    }
    assert InBox(xMin, xMax, yMin, yMax, a, c);
    return And(a, c);
  }

  lemma AndMinEnd(a: nat, c: nat, x: nat, y: nat)
    requires AndMinAt(a, c, x, y, 0)
    ensures And(a, c) <= And(x, y)
  {}

  lemma AndMinAtComm(a: nat, c: nat, x: nat, y: nat, k: nat)
    requires AndMinAt(a, c, x, y, k)
    ensures AndMinAt(c, a, y, x, k)
  {
    AndComm(Shr(x, k), Shr(y, k));
    AndComm(Shr(a, k), Shr(c, k));
  }

  // ----- maximum of x & y -----

  ghost predicate AndMaxAt(b: nat, d: nat, x: nat, y: nat, k: nat) {
    And(Shr(x, k), Shr(y, k)) < And(Shr(b, k), Shr(d, k)) || (Shr(x, k) == Shr(b, k) && Shr(y, k) == Shr(d, k))
  }

  lemma AndMaxStart(b: nat, d: nat, x: nat, y: nat, k: nat)
    requires x < Pow2(k) && y < Pow2(k) && b < Pow2(k) && d < Pow2(k)
    ensures AndMaxAt(b, d, x, y, k)
  {
    BelowPower(x, k);
    BelowPower(y, k);
    BelowPower(b, k);
    BelowPower(d, k);
  }

  lemma AndMaxStep(a: nat, b: nat, c: nat, d: nat, x: nat, y: nat, k: nat)
    requires InBox(a, b, c, d, x, y) && AndMaxAt(b, d, x, y, k + 1)
    requires Bit(b, k) && !Bit(d, k) ==> b >= Pow2(k) && Dropped(b, k) < a
    requires !Bit(b, k) && Bit(d, k) ==> d >= Pow2(k) && Dropped(d, k) < c
    ensures AndMaxAt(b, d, x, y, k)
  {
    hide And, Dropped;
    ShrMono(x, b, k);
    ShrMono(y, d, k);
    Halves(b, d, x, y, k);
    if Bit(b, k) && !Bit(d, k) && Shr(x, k) < Shr(b, k) { DropFits(a, b, x, k); }
    if !Bit(b, k) && Bit(d, k) && Shr(y, k) < Shr(d, k) { DropFits(c, d, y, k); }
  }

  /** Dropping b at bit k, where d has no bit, gives the maximum. */
  lemma AndMaxDrop(b: nat, d: nat, x: nat, y: nat, k: nat)
    requires x <= b && y <= d && AndMaxAt(b, d, x, y, k + 1) && Bit(b, k) && !Bit(d, k) && b >= Pow2(k)
    ensures And(x, y) <= And(Dropped(b, k), d)
  {
    hide And, Or, Raised, Dropped, Shr, Shl, Low, Pow2;
    var t := Dropped(b, k);
    DroppedIs(b, k);
    ShrMono(x, b, k);
    ShrMono(y, d, k);
    Halves(b, d, x, y, k);
    LowBitIgnored(Shr(t, k), Shr(d, k));
    AndParts(x, y, k);
    AndParts(t, d, k);
    Split(d, k);
    AndOnes(Low(d, k), k);
    if And(Shr(x, k), Shr(y, k)) < And(Shr(t, k), Shr(d, k)) {
      HighLess(And(x, y), And(t, d), k);
    } else {
      Split(y, k);
      AndBounds(Low(x, k), Low(y, k));
      Split(And(x, y), k);
      Split(And(t, d), k);
    }
  }

  method RangeAndMax(size: nat, xMin: nat, xMax: nat, yMin: nat, yMax: nat) returns (r: nat)
    requires xMin <= xMax < Pow2(size) && yMin <= yMax < Pow2(size)
    ensures exists x, y :: InBox(xMin, xMax, yMin, yMax, x, y) && And(x, y) == r
    ensures forall x, y :: InBox(xMin, xMax, yMin, yMax, x, y) ==> And(x, y) <= r
  {
    hide And, Dropped, Bit, AndMaxAt;
    var b, d := xMax, yMax;
    var k := size;
    forall x, y | InBox(xMin, xMax, yMin, yMax, x, y)
      ensures AndMaxAt(b, d, x, y, k)
    {
      AndMaxStart(b, d, x, y, k);
    }
    while k > 0
      invariant forall x, y :: InBox(xMin, xMax, yMin, yMax, x, y) ==> AndMaxAt(xMax, yMax, x, y, k)
      invariant b == xMax && d == yMax
    {
      k := k - 1;
      if Bit(b, k) && !Bit(d, k) {
        BitLarge(b, k);
        var temp := Dropped(b, k);
        if temp >= xMin {
          DroppedIs(b, k);
          forall x, y | InBox(xMin, xMax, yMin, yMax, x, y)
            ensures And(x, y) <= And(temp, d)
          {
            AndMaxDrop(b, d, x, y, k);
          }
          assert InBox(xMin, xMax, yMin, yMax, temp, d);
          return And(temp, d);
        }
      } else if !Bit(b, k) && Bit(d, k) {
        BitLarge(d, k);
        var temp := Dropped(d, k);
        if temp >= yMin {
          DroppedIs(d, k);
          forall x, y | InBox(xMin, xMax, yMin, yMax, x, y)
            ensures And(x, y) <= And(b, temp)
          {
            AndMaxAtComm(b, d, x, y, k + 1);
            AndMaxDrop(d, b, y, x, k);
            AndComm(b, temp);
            AndComm(x, y);
          }
          assert InBox(xMin, xMax, yMin, yMax, b, temp);
          return And(b, temp);
        }
      }
      forall x, y | InBox(xMin, xMax, yMin, yMax, x, y)
        ensures AndMaxAt(b, d, x, y, k)
      {
        AndMaxStep(xMin, b, yMin, d, x, y, k);
      }
    }
    forall x, y | InBox(xMin, xMax, yMin, yMax, x, y)
      ensures And(x, y) <= And(b, d)
    {
      AndMaxEnd(b, d, x, y);
    }
    assert InBox(xMin, xMax, yMin, yMax, b, d);
    return And(b, d);
  }

  lemma AndMaxEnd(b: nat, d: nat, x: nat, y: nat)
    requires AndMaxAt(b, d, x, y, 0)
    ensures And(x, y) <= And(b, d)
  {}

  lemma AndMaxAtComm(b: nat, d: nat, x: nat, y: nat, k: nat)
    requires AndMaxAt(b, d, x, y, k)
    ensures AndMaxAt(d, b, y, x, k)
  {
    AndComm(Shr(x, k), Shr(y, k));
    AndComm(Shr(b, k), Shr(d, k));
  }

  // ----- bounds of x ^ y -----

  ghost predicate IsLeastAnd(a: nat, b: nat, c: nat, d: nat, r: nat) {
    && (exists x, y :: InBox(a, b, c, d, x, y) && And(x, y) == r)
    && (forall x, y :: InBox(a, b, c, d, x, y) ==> r <= And(x, y))
  }

  ghost predicate IsMostAnd(a: nat, b: nat, c: nat, d: nat, r: nat) {
    && (exists x, y :: InBox(a, b, c, d, x, y) && And(x, y) == r)
    && (forall x, y :: InBox(a, b, c, d, x, y) ==> And(x, y) <= r)
  }

  ghost predicate IsMostOr(a: nat, b: nat, c: nat, d: nat, r: nat) {
    && (exists x, y :: InBox(a, b, c, d, x, y) && Or(x, y) == r)
    && (forall x, y :: InBox(a, b, c, d, x, y) ==> Or(x, y) <= r)
  }

  /** The least x & y of two boxes, or'ed. */
  ghost predicate OrOfLeast(a: nat, b: nat, c: nat, d: nat, a': nat, b': nat, c': nat, d': nat, r: nat) {
    exists m, m' :: IsLeastAnd(a, b, c, d, m) && IsLeastAnd(a', b', c', d', m') && r == Or(m, m')
  }

  /** The most that two values up to the greatest x & y of two boxes can or to. */
  ghost predicate OrUpToMost(a: nat, b: nat, c: nat, d: nat, a': nat, b': nat, c': nat, d': nat, r: nat) {
    exists u, u' :: IsMostAnd(a, b, c, d, u) && IsMostAnd(a', b', c', d', u') && IsMostOr(0, u, 0, u', r)
  }

  /** The bounds of x ^ y that those of x & ~y and ~x & y give. */
  ghost predicate XorBounds(size: nat, a: nat, b: nat, c: nat, d: nat, lo: nat, hi: nat) {
    var mask := Pow2(size) - 1;
    && a <= b <= mask && c <= d <= mask
    && OrOfLeast(a, b, mask - d, mask - c, mask - b, mask - a, c, d, lo)
    && OrUpToMost(a, b, mask - d, mask - c, mask - b, mask - a, c, d, hi)
  }

  lemma OrOfLeastUnique(a: nat, b: nat, c: nat, d: nat, a': nat, b': nat, c': nat, d': nat, r: nat, r': nat)
    requires OrOfLeast(a, b, c, d, a', b', c', d', r) && OrOfLeast(a, b, c, d, a', b', c', d', r')
    ensures r == r'
  {
    hide And, Or;
    var m, m' :| IsLeastAnd(a, b, c, d, m) && IsLeastAnd(a', b', c', d', m') && r == Or(m, m');
    var n, n' :| IsLeastAnd(a, b, c, d, n) && IsLeastAnd(a', b', c', d', n') && r' == Or(n, n');
    LeastUnique(a, b, c, d, m, n);
    LeastUnique(a', b', c', d', m', n');
  }

  lemma LeastUnique(a: nat, b: nat, c: nat, d: nat, m: nat, n: nat)
    requires IsLeastAnd(a, b, c, d, m) && IsLeastAnd(a, b, c, d, n)
    ensures m == n
  {
    hide And;
  }

  lemma MostUnique(a: nat, b: nat, c: nat, d: nat, m: nat, n: nat)
    ensures IsMostAnd(a, b, c, d, m) && IsMostAnd(a, b, c, d, n) ==> m == n
    ensures IsMostOr(a, b, c, d, m) && IsMostOr(a, b, c, d, n) ==> m == n
  {
    hide And, Or;
  }

  lemma OrUpToMostUnique(a: nat, b: nat, c: nat, d: nat, a': nat, b': nat, c': nat, d': nat, r: nat, r': nat)
    requires OrUpToMost(a, b, c, d, a', b', c', d', r) && OrUpToMost(a, b, c, d, a', b', c', d', r')
    ensures r == r'
  {
    hide IsMostAnd, IsMostOr;
    var u, u' :| IsMostAnd(a, b, c, d, u) && IsMostAnd(a', b', c', d', u') && IsMostOr(0, u, 0, u', r);
    var w, w' :| IsMostAnd(a, b, c, d, w) && IsMostAnd(a', b', c', d', w') && IsMostOr(0, w, 0, w', r');
    MostUnique(a, b, c, d, u, w);
    MostUnique(a', b', c', d', u', w');
    MostUnique(0, u, 0, u', r, r');
  }

  lemma {:induction false} LeastAnd(a: nat, b: nat, c: nat, d: nat, x0: nat, y0: nat) returns (r: nat)
    requires InBox(a, b, c, d, x0, y0)
    ensures IsLeastAnd(a, b, c, d, r)
    decreases And(x0, y0)
  {
    hide And;
    r := And(x0, y0);
    if x, y :| InBox(a, b, c, d, x, y) && And(x, y) < r { r := LeastAnd(a, b, c, d, x, y); }
  }

  lemma {:induction false} MostAnd(a: nat, b: nat, c: nat, d: nat, x0: nat, y0: nat) returns (r: nat)
    requires InBox(a, b, c, d, x0, y0)
    ensures IsMostAnd(a, b, c, d, r)
    decreases b - And(x0, y0)
  {
    hide And;
    r := And(x0, y0);
    if x, y :| InBox(a, b, c, d, x, y) && And(x, y) > r {
      AndBounds(x, y);
      r := MostAnd(a, b, c, d, x, y);
    }
  }

  lemma {:induction false} MostOr(a: nat, b: nat, c: nat, d: nat, x0: nat, y0: nat) returns (r: nat)
    requires InBox(a, b, c, d, x0, y0)
    ensures IsMostOr(a, b, c, d, r)
    decreases b + d - Or(x0, y0)
  {
    hide Or;
    r := Or(x0, y0);
    if x, y :| InBox(a, b, c, d, x, y) && Or(x, y) > r {
      OrBounds(x, y);
      r := MostOr(a, b, c, d, x, y);
    }
  }

  lemma XorBoundsExist(size: nat, a: nat, b: nat, c: nat, d: nat) returns (lo: nat, hi: nat)
    requires a <= b < Pow2(size) && c <= d < Pow2(size)
    ensures XorBounds(size, a, b, c, d, lo, hi)
  {
    hide And, Or, IsLeastAnd, IsMostAnd, IsMostOr;
    var mask := Pow2(size) - 1;
    var m1 := LeastAnd(a, b, mask - d, mask - c, a, mask - d);
    var m2 := LeastAnd(mask - b, mask - a, c, d, mask - b, c);
    var u1 := MostAnd(a, b, mask - d, mask - c, a, mask - d);
    var u2 := MostAnd(mask - b, mask - a, c, d, mask - b, c);
    lo := Or(m1, m2);
    hi := MostOr(0, u1, 0, u2, 0, 0);
  }

  lemma XorBoundsUnique(size: nat, a: nat, b: nat, c: nat, d: nat, lo: nat, hi: nat, lo': nat, hi': nat)
    requires XorBounds(size, a, b, c, d, lo, hi) && XorBounds(size, a, b, c, d, lo', hi')
    ensures lo == lo' && hi == hi'
  {
    hide OrOfLeast, OrUpToMost;
    var mask := Pow2(size) - 1;
    OrOfLeastUnique(a, b, mask - d, mask - c, mask - b, mask - a, c, d, lo, lo');
    OrUpToMostUnique(a, b, mask - d, mask - c, mask - b, mask - a, c, d, hi, hi');
  }

  lemma OrOfLeastBelow(a: nat, b: nat, c: nat, d: nat, a': nat, b': nat, c': nat, d': nat, r: nat, x: nat, y: nat, x': nat, y': nat)
    requires OrOfLeast(a, b, c, d, a', b', c', d', r) && InBox(a, b, c, d, x, y) && InBox(a', b', c', d', x', y')
    ensures r <= And(x, y) + And(x', y')
  {
    hide And, Or;
    var m, m' :| IsLeastAnd(a, b, c, d, m) && IsLeastAnd(a', b', c', d', m') && r == Or(m, m');
    OrBounds(m, m');
  }

  lemma OrUpToMostAbove(a: nat, b: nat, c: nat, d: nat, a': nat, b': nat, c': nat, d': nat, r: nat, x: nat, y: nat, x': nat, y': nat)
    requires OrUpToMost(a, b, c, d, a', b', c', d', r) && InBox(a, b, c, d, x, y) && InBox(a', b', c', d', x', y')
    ensures Or(And(x, y), And(x', y')) <= r
  {
    hide And, Or;
    var u, u' :| IsMostAnd(a, b, c, d, u) && IsMostAnd(a', b', c', d', u') && IsMostOr(0, u, 0, u', r);
    assert InBox(0, u, 0, u', And(x, y), And(x', y'));
  }

  /** The bounds enclose x ^ y over the box. */
  lemma XorBoundsHold(size: nat, a: nat, b: nat, c: nat, d: nat, lo: nat, hi: nat, x: nat, y: nat)
    requires XorBounds(size, a, b, c, d, lo, hi) && InBox(a, b, c, d, x, y)
    ensures lo <= Xor(x, y) <= hi
  {
    hide And, Or, Xor, OrOfLeast, OrUpToMost;
    var mask := Pow2(size) - 1;
    XorAsSum(x, y, size);
    OrOfLeastBelow(a, b, mask - d, mask - c, mask - b, mask - a, c, d, lo, x, mask - y, mask - x, y);
    OrUpToMostAbove(a, b, mask - d, mask - c, mask - b, mask - a, c, d, hi, x, mask - y, mask - x, y);
  }

  /** Bounds of x ^ y over the box, from those of x & ~y and ~x & y. */
  method RangeXor(size: nat, xMin: nat, xMax: nat, yMin: nat, yMax: nat) returns (lo: nat, hi: nat)
    requires xMin <= xMax < Pow2(size) && yMin <= yMax < Pow2(size)
    ensures lo <= hi < Pow2(size) && XorBounds(size, xMin, xMax, yMin, yMax, lo, hi)
    ensures forall x, y :: InBox(xMin, xMax, yMin, yMax, x, y) ==> lo <= Xor(x, y) <= hi
  {
    hide And, Or, Xor;
    var mask := Pow2(size) - 1;
    var m1 := RangeAndMin(size, xMin, xMax, mask - yMax, mask - yMin);
    assert IsLeastAnd(xMin, xMax, mask - yMax, mask - yMin, m1);
    var m2 := RangeAndMin(size, mask - xMax, mask - xMin, yMin, yMax);
    assert IsLeastAnd(mask - xMax, mask - xMin, yMin, yMax, m2);
    var u1 := RangeAndMax(size, xMin, xMax, mask - yMax, mask - yMin);
    assert IsMostAnd(xMin, xMax, mask - yMax, mask - yMin, u1);
    var u2 := RangeAndMax(size, mask - xMax, mask - xMin, yMin, yMax);
    assert IsMostAnd(mask - xMax, mask - xMin, yMin, yMax, u2);
    BelowMask(size, xMin, xMax, mask - yMax, mask - yMin, u1);
    BelowMask(size, mask - xMax, mask - xMin, yMin, yMax, u2);
    lo := Or(m1, m2);
    hi := RangeOrMax(size, 0, u1, 0, u2);
    assert IsMostOr(0, u1, 0, u2, hi);
    forall x, y | InBox(xMin, xMax, yMin, yMax, x, y)
      ensures lo <= Xor(x, y) <= hi
    {
      XorBoundsHold(size, xMin, xMax, yMin, yMax, lo, hi, x, y);
    }
    assert InBox(xMin, xMax, yMin, yMax, xMin, yMin);
    ghost var x, y :| InBox(0, u1, 0, u2, x, y) && Or(x, y) == hi;
    OrBelow(x, y, size);
  }

  /** On single values the bounds are the value. */
  lemma XorBoundsOne(size: nat, x: nat, y: nat, lo: nat, hi: nat)
    requires XorBounds(size, x, x, y, y, lo, hi)
    ensures lo == Xor(x, y) == hi
  {
    hide And, Or, Xor, OrOfLeast, OrUpToMost;
    var mask := Pow2(size) - 1;
    XorAsSum(x, y, size);
    OneLeast(x, mask - y, mask - x, y, lo);
    OneMost(x, mask - y, mask - x, y, hi);
  }

  lemma OneLeast(x: nat, y: nat, x': nat, y': nat, r: nat)
    requires OrOfLeast(x, x, y, y, x', x', y', y', r)
    ensures r == Or(And(x, y), And(x', y'))
  {
    hide And, Or;
    var m, m' :| IsLeastAnd(x, x, y, y, m) && IsLeastAnd(x', x', y', y', m') && r == Or(m, m');
    OneAnd(x, y, m);
    OneAnd(x', y', m');
  }

  lemma OneAnd(x: nat, y: nat, m: nat)
    requires IsLeastAnd(x, x, y, y, m) || IsMostAnd(x, x, y, y, m)
    ensures m == And(x, y)
  {
    hide And;
  }

  lemma OneMost(x: nat, y: nat, x': nat, y': nat, r: nat)
    requires OrUpToMost(x, x, y, y, x', x', y', y', r) && Or(And(x, y), And(x', y')) == And(x, y) + And(x', y')
    ensures r == Or(And(x, y), And(x', y'))
  {
    hide And, Or;
    var u, u' :| IsMostAnd(x, x, y, y, u) && IsMostAnd(x', x', y', y', u') && IsMostOr(0, u, 0, u', r);
    OneAnd(x, y, u);
    OneAnd(x', y', u');
    var v, v' :| InBox(0, u, 0, u', v, v') && Or(v, v') == r;
    OrBounds(v, v');
    assert InBox(0, u, 0, u', u, u');
  }

  lemma BelowMask(size: nat, a: nat, b: nat, c: nat, d: nat, r: nat)
    requires b < Pow2(size) && exists x, y :: InBox(a, b, c, d, x, y) && And(x, y) == r
    ensures r < Pow2(size)
  {
    var x, y :| InBox(a, b, c, d, x, y) && And(x, y) == r;
    AndBounds(x, y);
  }
}
