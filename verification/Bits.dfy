/**
 Bitwise operations and shifts on natural numbers of any width, and how they split at a
 bit position. Everything is defined by halving, so no proof needs more than linear arithmetic.
 */
module Bits {

  function Pow2(k: nat): (r: nat)
    ensures r >= 1
  {
    if k == 0 then 1 else 2 * Pow2(k - 1)
  }

  function And(x: nat, y: nat): (r: nat) {
    if x == 0 || y == 0 then 0 else 2 * And(x / 2, y / 2) + if x % 2 == 1 && y % 2 == 1 then 1 else 0
  }

  function Or(x: nat, y: nat): (r: nat) {
    if x == 0 then y else if y == 0 then x
    else 2 * Or(x / 2, y / 2) + if x % 2 == 1 || y % 2 == 1 then 1 else 0
  }

  function Xor(x: nat, y: nat): (r: nat) {
    if x == 0 then y else if y == 0 then x
    else 2 * Xor(x / 2, y / 2) + if x % 2 != y % 2 then 1 else 0
  }

  /** x shifted right by k bits. */
  function Shr(x: nat, k: nat): (r: nat) {
    if k == 0 then x else Shr(x / 2, k - 1)
  }

  /** x shifted left by k bits. */
  function Shl(x: nat, k: nat): (r: nat) {
    if k == 0 then x else 2 * Shl(x, k - 1)
  }

  /** The k low bits of x. */
  function Low(x: nat, k: nat): (r: nat) {
    if k == 0 then 0 else 2 * Low(x / 2, k - 1) + x % 2
  }

  // ----- shifts -----

  lemma {:induction false} Split(x: nat, k: nat)
    ensures x == Shl(Shr(x, k), k) + Low(x, k) && Low(x, k) < Pow2(k)
  {
    if k > 0 { Split(x / 2, k - 1); }
  }

  lemma {:induction false} ShlNext(x: nat, k: nat)
    ensures Shl(x + 1, k) == Shl(x, k) + Pow2(k)
  {
    if k > 0 { ShlNext(x, k - 1); }
  }

  lemma {:induction false} ShlMono(x: nat, y: nat, k: nat)
    requires x <= y
    ensures Shl(x, k) <= Shl(y, k)
  {
    if k > 0 { ShlMono(x, y, k - 1); }
  }

  lemma {:induction false} ShrMono(x: nat, y: nat, k: nat)
    requires x <= y
    ensures Shr(x, k) <= Shr(y, k)
  {
    if k > 0 { ShrMono(x / 2, y / 2, k - 1); }
  }

  /** One more bit. */
  lemma {:induction false} ShrNext(x: nat, k: nat)
    ensures Shr(x, k + 1) == Shr(x, k) / 2
  {
    if k > 0 { ShrNext(x / 2, k - 1); }
  }

  lemma {:induction false} ShlOf(x: nat, lo: nat, k: nat)
    requires lo < Pow2(k)
    ensures Shr(Shl(x, k) + lo, k) == x && Low(Shl(x, k) + lo, k) == lo
  {
    if k > 0 {
      assert (Shl(x, k) + lo) / 2 == Shl(x, k - 1) + lo / 2;
      ShlOf(x, lo / 2, k - 1);
    }
  }

  lemma {:induction false} BelowPower(x: nat, k: nat)
    requires x < Pow2(k)
    ensures Shr(x, k) == 0 && Low(x, k) == x
  {
    if k > 0 { BelowPower(x / 2, k - 1); }
  }

  /** Comparing the high parts compares the numbers. */
  lemma HighLess(x: nat, y: nat, k: nat)
    requires Shr(x, k) < Shr(y, k)
    ensures x < y && x < Shl(Shr(y, k), k)
  {
    Split(x, k);
    Split(y, k);
    ShlNext(Shr(x, k), k);
    ShlMono(Shr(x, k) + 1, Shr(y, k), k);
  }

  lemma ShlPow(k: nat)
    ensures Shl(1, k) == Pow2(k)
  {
    ShlNext(0, k);
    ShlZero(k);
  }

  lemma {:induction false} ShlZero(k: nat)
    ensures Shl(0, k) == 0
  {
    if k > 0 { ShlZero(k - 1); }
  }

  lemma {:induction false} SmallSize(k: nat)
    ensures k < Pow2(k)
  {
    if k > 0 { SmallSize(k - 1); }
  }

  lemma {:induction false} PowMono(a: nat, b: nat)
    requires a <= b
    ensures Pow2(a) <= Pow2(b)
  {
    if a < b { PowMono(a, b - 1); }
  }

  lemma {:induction false} ShlBelow(x: nat, a: nat, b: nat)
    requires x < Pow2(a)
    ensures Shl(x, b) + Pow2(b) <= Pow2(a + b)
  {
    if b > 0 { ShlBelow(x, a, b - 1); }
  }

  // ----- low bit -----

  lemma OrHalf(x: nat, y: nat)
    ensures Or(x, y) / 2 == Or(x / 2, y / 2)
    ensures Or(x, y) % 2 == if x % 2 == 1 || y % 2 == 1 then 1 else 0
  {}

  lemma AndHalf(x: nat, y: nat)
    ensures And(x, y) / 2 == And(x / 2, y / 2)
    ensures And(x, y) % 2 == if x % 2 == 1 && y % 2 == 1 then 1 else 0
  {}

  lemma XorHalf(x: nat, y: nat)
    ensures Xor(x, y) / 2 == Xor(x / 2, y / 2)
    ensures Xor(x, y) % 2 == if x % 2 != y % 2 then 1 else 0
  {}

  lemma OrZero(x: nat)
    ensures Or(x, 0) == x && Or(0, x) == x
  {}

  lemma AndZero(x: nat)
    ensures And(x, 0) == 0 && And(0, x) == 0
  {}

  lemma XorZero(x: nat)
    ensures Xor(x, 0) == x && Xor(0, x) == x
  {}

  // ----- bounds -----

  lemma {:induction false} OrBounds(x: nat, y: nat)
    ensures x <= Or(x, y) && y <= Or(x, y) && Or(x, y) <= x + y
  {
    if x != 0 && y != 0 { OrBounds(x / 2, y / 2); }
  }

  lemma {:induction false} AndBounds(x: nat, y: nat)
    ensures And(x, y) <= x && And(x, y) <= y
  {
    if x != 0 && y != 0 { AndBounds(x / 2, y / 2); }
  }

  lemma {:induction false} OrBelow(x: nat, y: nat, k: nat)
    requires x < Pow2(k) && y < Pow2(k)
    ensures Or(x, y) < Pow2(k)
  {
    if k > 0 {
      OrBelow(x / 2, y / 2, k - 1);
      OrHalf(x, y);
    }
  }

  lemma {:induction false} XorBelow(x: nat, y: nat, k: nat)
    requires x < Pow2(k) && y < Pow2(k)
    ensures Xor(x, y) < Pow2(k)
  {
    if k > 0 {
      XorBelow(x / 2, y / 2, k - 1);
      XorHalf(x, y);
    }
  }

  lemma {:induction false} OrOnes(y: nat, k: nat)
    requires y < Pow2(k)
    ensures Or(Pow2(k) - 1, y) == Pow2(k) - 1
  {
    if k > 0 {
      OrOnes(y / 2, k - 1);
      OrHalf(Pow2(k) - 1, y);
    }
  }

  lemma {:induction false} AndOnes(y: nat, k: nat)
    requires y < Pow2(k)
    ensures And(Pow2(k) - 1, y) == y
  {
    if k > 0 {
      AndOnes(y / 2, k - 1);
      AndHalf(Pow2(k) - 1, y);
    }
  }

  lemma {:induction false} OrComm(x: nat, y: nat)
    ensures Or(x, y) == Or(y, x)
  {
    if x != 0 && y != 0 { OrComm(x / 2, y / 2); }
  }

  lemma {:induction false} AndComm(x: nat, y: nat)
    ensures And(x, y) == And(y, x)
  {
    if x != 0 && y != 0 { AndComm(x / 2, y / 2); }
  }

  // ----- splitting at bit k -----

  /** The parts of an or above and below bit k are the ors of the parts. */
  lemma {:induction false} OrParts(x: nat, y: nat, k: nat)
    ensures Shr(Or(x, y), k) == Or(Shr(x, k), Shr(y, k)) && Low(Or(x, y), k) == Or(Low(x, k), Low(y, k))
  {
    hide Or;
    OrZero(0);
    if k > 0 {
      OrParts(x / 2, y / 2, k - 1);
      OrHalf(x, y);
      OrHalf(Low(x, k), Low(y, k));
    }
  }

  lemma {:induction false} AndParts(x: nat, y: nat, k: nat)
    ensures Shr(And(x, y), k) == And(Shr(x, k), Shr(y, k)) && Low(And(x, y), k) == And(Low(x, k), Low(y, k))
  {
    hide And;
    AndZero(0);
    if k > 0 {
      AndParts(x / 2, y / 2, k - 1);
      AndHalf(x, y);
      AndHalf(Low(x, k), Low(y, k));
    }
  }

  lemma {:induction false} XorParts(x: nat, y: nat, k: nat)
    ensures Shr(Xor(x, y), k) == Xor(Shr(x, k), Shr(y, k))
  {
    hide Xor;
    if k > 0 {
      XorParts(x / 2, y / 2, k - 1);
      XorHalf(x, y);
    }
  }

  lemma {:induction false} AndMask(x: nat, k: nat)
    ensures And(x, Pow2(k) - 1) == Low(x, k)
  {
    hide And;
    if k == 0 {
      AndZero(x);
    } else {
      AndMask(x / 2, k - 1);
      AndHalf(x, Pow2(k) - 1);
      assert (Pow2(k) - 1) / 2 == Pow2(k - 1) - 1 && (Pow2(k) - 1) % 2 == 1;
    }
  }

  lemma {:induction false} OrJoin(x: nat, lo: nat, k: nat)
    requires lo < Pow2(k)
    ensures Or(Shl(x, k), lo) == Shl(x, k) + lo
  {
    hide Or;
    if k == 0 {
      OrZero(x);
    } else {
      OrJoin(x, lo / 2, k - 1);
      OrHalf(Shl(x, k), lo);
    }
  }

  /** An exclusive or is made of the bits set on one side only. */
  lemma {:induction false} XorAsSum(x: nat, y: nat, k: nat)
    requires x < Pow2(k) && y < Pow2(k)
    ensures Xor(x, y) == And(x, Pow2(k) - 1 - y) + And(Pow2(k) - 1 - x, y)
    ensures Xor(x, y) == Or(And(x, Pow2(k) - 1 - y), And(Pow2(k) - 1 - x, y))
  {
    hide And, Or, Xor;
    OrZero(0);
    AndZero(0);
    XorZero(0);
    if k > 0 {
      var m := Pow2(k) - 1;
      XorAsSum(x / 2, y / 2, k - 1);
      assert (m - y) / 2 == Pow2(k - 1) - 1 - y / 2 && (m - x) / 2 == Pow2(k - 1) - 1 - x / 2;
      assert (m - y) % 2 == 1 - y % 2 && (m - x) % 2 == 1 - x % 2;
      XorHalf(x, y);
      AndHalf(x, m - y);
      AndHalf(m - x, y);
      OrHalf(And(x, m - y), And(m - x, y));
    }
  }
}
