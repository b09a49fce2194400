/**
 Rewriting the decoder's index (factor_one_bit, factor_fields and factor_fields_all,
 miasm/core/cpu.py): chains of fields are joined, or fields are cut after their first bit so that
 siblings share it. Joining changes no lookup; one round of cuts changes none when they are harmless.
 */
module TrieFactor {
  import opened Bits
  import opened BitStrings
  import opened Codec
  import opened Trie

  // ----- streams -----

  /** Reading a + b bits is reading a bits, then b bits. */
  ghost predicate SplitsAt(r: Reader, off: int, a: nat, b: nat) {
    var v1, v2, v := r.read(off, a), r.read(off + a, b), r.read(off, a + b);
    && (v.Some? <==> v1.Some? && v2.Some?)
    && (v.Some? ==> v2.value < Pow2(b) && v.value == Shl(v1.value, b) + v2.value)
  }

  ghost predicate Splits(r: Reader) {
    forall off, a: nat, b: nat :: SplitsAt(r, off, a, b)
  }

  /** Bit streams at their start are read that way. */
  lemma StreamSplits(r: Reader, bin: seq<nat>, offset: int, base: int)
    requires offset <= base && forall off, n: nat :: r.read(off, n) == ReadBits(bin, offset, base, off, n)
    ensures Splits(r)
  {
    hide ReadBits, SplitsAt;
    forall off, a: nat, b: nat
      ensures SplitsAt(r, off, a, b)
    {
      ReadSplits(r, bin, offset, base, off, a, b);
    }
  }

  lemma ReadSplits(r: Reader, bin: seq<nat>, offset: int, base: int, off: int, a: nat, b: nat)
    requires offset <= base && forall off, n: nat :: r.read(off, n) == ReadBits(bin, offset, base, off, n)
    ensures SplitsAt(r, off, a, b)
  {
    hide ValueOf, ByteBits, Shl, Pow2, ReadBits;
    assert r.read(off, a) == ReadBits(bin, offset, base, off, a);
    assert r.read(off + a, b) == ReadBits(bin, offset, base, off + a, b);
    assert r.read(off, a + b) == ReadBits(bin, offset, base, off, a + b);
    ReadJoins(bin, offset, base, off, a, b);
  }

  lemma ReadJoins(bin: seq<nat>, offset: int, base: int, off: int, a: nat, b: nat)
    requires offset <= base
    ensures var v1, v2, v := ReadBits(bin, offset, base, off, a), ReadBits(bin, offset, base, off + a, b),
      ReadBits(bin, offset, base, off, a + b);
      && (v.Some? <==> v1.Some? && v2.Some?)
      && (v.Some? ==> v2.value < Pow2(b) && v.value == Shl(v1.value, b) + v2.value)
  {
    hide ValueOf, ByteBits, Shl, Pow2;
    NoShift();
    ShlZero(b);
    if a > 0 && b > 0 {
      var all, i := ByteBits(bin), off - 8 * base;
      if 0 <= i && i + a + b <= |all| {
        var one, two := all[i..i + a], all[i + a..i + a + b];
        assert all[i..i + (a + b)] == one + two;
        ValueSplit(one, two);
        BitsOfValue(two);
      }
    } else if b > 0 && ReadBits(bin, offset, base, off, b).Some? {
      BitsOfValue(ByteBits(bin)[off - 8 * base..off - 8 * base + b]);
    }
  }

  lemma NoShift()
    ensures forall v: nat :: Shl(v, 0) == v
    ensures Pow2(0) == 1
  {}

  // ----- masks -----

  /** A masked comparison is one on the high bits and one on the low bits. */
  lemma MaskParts(v1: nat, v2: nat, b: nat, fmask: nat, fbits: nat)
    requires v2 < Pow2(b)
    ensures And(Shl(v1, b) + v2, fmask) == fbits <==>
      And(v1, Shr(fmask, b)) == Shr(fbits, b) && And(v2, Low(fmask, b)) == Low(fbits, b)
  {
    hide And, Shl, Shr, Low, Pow2;
    var v := Shl(v1, b) + v2;
    ShlOf(v1, v2, b);
    AndParts(v, fmask, b);
    Split(And(v, fmask), b);
    Split(fbits, b);
  }

  // ----- trees without length functions -----

  ghost predicate NoLens(t: Tree) {
    forall k :: k in t.branches ==> k.flen.None? && NoLens(t.branches[k])
  }

  /** Every field has a name, as bs objects do. */
  ghost predicate Named(t: Tree) {
    forall k :: k in t.branches ==> k.fname.Some? && Named(t.branches[k])
  }

  /** Masks and fixed bits fit the width of their field. */
  ghost predicate Narrow(t: Tree) {
    forall k :: k in t.branches ==> NarrowKey(k) && Narrow(t.branches[k])
  }

  ghost predicate NarrowKey(k: Key) {
    k.fmask < Pow2(k.l) && k.fbits < Pow2(k.l)
  }

  /** Names do not matter without length functions. */
  lemma {:induction false} NamesUnused(r: Reader, t: Tree, s: State, s': State, c: Cand)
    requires NoLens(t) && s.off == s'.off
    ensures Hit(r, t, s, c) <==> Hit(r, t, s', c)
    decreases t
  {
    forall k | k in t.branches
      ensures HitKey(r, t, k, s, c) <==> HitKey(r, t, k, s', c)
    {
      if Step(r, k, s).Some? {
        NamesUnused(r, t.branches[k], Step(r, k, s).value, Step(r, k, s').value, c);
      }
    }
  }

  /** Both trees give the same candidates at every place of every stream. */
  ghost predicate SameHits(t: Tree, t': Tree) {
    forall r: Reader, s, c :: Splits(r) ==> (Hit(r, t, s, c) <==> Hit(r, t', s, c))
  }

  // ----- depth -----

  function Max(a: nat, b: nat): (r: nat) {
    if a < b then b else a
  }

  /** The widths on the longest way down the branches ks of t. */
  ghost function Deepest(t: Tree, ks: set<Key>): (n: nat)
    requires ks <= t.branches.Keys
    decreases t, |ks|
  {
    if ks == {} then 0
    else
      var k :| k in ks;
      Max(1 + k.l + Deepest(t.branches[k], t.branches[k].branches.Keys), Deepest(t, ks - {k}))
  }

  ghost function Depth(t: Tree): (n: nat) {
    Deepest(t, t.branches.Keys)
  }

  lemma DeepestOf(t: Tree, ks: set<Key>) returns (k: Key)
    requires ks <= t.branches.Keys && ks != {}
    ensures k in ks && Deepest(t, ks) == Max(1 + k.l + Depth(t.branches[k]), Deepest(t, ks - {k}))
  {
    k :| k in ks
      && Deepest(t, ks) == Max(1 + k.l + Deepest(t.branches[k], t.branches[k].branches.Keys), Deepest(t, ks - {k}));
  }

  lemma {:induction false} DeepestBelow(t: Tree, ks: set<Key>, k: Key)
    requires ks <= t.branches.Keys && k in ks
    ensures 1 + k.l + Depth(t.branches[k]) <= Deepest(t, ks)
    decreases |ks|
  {
    hide Deepest, Depth;
    var k0 := DeepestOf(t, ks);
    if k0 != k { DeepestBelow(t, ks - {k0}, k); }
  }

  lemma DepthBelow(t: Tree, k: Key)
    requires k in t.branches
    ensures 1 + k.l + Depth(t.branches[k]) <= Depth(t)
  {
    DeepestBelow(t, t.branches.Keys, k);
  }

  lemma {:induction false} DeepestLeast(t: Tree, ks: set<Key>, n: nat)
    requires ks <= t.branches.Keys && forall k :: k in ks ==> 1 + k.l + Depth(t.branches[k]) <= n
    ensures Deepest(t, ks) <= n
    decreases |ks|
  {
    if ks != {} {
      hide Deepest, Depth;
      var k0 := DeepestOf(t, ks);
      DeepestLeast(t, ks - {k0}, n);
    }
  }

  lemma DepthLeast(t: Tree, n: nat)
    requires forall k :: k in t.branches ==> 1 + k.l + Depth(t.branches[k]) <= n
    ensures Depth(t) <= n
  {
    DeepestLeast(t, t.branches.Keys, n);
  }

  // ----- joining chains of fields -----

  lemma OnlyKey(t: Tree, k: Key, k': Key)
    requires |t.branches| == 1 && k in t.branches && k' in t.branches
    ensures k == k'
  {
    assert |t.branches.Keys - {k}| == 0;
    assert k' in t.branches.Keys;
  }

  /** The key of a tree that has nothing else. */
  function Sole(t: Tree): (k: Option<Key>)
    ensures k.Some? ==> t.mn == {} && t.branches.Keys == {k.value}
    ensures k.Some? <==> t.mn == {} && |t.branches| == 1
  {
    if t.mn != {} || |t.branches| != 1 then None
    else
      assert t.branches.Keys != {};
      assert forall k, k' :: k in t.branches && k' in t.branches ==> k == k' by {
        forall k, k' | k in t.branches && k' in t.branches
          ensures k == k'
        {
          OnlyKey(t, k, k');
        }
      }
      var k :| k in t.branches.Keys;
      Some(k)
  }

  predicate Joinable(k: Key) {
    k.fname.None? && k.flen.None?
  }

  function Joined(k1: Key, k2: Key): (k: Key) {
    Key(k1.l + k2.l, Or(Shl(k1.fmask, k2.l), k2.fmask), Or(Shl(k1.fbits, k2.l), k2.fbits), k2.fname, k2.flen)
  }

  /** A lone unnamed field followed by a lone unnamed field is one field. */
  function FactorFields(t: Tree): (t': Tree) {
    var k1 := Sole(t);
    if k1.None? || !Joinable(k1.value) then t
    else
      var v1 := t.branches[k1.value];
      var k2 := Sole(v1);
      if k2.None? || !Joinable(k2.value) then t
      else Tree(map[Joined(k1.value, k2.value) := v1.branches[k2.value]], {})
  }

  lemma FactorFieldsDepth(t: Tree)
    ensures Depth(FactorFields(t)) <= Depth(t)
  {
    hide Depth, Deepest;
    var t', k1 := FactorFields(t), Sole(t);
    if t' != t {
      var v1 := t.branches[k1.value];
      var k2 := Sole(v1).value;
      DepthBelow(t, k1.value);
      DepthBelow(v1, k2);
      DepthLeast(t', Depth(t));
    }
  }

  function FactorFieldsAll(t: Tree): (t': Tree)
    decreases Depth(t)
  {
    Tree(map k | k in t.branches ::
      DepthBelow(t, k);
      FactorFieldsDepth(t.branches[k]);
      FactorFieldsAll(FactorFields(t.branches[k])), t.mn)
  }

  lemma JoinedStep(r: Reader, k1: Key, k2: Key, s: State)
    requires Splits(r) && Joinable(k1) && Joinable(k2) && NarrowKey(k2)
    ensures Step(r, Joined(k1, k2), s) ==
      if Step(r, k1, s).Some? then Step(r, k2, Step(r, k1, s).value) else None
  {
    hide Shl, Pow2, And, Or, Splits;
    assert SplitsAt(r, s.off, k1.l, k2.l) by { SplitsEverywhere(r, s.off, k1.l, k2.l); }
    var v1, v2 := r.read(s.off, k1.l), r.read(s.off + k1.l, k2.l);
    JoinedMask(k1.fmask, k2.fmask, k2.l);
    JoinedMask(k1.fbits, k2.fbits, k2.l);
    if v1.Some? && v2.Some? {
      MaskParts(v1.value, v2.value, k2.l, Joined(k1, k2).fmask, Joined(k1, k2).fbits);
    }
  }

  lemma SplitsEverywhere(r: Reader, off: int, a: nat, b: nat)
    requires Splits(r)
    ensures SplitsAt(r, off, a, b)
  {}

  lemma JoinedMask(m1: nat, m2: nat, l: nat)
    requires m2 < Pow2(l)
    ensures Or(Shl(m1, l), m2) == Shl(m1, l) + m2 && Shr(Or(Shl(m1, l), m2), l) == m1 && Low(Or(Shl(m1, l), m2), l) == m2
  {
    hide *;
    OrJoin(m1, m2, l);
    ShlOf(m1, m2, l);
  }

  lemma FactorFieldsSame(t: Tree)
    requires Narrow(t)
    ensures SameHits(t, FactorFields(t))
  {
    var t' := FactorFields(t);
    forall r: Reader, s, c | Splits(r)
      ensures Hit(r, t, s, c) <==> Hit(r, t', s, c)
    {
      if t' != t {
        JoinedHit(r, t, s, c);
      }
    }
  }

  lemma HitSole(r: Reader, t: Tree, k: Key, s: State, c: Cand)
    requires t.mn == {} && t.branches.Keys == {k}
    ensures Hit(r, t, s, c) <==> HitKey(r, t, k, s, c)
  {
    hide Step;
    assert forall k' :: k' in t.branches ==> k' in t.branches.Keys;
    assert forall k' :: HitKey(r, t, k', s, c) ==> k' == k;
  }

  lemma JoinedHit(r: Reader, t: Tree, s: State, c: Cand)
    requires Splits(r) && Narrow(t) && FactorFields(t) != t
    ensures Hit(r, t, s, c) <==> Hit(r, FactorFields(t), s, c)
  {
    hide Splits, Step, Sole, Joined, Hit;
    var k1 := Sole(t).value;
    var v1 := t.branches[k1];
    var k2 := Sole(v1).value;
    var t' := FactorFields(t);
    assert NarrowKey(k2) by { assert Narrow(v1); }
    JoinedStep(r, k1, k2, s);
    HitSole(r, t, k1, s, c);
    HitSole(r, t', Joined(k1, k2), s, c);
    if Step(r, k1, s).Some? {
      HitSole(r, v1, k2, Step(r, k1, s).value, c);
    }
  }

  lemma JoinedNarrow(k1: Key, k2: Key)
    requires NarrowKey(k1) && NarrowKey(k2)
    ensures NarrowKey(Joined(k1, k2))
  {
    hide Shl, Or, Pow2;
    JoinedMask(k1.fmask, k2.fmask, k2.l);
    JoinedMask(k1.fbits, k2.fbits, k2.l);
    ShlBelow(k1.fmask, k1.l, k2.l);
    ShlBelow(k1.fbits, k1.l, k2.l);
  }

  lemma FactorFieldsNarrow(t: Tree)
    requires Narrow(t)
    ensures Narrow(FactorFields(t))
  {
    hide Sole, NarrowKey, Joined;
    if FactorFields(t) != t {
      var k1 := Sole(t).value;
      var v1 := t.branches[k1];
      var k2 := Sole(v1).value;
      assert Narrow(v1);
      JoinedNarrow(k1, k2);
    }
  }

  /** Trees with the same keys and equivalent sub-trees are equivalent. */
  lemma SameBelow(t: Tree, t': Tree)
    requires t'.mn == t.mn && t'.branches.Keys == t.branches.Keys
    requires forall k :: k in t.branches ==> SameHits(t.branches[k], t'.branches[k])
    ensures SameHits(t, t')
  {
    forall r: Reader, s, c | Splits(r)
      ensures Hit(r, t, s, c) <==> Hit(r, t', s, c)
    {
      hide Splits, Step;
      assert forall k :: k in t.branches <==> k in t.branches.Keys;
      assert forall k :: k in t'.branches <==> k in t'.branches.Keys;
      forall k
        ensures HitKey(r, t, k, s, c) <==> HitKey(r, t', k, s, c)
      {
        if k in t.branches { assert SameHits(t.branches[k], t'.branches[k]); }
      }
    }
  }

  lemma SameTrans(t1: Tree, t2: Tree, t3: Tree)
    requires SameHits(t1, t2) && SameHits(t2, t3)
    ensures SameHits(t1, t3)
  {
    hide Splits, Hit;
  }

  /** Joining fields all over the tree changes no lookup. */
  lemma {:induction false} FactorFieldsAllSame(t: Tree)
    requires Narrow(t)
    ensures SameHits(t, FactorFieldsAll(t))
    decreases Depth(t)
  {
    var t' := FactorFieldsAll(t);
    forall k | k in t.branches
      ensures SameHits(t.branches[k], t'.branches[k])
    {
      hide Depth, SameHits, FactorFields;
      var v := t.branches[k];
      DepthBelow(t, k);
      FactorFieldsDepth(v);
      FactorFieldsNarrow(v);
      FactorFieldsSame(v);
      FactorFieldsAllSame(FactorFields(v));
      SameTrans(v, FactorFields(v), FactorFieldsAll(FactorFields(v)));
    }
    SameBelow(t, t');
  }

  /** t has one branch and nothing else, an unnamed field of fixed length. */
  ghost predicate Lone(t: Tree, k: Key) {
    k in t.branches && t.mn == {} && t.branches.Keys == {k} && k.fname.None? && k.flen.None?
  }

  /** How many such fields follow each other from the root. */
  ghost function Chain(t: Tree): (n: nat) {
    if exists k :: Lone(t, k) then
      var k :| Lone(t, k);
      assert k in t.branches;
      1 + Chain(t.branches[k])
    else 0
  }

  lemma ChainStep(t: Tree, k: Key)
    requires Lone(t, k)
    ensures k in t.branches && Chain(t) == 1 + Chain(t.branches[k])
  {
    assert k in t.branches.Keys;
    assert forall k' :: Lone(t, k') ==> k' in t.branches.Keys && k' == k;
  }

  lemma LoneSole(t: Tree, k: Key)
    ensures Lone(t, k) <==> Sole(t) == Some(k) && Joinable(k)
  {
    if Lone(t, k) { assert |t.branches.Keys| == 1; }
  }

  lemma JoinsTwo(t: Tree, k1: Key, k2: Key)
    requires Lone(t, k1) && Lone(t.branches[k1], k2)
    ensures k2 in t.branches[k1].branches
    ensures FactorFields(t) == Tree(map[Joined(k1, k2) := t.branches[k1].branches[k2]], {})
    ensures Lone(FactorFields(t), Joined(k1, k2))
  {
    hide Or, Shl;
    LoneSole(t, k1);
    LoneSole(t.branches[k1], k2);
  }

  lemma JoinsNothing(t: Tree)
    requires forall k1, k2 :: !(Lone(t, k1) && k1 in t.branches && Lone(t.branches[k1], k2))
    ensures FactorFields(t) == t
  {
    var k1 := Sole(t);
    if k1.Some? {
      LoneSole(t, k1.value);
      var k2 := Sole(t.branches[k1.value]);
      if k2.Some? { LoneSole(t.branches[k1.value], k2.value); }
    }
  }

  /** Every chain of joinable fields below a branch becomes half as long: fields are joined two by two. */
  lemma {:induction false} ChainHalved(t: Tree)
    ensures Chain(FactorFieldsAll(FactorFields(t))) == (Chain(t) + 1) / 2
    decreases t
  {
    hide FactorFieldsAll, FactorFields, Chain, Joined;
    if k1 :| Lone(t, k1) {
      ChainStep(t, k1);
      var v1 := t.branches[k1];
      if k2 :| Lone(v1, k2) {
        ChainStep(v1, k2);
        JoinsTwo(t, k1, k2);
        JoinedUnder(FactorFields(t), Joined(k1, k2));
        ChainHalved(v1.branches[k2]);
      } else {
        JoinsNothing(t);
        JoinedUnder(t, k1);
        NoChain(v1);
        ChainHalved(v1);
      }
    } else {
      JoinsNothing(t);
      NoChain(t);
      JoinedAll(t);
      var r := FactorFieldsAll(t);
      assert forall k :: k in r.branches <==> k in r.branches.Keys;
      assert forall k :: Lone(r, k) ==> Lone(t, k);
      NoChain(r);
    }
  }

  lemma NoChain(t: Tree)
    requires forall k :: !Lone(t, k)
    ensures Chain(t) == 0
  {}

  /** The branches stay, and what is below them is rewritten. */
  lemma JoinedAll(t: Tree)
    ensures FactorFieldsAll(t).mn == t.mn && FactorFieldsAll(t).branches.Keys == t.branches.Keys
    ensures forall k :: k in t.branches ==> FactorFieldsAll(t).branches[k] == FactorFieldsAll(FactorFields(t.branches[k]))
  {}

  lemma JoinedUnder(t: Tree, k: Key)
    requires Lone(t, k)
    ensures k in t.branches && Chain(FactorFieldsAll(t)) == 1 + Chain(FactorFieldsAll(FactorFields(t.branches[k])))
  {
    hide FactorFieldsAll, FactorFields, Chain;
    JoinedAll(t);
    assert k in t.branches.Keys;
    ChainStep(FactorFieldsAll(t), k);
  }

  /** So for the whole tree. */
  lemma ChainsHalved(t: Tree, k: Key)
    ensures k in FactorFieldsAll(t).branches <==> k in t.branches
    ensures k in t.branches ==> Chain(FactorFieldsAll(t).branches[k]) == (Chain(t.branches[k]) + 1) / 2
  {
    hide FactorFieldsAll, FactorFields, Chain;
    JoinedAll(t);
    if k in t.branches { ChainHalved(t.branches[k]); }
    assert k in FactorFieldsAll(t).branches <==> k in FactorFieldsAll(t).branches.Keys;
  }

  // ----- cutting fields after their first bit -----

  predicate Kept(k: Key) {
    k.flen.Some? || k.l <= 1
  }

  function Head(k: Key): (k': Key)
    requires !Kept(k)
  {
    Key(1, Shr(k.fmask, k.l - 1), Shr(k.fbits, k.l - 1), None, k.flen)
  }

  function Rest(k: Key): (k': Key)
    requires !Kept(k)
  {
    ShlPow(k.l - 1);
    Key(k.l - 1, And(k.fmask, Shl(1, k.l - 1) - 1), And(k.fbits, Shl(1, k.l - 1) - 1), k.fname, k.flen)
  }

  lemma RestLow(k: Key)
    requires !Kept(k)
    ensures Rest(k).fmask == Low(k.fmask, k.l - 1) && Rest(k).fbits == Low(k.fbits, k.l - 1)
  {
    hide And, Shl, Pow2, Low;
    ShlPow(k.l - 1);
    AndMask(k.fmask, k.l - 1);
    AndMask(k.fbits, k.l - 1);
  }

  /** The two parts tell the field. */
  lemma PartsTell(k: Key, k': Key)
    requires !Kept(k) && !Kept(k') && Head(k) == Head(k') && Rest(k) == Rest(k')
    ensures k == k'
  {
    RestLow(k);
    RestLow(k');
    hide Rest, Shl, Low, Shr;
    RestSame(k);
    RestSame(k');
    Split(k.fmask, k.l - 1);
    Split(k'.fmask, k.l - 1);
    Split(k.fbits, k.l - 1);
    Split(k'.fbits, k.l - 1);
  }

  lemma RestSame(k: Key)
    requires !Kept(k)
    ensures Rest(k).l == k.l - 1 && Rest(k).fname == k.fname && Rest(k).flen == k.flen
  {}

  /** The first bit of the field may be one. */
  predicate High(k: Key)
    requires !Kept(k)
  {
    And(1, Head(k).fmask) == Head(k).fbits
  }

  lemma OneBit(r: Reader, off: int)
    requires Splits(r)
    ensures r.read(off, 1).Some? ==> r.read(off, 1).value < 2
  {
    SplitsEverywhere(r, off, 0, 1);
    assert Pow2(1) == 2;
  }

  /** Reading the parts one after the other is reading the field, but for the value under its name. */
  lemma PartsStep(r: Reader, k: Key, s: State)
    requires Splits(r) && !Kept(k)
    ensures Step(r, k, s).Some? <==> Step(r, Head(k), s).Some? && Step(r, Rest(k), Step(r, Head(k), s).value).Some?
    ensures Step(r, k, s).Some? ==> Step(r, Rest(k), Step(r, Head(k), s).value).value.off == Step(r, k, s).value.off
    ensures Step(r, k, s).Some? && !High(k) ==> Step(r, Rest(k), Step(r, Head(k), s).value) == Step(r, k, s)
  {
    hide Shl, Pow2, And, Shr, Low, Splits, Rest;
    RestLow(k);
    RestSame(k);
    SplitsEverywhere(r, s.off, 1, k.l - 1);
    OneBit(r, s.off);
    ShlZero(k.l - 1);
    var v1, v2 := r.read(s.off, 1), r.read(s.off + 1, k.l - 1);
    assert 1 + (k.l - 1) == k.l;
    if v1.Some? && v2.Some? {
      MaskParts(v1.value, v2.value, k.l - 1, k.fmask, k.fbits);
    }
  }

  ghost predicate CutFrom(k: Key, g: Key, nk: Key) {
    !Kept(k) && Head(k) == g && Rest(k) == nk
  }

  /** Where m has what it keeps of branch k of t. */
  ghost predicate Holds(t: Tree, m: map<Key, Tree>, k: Key)
    requires k in t.branches
  {
    if Kept(k) then k in m && m[k] == t.branches[k]
    else Head(k) in m && Rest(k) in m[Head(k)].branches && m[Head(k)].branches[Rest(k)] == t.branches[k]
  }

  ghost predicate HasOrigin(done: set<Key>, g: Key, nk: Key) {
    exists k :: k in done && CutFrom(k, g, nk)
  }

  ghost predicate Comes(t: Tree, done: set<Key>, m: map<Key, Tree>, g: Key)
    requires g in m
  {
    || (g in done && Kept(g) && g.fname.Some?)
    || (g.fname.None? && m[g].mn == {} && m[g].branches != map[] && forall nk :: nk in m[g].branches ==> HasOrigin(done, g, nk))
  }

  /** m holds the branches done of t, cut, and nothing else. */
  ghost predicate Cut(t: Tree, done: set<Key>, m: map<Key, Tree>) {
    && (forall k :: k in done ==> k in t.branches && k.fname.Some? && Holds(t, m, k))
    && (forall g :: g in m ==> Comes(t, done, m, g))
  }

  /** Every field has a length function or at most one bit. */
  ghost predicate ShortKeys(m: map<Key, Tree>) {
    forall k :: k in m ==> k.flen.Some? || k.l <= 1
  }

  /** No field is empty. */
  ghost predicate Filled(t: Tree) {
    forall k :: k in t.branches ==> k.l > 0 && Filled(t.branches[k])
  }

  ghost predicate AllFilled(m: map<Key, Tree>) {
    forall g :: g in m ==> g.l > 0 && Filled(m[g])
  }

  lemma FilledMore(m: map<Key, Tree>, g: Key, v: Tree)
    requires AllFilled(m) && g.l > 0 && Filled(v)
    ensures AllFilled(m[g := v])
  {
    hide Filled;
  }

  lemma FilledBelow(t: Tree, k: Key, v: Tree)
    requires Filled(t) && k.l > 0 && Filled(v)
    ensures Filled(Tree(t.branches[k := v], t.mn))
  {}

  lemma CutFilled(t: Tree, m: map<Key, Tree>, k: Key)
    requires Filled(t) && AllFilled(m) && k in t.branches
    ensures Kept(k) ==> AllFilled(m[k := t.branches[k]])
    ensures !Kept(k) ==> AllFilled(CutIn(m, k, t.branches[k]))
  {
    var v := t.branches[k];
    assert k.l > 0 && Filled(v);
    if Kept(k) {
      FilledMore(m, k, v);
    } else {
      var sub := if Head(k) in m then m[Head(k)] else Tree(map[], {});
      RestSame(k);
      assert Filled(sub);
      hide Rest, Filled, AllFilled;
      FilledBelow(sub, Rest(k), v);
      FilledMore(m, Head(k), Tree(sub.branches[Rest(k) := v], sub.mn));
    }
  }

  function CutIn(m: map<Key, Tree>, k: Key, v: Tree): (m': map<Key, Tree>)
    requires !Kept(k)
  {
    var sub := if Head(k) in m then m[Head(k)] else Tree(map[], {});
    m[Head(k) := Tree(sub.branches[Rest(k) := v], sub.mn)]
  }

  /** The cut-off first bit and the rest of a field are new. */
  lemma CutNew(t: Tree, done: set<Key>, m: map<Key, Tree>, k: Key)
    requires Cut(t, done, m) && k !in done && k in t.branches && k.fname.Some?
    ensures Kept(k) ==> k !in m
    ensures !Kept(k) && Head(k) in m ==> Rest(k) !in m[Head(k)].branches
  {
    hide Rest;
    if Kept(k) {
      assert k in m ==> Comes(t, done, m, k);
    } else if Head(k) in m {
      assert Comes(t, done, m, Head(k));
      if Rest(k) in m[Head(k)].branches {
        assert HasOrigin(done, Head(k), Rest(k));
        var k' :| k' in done && CutFrom(k', Head(k), Rest(k));
        PartsTell(k, k');
      }
    }
  }

  lemma KeepStep(t: Tree, done: set<Key>, m: map<Key, Tree>, k: Key)
    requires Cut(t, done, m) && k !in done && k in t.branches && k.fname.Some? && Kept(k)
    ensures Cut(t, done + {k}, m[k := t.branches[k]])
  {
    hide Rest;
    CutNew(t, done, m, k);
    var m', done' := m[k := t.branches[k]], done + {k};
    forall g | g in m'
      ensures Comes(t, done', m', g)
    {
      if g != k {
        assert Comes(t, done, m, g);
        OriginMore(done, k, g);
      }
    }
    forall x | x in done'
      ensures x in t.branches && x.fname.Some? && Holds(t, m', x)
    {
      if x != k { assert Holds(t, m, x); }
    }
  }

  lemma OriginMore(done: set<Key>, k: Key, g: Key)
    ensures forall nk :: HasOrigin(done, g, nk) ==> HasOrigin(done + {k}, g, nk)
  {
    forall nk | HasOrigin(done, g, nk)
      ensures HasOrigin(done + {k}, g, nk)
    {
      var x :| x in done && CutFrom(x, g, nk);
      assert x in done + {k};
    }
  }

  lemma CutStep(t: Tree, done: set<Key>, m: map<Key, Tree>, k: Key)
    requires Cut(t, done, m) && k !in done && k in t.branches && k.fname.Some? && !Kept(k)
    ensures Cut(t, done + {k}, CutIn(m, k, t.branches[k]))
  {
    hide Cut, Rest;
    CutNew(t, done, m, k);
    var m', done' := CutIn(m, k, t.branches[k]), done + {k};
    forall g | g in m'
      ensures Comes(t, done', m', g)
    {
      CutComes(t, done, m, k, g);
    }
    forall x | x in done'
      ensures x in t.branches && x.fname.Some? && Holds(t, m', x)
    {
      CutHolds(t, done, m, k, x);
    }
    assert Cut(t, done', m') by { Gathered(t, done', m'); }
  }

  lemma Gathered(t: Tree, done: set<Key>, m: map<Key, Tree>)
    requires forall k :: k in done ==> k in t.branches && k.fname.Some? && Holds(t, m, k)
    requires forall g :: g in m ==> Comes(t, done, m, g)
    ensures Cut(t, done, m)
  {}

  lemma CutComes(t: Tree, done: set<Key>, m: map<Key, Tree>, k: Key, g: Key)
    requires Cut(t, done, m) && !Kept(k) && k in t.branches && g in CutIn(m, k, t.branches[k])
    ensures Comes(t, done + {k}, CutIn(m, k, t.branches[k]), g)
  {
    hide Rest;
    OriginMore(done, k, g);
    if g in m { assert Comes(t, done, m, g); }
    if g == Head(k) {
      assert CutFrom(k, g, Rest(k)) && k in done + {k};
      assert HasOrigin(done + {k}, g, Rest(k));
      assert Rest(k) in CutIn(m, k, t.branches[k])[g].branches;
    }
  }

  lemma CutHolds(t: Tree, done: set<Key>, m: map<Key, Tree>, k: Key, x: Key)
    requires Cut(t, done, m) && !Kept(k) && k in t.branches && k !in done && x in done + {k} && k.fname.Some?
    requires Head(k) in m ==> Rest(k) !in m[Head(k)].branches
    ensures x in t.branches && x.fname.Some? && Holds(t, CutIn(m, k, t.branches[k]), x)
  {
    hide Rest;
    if x != k {
      assert Holds(t, m, x);
      assert x.fname.Some?;
    }
  }

  /** Every sub-tree made by cutting is less deep than the tree. */
  ghost predicate Shallow(m: map<Key, Tree>, n: nat) {
    forall g :: g in m ==> Depth(m[g]) < n
  }

  lemma CutShallow(t: Tree, m: map<Key, Tree>, k: Key)
    requires Shallow(m, Depth(t)) && k in t.branches && !Kept(k)
    ensures Shallow(CutIn(m, k, t.branches[k]), Depth(t))
  {
    hide Depth, Rest;
    DepthBelow(t, k);
    RestSame(k);
    var m' := CutIn(m, k, t.branches[k]);
    var sub := m'[Head(k)];
    forall nk | nk in sub.branches
      ensures 1 + nk.l + Depth(sub.branches[nk]) <= Depth(t) - 1
    {
      if nk != Rest(k) { DepthBelow(m[Head(k)], nk); }
    }
    DepthLeast(sub, Depth(t) - 1);
  }

  lemma KeepShallow(t: Tree, m: map<Key, Tree>, k: Key)
    requires Shallow(m, Depth(t)) && k in t.branches
    ensures Shallow(m[k := t.branches[k]], Depth(t))
  {
    hide Depth;
    DepthBelow(t, k);
  }

  /** The branches of t under their first bits; fails when two of them would meet. */
  method CutAll(t: Tree) returns (res: Option<map<Key, Tree>>)
    ensures res.Some? ==> Shallow(res.value, Depth(t)) && ShortKeys(res.value) && (Filled(t) ==> AllFilled(res.value))
    ensures Named(t) ==> res.Some? && Cut(t, t.branches.Keys, res.value)
  {
    hide Shallow, Cut, Rest, Depth, Filled, AllFilled;
    var m: map<Key, Tree>, todo := map[], t.branches.Keys;
    assert Shallow(m, Depth(t)) && Cut(t, {}, m) && AllFilled(m) by { NothingCut(t); }
    assert t.branches.Keys - todo == {};
    while todo != {}
      invariant todo <= t.branches.Keys && Shallow(m, Depth(t)) && ShortKeys(m) && (Filled(t) ==> AllFilled(m))
      invariant Named(t) ==> Cut(t, t.branches.Keys - todo, m)
      decreases |todo|
    {
      var k :| k in todo;
      var rest := todo - {k};
      ghost var done := t.branches.Keys - todo;
      assert done + {k} == t.branches.Keys - rest;
      var v := t.branches[k];
      if Named(t) { CutNew(t, done, m, k); }
      if Filled(t) { CutFilled(t, m, k); }
      if Kept(k) {
        KeepShallow(t, m, k);
        if Named(t) { KeepStep(t, done, m, k); }
        m := m[k := v];
      } else {
        CutShallow(t, m, k);
        if Named(t) { CutStep(t, done, m, k); }
        if Head(k) in m && Rest(k) in m[Head(k)].branches { return None; }
        m := CutIn(m, k, v);
      }
      todo := rest;
    }
    assert t.branches.Keys - todo == t.branches.Keys;
    res := Some(m);
  }

  lemma NothingCut(t: Tree)
    ensures Shallow(map[], Depth(t)) && Cut(t, {}, map[]) && AllFilled(map[])
  {}

  // ----- when cutting is harmless -----

  /** A tree the code returns as it is. */
  predicate OneEntry(t: Tree) {
    |t.branches| + (if t.mn == {} then 0 else 1) == 1
  }

  ghost predicate IsCut(t: Tree, m: map<Key, Tree>, g: Key) {
    Cut(t, t.branches.Keys, m) && g in m
  }

  /** A field that is cut has no length function below it, or starts with a zero bit. */
  ghost predicate CutsHarmless(t: Tree) {
    forall k :: k in t.branches ==> Kept(k) || NoLens(t.branches[k]) || !High(k)
  }

  /** The cuts are harmless here, and in every tree the code goes on with. */
  ghost predicate LensSafe(t: Tree)
    decreases Depth(t)
  {
    OneEntry(t) || (CutsHarmless(t) && forall m, g :: IsCut(t, m, g) ==> (CutDepth(t, m, g); LensSafe(m[g])))
  }

  lemma CutDepth(t: Tree, m: map<Key, Tree>, g: Key)
    requires IsCut(t, m, g)
    ensures Depth(m[g]) < Depth(t)
  {
    hide Depth, Rest, Head;
    assert Comes(t, t.branches.Keys, m, g);
    if g.fname.Some? {
      assert Holds(t, m, g);
      DepthBelow(t, g);
    } else {
      forall nk | nk in m[g].branches
        ensures 1 + nk.l + Depth(m[g].branches[nk]) <= Depth(t) - 1
      {
        var k := CutOrigin(t, m, g, nk);
        DepthBelow(t, k);
        RestSame(k);
      }
      assert m[g].branches.Keys != {};
      var nk :| nk in m[g].branches.Keys;
      assert nk in m[g].branches;
      DepthLeast(m[g], Depth(t) - 1);
    }
  }

  /** The field of t a part comes from. */
  lemma CutOrigin(t: Tree, m: map<Key, Tree>, g: Key, nk: Key) returns (k: Key)
    requires IsCut(t, m, g) && g.fname.None? && nk in m[g].branches
    ensures k in t.branches && CutFrom(k, g, nk) && m[g].branches[nk] == t.branches[k]
  {
    hide Head, Rest;
    assert Comes(t, t.branches.Keys, m, g);
    assert HasOrigin(t.branches.Keys, g, nk);
    k :| k in t.branches.Keys && CutFrom(k, g, nk);
    assert k in t.branches && Holds(t, m, k);
  }

  /** A sub-tree under a name is one of t, under a kept field. */
  lemma KeptOrigin(t: Tree, m: map<Key, Tree>, g: Key)
    requires IsCut(t, m, g) && g.fname.Some?
    ensures g in t.branches && Kept(g) && m[g] == t.branches[g]
  {
    assert Comes(t, t.branches.Keys, m, g);
    assert Holds(t, m, g);
  }

  /** There is only one way to cut. */
  lemma CutOnce(t: Tree, m: map<Key, Tree>, m': map<Key, Tree>)
    requires Cut(t, t.branches.Keys, m) && Cut(t, t.branches.Keys, m')
    ensures m == m'
  {
    hide Cut;
    forall g
      ensures g in m <==> g in m'
      ensures g in m ==> m[g] == m'[g]
    {
      if g in m { CutOnceAt(t, m, m', g); }
      if g in m' { CutOnceAt(t, m', m, g); }
    }
  }

  lemma CutOnceAt(t: Tree, m: map<Key, Tree>, m': map<Key, Tree>, g: Key)
    requires IsCut(t, m, g) && Cut(t, t.branches.Keys, m')
    ensures g in m' && m'[g] == m[g]
  {
    hide Head, Rest;
    assert Comes(t, t.branches.Keys, m, g);
    if g.fname.Some? {
      KeptOrigin(t, m, g);
      assert Holds(t, m', g);
    } else {
      assert m[g].branches.Keys != {};
      var nk0 :| nk0 in m[g].branches.Keys;
      var k0 := CutOrigin(t, m, g, nk0);
      assert Holds(t, m', k0);
      assert Comes(t, t.branches.Keys, m', g);
      forall nk
        ensures nk in m[g].branches <==> nk in m'[g].branches
        ensures nk in m[g].branches ==> m[g].branches[nk] == m'[g].branches[nk]
      {
        if nk in m[g].branches {
          var k := CutOrigin(t, m, g, nk);
          assert Holds(t, m', k);
        }
        if nk in m'[g].branches {
          var k := CutOrigin(t, m', g, nk);
          assert Holds(t, m, k);
        }
      }
      assert m[g].branches == m'[g].branches;
    }
  }

  /** A simpler condition: no field with a length function below it is cut, wherever cutting goes on. */
  ghost predicate LensUncut(t: Tree) {
    OneEntry(t) || forall k :: k in t.branches ==> (Kept(k) || NoLens(t.branches[k])) && LensUncut(t.branches[k])
  }

  lemma {:induction false} NoLensUncut(t: Tree)
    requires NoLens(t)
    ensures LensUncut(t)
  {
    forall k | k in t.branches
      ensures LensUncut(t.branches[k])
    {
      NoLensUncut(t.branches[k]);
    }
  }

  lemma {:induction false} UncutSafe(t: Tree)
    requires LensUncut(t)
    ensures LensSafe(t)
    decreases Depth(t)
  {
    hide Depth;
    if !OneEntry(t) {
      forall m, g | IsCut(t, m, g)
        ensures LensSafe(m[g])
      {
        CutDepth(t, m, g);
        if g.fname.Some? {
          KeptOrigin(t, m, g);
        } else {
          HeadNoLens(t, m, g);
          NoLensUncut(m[g]);
        }
        UncutSafe(m[g]);
      }
    }
  }

  lemma HeadNoLens(t: Tree, m: map<Key, Tree>, g: Key)
    requires IsCut(t, m, g) && g.fname.None? && forall k :: k in t.branches ==> Kept(k) || NoLens(t.branches[k])
    ensures NoLens(m[g])
  {
    forall nk | nk in m[g].branches
      ensures nk.flen.None? && NoLens(m[g].branches[nk])
    {
      var k := CutOrigin(t, m, g, nk);
    }
  }

  // ----- the rewritten tree -----

  /** m' is m with equivalent sub-trees. */
  ghost predicate SameSubs(m: map<Key, Tree>, m': map<Key, Tree>) {
    m'.Keys == m.Keys && forall g :: g in m ==> SameHits(m[g], m'[g])
  }

  /** Below a harmless cut nothing sees the value under the name. */
  lemma CutHit(r: Reader, t: Tree, k: Key, s: State, c: Cand)
    requires Splits(r) && CutsHarmless(t) && k in t.branches && !Kept(k) && Step(r, k, s).Some?
    ensures Step(r, Head(k), s).Some? && Step(r, Rest(k), Step(r, Head(k), s).value).Some?
    ensures Hit(r, t.branches[k], Step(r, k, s).value, c) <==>
      Hit(r, t.branches[k], Step(r, Rest(k), Step(r, Head(k), s).value).value, c)
  {
    hide Splits, Step, Head, Rest, Hit, High;
    PartsStep(r, k, s);
    if NoLens(t.branches[k]) {
      NamesUnused(r, t.branches[k], Step(r, k, s).value, Step(r, Rest(k), Step(r, Head(k), s).value).value, c);
    }
  }

  lemma HeadHit(r: Reader, t: Tree, m: map<Key, Tree>, m': map<Key, Tree>, s: State, c: Cand, k: Key)
    requires Splits(r) && CutsHarmless(t) && k in t.branches && Holds(t, m, k) && SameSubs(m, m') && HitKey(r, t, k, s, c)
    ensures Hit(r, Tree(m', t.mn), s, c)
  {
    hide Splits, Step, Head, Rest, CutsHarmless;
    var t' := Tree(m', t.mn);
    if Kept(k) {
      assert SameHits(m[k], m'[k]);
      assert HitKey(r, t', k, s, c);
    } else {
      CutHit(r, t, k, s, c);
      var g := Head(k);
      var s1 := Step(r, g, s).value;
      assert HitKey(r, m[g], Rest(k), s1, c);
      assert SameHits(m[g], m'[g]);
      assert HitKey(r, t', g, s, c);
    }
  }

  lemma HitBack(r: Reader, t: Tree, m: map<Key, Tree>, m': map<Key, Tree>, s: State, c: Cand, g: Key)
    requires Splits(r) && CutsHarmless(t) && Cut(t, t.branches.Keys, m) && SameSubs(m, m')
    requires HitKey(r, Tree(m', t.mn), g, s, c)
    ensures Hit(r, t, s, c)
  {
    hide Splits, Step, Head, Rest, CutsHarmless, Cut;
    assert g in m.Keys;
    assert SameHits(m[g], m'[g]);
    if g.fname.Some? {
      KeptOrigin(t, m, g);
      assert HitKey(r, t, g, s, c);
    } else {
      HitBackCut(r, t, m, s, c, g);
    }
  }

  lemma HitBackCut(r: Reader, t: Tree, m: map<Key, Tree>, s: State, c: Cand, g: Key)
    requires Splits(r) && CutsHarmless(t) && IsCut(t, m, g) && g.fname.None?
    requires Step(r, g, s).Some? && Hit(r, m[g], Step(r, g, s).value, c)
    ensures Hit(r, t, s, c)
  {
    hide Splits, Step, Head, Rest, CutsHarmless;
    var s1 := Step(r, g, s).value;
    assert m[g].mn == {} by { assert Comes(t, t.branches.Keys, m, g); }
    var nk :| HitKey(r, m[g], nk, s1, c);
    var k := CutOrigin(t, m, g, nk);
    PartsStep(r, k, s);
    CutHit(r, t, k, s, c);
    assert HitKey(r, t, k, s, c);
  }

  lemma CutSame(t: Tree, m: map<Key, Tree>, m': map<Key, Tree>)
    requires CutsHarmless(t) && Cut(t, t.branches.Keys, m) && SameSubs(m, m')
    ensures SameHits(t, Tree(m', t.mn))
  {
    var t' := Tree(m', t.mn);
    forall r: Reader, s, c | Splits(r)
      ensures Hit(r, t, s, c) <==> Hit(r, t', s, c)
    {
      hide Splits, Step, SameSubs, CutsHarmless;
      if k :| HitKey(r, t, k, s, c) {
        assert k in t.branches.Keys;
        HeadHit(r, t, m, m', s, c, k);
      }
      if g :| HitKey(r, t', g, s, c) {
        HitBack(r, t, m, m', s, c, g);
      }
    }
  }

  ghost predicate AllNarrow(m: map<Key, Tree>) {
    forall g :: g in m ==> NarrowKey(g) && Narrow(m[g])
  }

  ghost predicate AllNamed(m: map<Key, Tree>) {
    forall g :: g in m ==> Named(m[g])
  }

  lemma PartsNarrow(k: Key)
    requires !Kept(k) && NarrowKey(k)
    ensures NarrowKey(Head(k)) && NarrowKey(Rest(k))
  {
    hide Rest, Shr, Low, Pow2;
    RestLow(k);
    RestSame(k);
    Split(k.fmask, k.l - 1);
    Split(k.fbits, k.l - 1);
    ShrBelow(k.fmask, k.l);
    ShrBelow(k.fbits, k.l);
  }

  lemma ShrBelow(x: nat, l: nat)
    requires l > 0 && x < Pow2(l)
    ensures Shr(x, l - 1) < Pow2(1)
  {
    hide Shr;
    Split(x, l - 1);
    if Shr(x, l - 1) >= 2 {
      ShlMono(2, Shr(x, l - 1), l - 1);
      ShlNext(1, l - 1);
      ShlPow(l - 1);
    }
  }

  /** Cutting keeps what is known of all the fields of a tree. */
  lemma CutKeeps(t: Tree, m: map<Key, Tree>)
    requires Cut(t, t.branches.Keys, m) && Named(t)
    ensures AllNamed(m)
    ensures Narrow(t) ==> AllNarrow(m)
  {
    hide Cut, NarrowKey;
    forall g | g in m
      ensures Named(m[g])
      ensures Narrow(t) ==> NarrowKey(g) && Narrow(m[g])
    {
      CutKeepsAt(t, m, g);
    }
  }

  lemma CutKeepsAt(t: Tree, m: map<Key, Tree>, g: Key)
    requires IsCut(t, m, g) && Named(t)
    ensures Named(m[g])
    ensures Narrow(t) ==> NarrowKey(g) && Narrow(m[g])
  {
    hide Head, Rest, NarrowKey, Cut;
    if g.fname.Some? {
      KeptOrigin(t, m, g);
    } else {
      forall nk | nk in m[g].branches
        ensures nk.fname.Some? && Named(m[g].branches[nk])
        ensures Narrow(t) ==> NarrowKey(g) && NarrowKey(nk) && Narrow(m[g].branches[nk])
      {
        PartKeeps(t, m, g, nk);
      }
      SomePart(t, m, g);
    }
  }

  lemma SomePart(t: Tree, m: map<Key, Tree>, g: Key)
    requires IsCut(t, m, g) && g.fname.None?
    ensures m[g].mn == {} && exists nk :: nk in m[g].branches
  {
    assert Comes(t, t.branches.Keys, m, g);
    assert m[g].branches.Keys != {};
    var nk :| nk in m[g].branches.Keys;
    assert nk in m[g].branches;
  }

  lemma PartKeeps(t: Tree, m: map<Key, Tree>, g: Key, nk: Key)
    requires IsCut(t, m, g) && Named(t) && g.fname.None? && nk in m[g].branches
    ensures nk.fname.Some? && Named(m[g].branches[nk])
    ensures Narrow(t) ==> NarrowKey(g) && NarrowKey(nk) && Narrow(m[g].branches[nk])
  {
    hide Rest, NarrowKey, Cut;
    var k := CutOrigin(t, m, g, nk);
    RestSame(k);
    if Narrow(t) { PartsNarrow(k); }
  }
}
