/**
 Cutting the decoder's index (factor_one_bit, miasm/core/cpu.py) in the presence of length functions.
 A cut field leaves its name to its low bits, and a length function below may look at it: every
 lookup is kept exactly when the cuts are harmless in the sense of LensSafe.
 */
module TrieLengths {
  import opened Bits
  import opened BitStrings
  import opened Codec
  import opened Trie
  import opened TrieFactor

  // ----- ways to a candidate -----

  /** c is nowhere in t. */
  ghost predicate Absent(t: Tree, c: Cand) {
    c !in t.mn && forall k :: k in t.branches ==> Absent(t.branches[k], c)
  }

  /** Every way to c goes through a field with a length function. */
  ghost predicate Blocked(t: Tree, c: Cand) {
    c !in t.mn && forall k :: k in t.branches ==> k.flen.Some? || Blocked(t.branches[k], c)
  }

  /** Every way to c goes through a field of that name, narrower than width, and then a length function. */
  ghost predicate Spoiled(t: Tree, name: string, width: nat, c: Cand)
    decreases t, 1
  {
    c !in t.mn && forall k :: k in t.branches ==> SpoiledAt(t, k, name, width, c)
  }

  ghost predicate SpoiledAt(t: Tree, k: Key, name: string, width: nat, c: Cand)
    requires k in t.branches
    decreases t, 0
  {
    || Absent(t.branches[k], c)
    || if k.fname == Some(name) then k.flen.None? && k.l < width && Blocked(t.branches[k], c)
       else Spoiled(t.branches[k], name, width, c)
  }

  /** Every way to c goes through a field of that name and width, cut here, and then a length function. */
  ghost predicate CutHere(t: Tree, name: string, width: nat, c: Cand) {
    forall k :: k in t.branches ==>
      || Absent(t.branches[k], c)
      || (!Kept(k) && k.fname == Some(name) && k.l == width && Blocked(t.branches[k], c))
  }

  /** The field of that name and width is cut, here or in a tree the code goes on with. */
  ghost predicate Faulty(t: Tree, name: string, width: nat, c: Cand)
    decreases Depth(t)
  {
    && !OneEntry(t) && c !in t.mn
    && (CutHere(t, name, width, c) || forall m, g :: IsCut(t, m, g) ==>
          Absent(m[g], c) || (g.fname != Some(name) && (CutDepth(t, m, g); Faulty(m[g], name, width, c))))
  }

  lemma {:induction false} AbsentBlocked(t: Tree, c: Cand)
    requires Absent(t, c)
    ensures Blocked(t, c)
  {
    forall k | k in t.branches
      ensures Blocked(t.branches[k], c)
    {
      AbsentBlocked(t.branches[k], c);
    }
  }

  // ----- what rewriting does to them -----

  ghost predicate KeepsFor(t: Tree, t': Tree, name: string, width: nat, c: Cand) {
    && (Absent(t, c) ==> Absent(t', c))
    && (Blocked(t, c) ==> Blocked(t', c))
    && (Spoiled(t, name, width, c) ==> Spoiled(t', name, width, c))
    && (Faulty(t, name, width, c) ==> Spoiled(t', name, width, c))
  }

  /** t' has no ways that t has not, and what is faulty in t is spoiled in t'. */
  ghost predicate Keeps(t: Tree, t': Tree) {
    forall name, width: nat, c :: KeepsFor(t, t', name, width, c)
  }

  lemma CutAbsent(t: Tree, m: map<Key, Tree>, g: Key, c: Cand)
    requires IsCut(t, m, g) && Absent(t, c)
    ensures Absent(m[g], c)
  {
    hide Cut, Head, Rest;
    if g.fname.Some? {
      KeptOrigin(t, m, g);
    } else {
      SomePart(t, m, g);
      forall nk | nk in m[g].branches
        ensures Absent(m[g].branches[nk], c)
      {
        var k := CutOrigin(t, m, g, nk);
      }
    }
  }

  lemma CutBlocked(t: Tree, m: map<Key, Tree>, g: Key, c: Cand)
    requires IsCut(t, m, g) && Blocked(t, c)
    ensures g.flen.Some? || Blocked(m[g], c)
  {
    hide Cut, Rest;
    if g.fname.Some? {
      KeptOrigin(t, m, g);
    } else {
      SomePart(t, m, g);
      forall nk | nk in m[g].branches
        ensures Blocked(m[g].branches[nk], c)
      {
        var k := CutOrigin(t, m, g, nk);
      }
    }
  }

  lemma CutSpoiled(t: Tree, m: map<Key, Tree>, g: Key, name: string, width: nat, c: Cand)
    requires IsCut(t, m, g) && (Spoiled(t, name, width, c) || (c !in t.mn && CutHere(t, name, width, c)))
    ensures SpoiledAt(Tree(m, t.mn), g, name, width, c)
  {
    hide Cut, Head, Rest;
    if g.fname.Some? {
      KeptOrigin(t, m, g);
      assert Spoiled(t, name, width, c) ==> SpoiledAt(t, g, name, width, c);
    } else {
      SomePart(t, m, g);
      forall nk | nk in m[g].branches
        ensures SpoiledAt(m[g], nk, name, width, c)
      {
        var k := CutOrigin(t, m, g, nk);
        RestSame(k);
        assert Spoiled(t, name, width, c) ==> SpoiledAt(t, k, name, width, c);
      }
      assert Spoiled(m[g], name, width, c);
    }
  }

  ghost predicate AllKeep(m: map<Key, Tree>, m': map<Key, Tree>, todo: set<Key>) {
    m'.Keys == m.Keys && forall g :: g in m && g !in todo ==> Keeps(m[g], m'[g])
  }

  lemma KeepsAll(t: Tree, m: map<Key, Tree>, m': map<Key, Tree>)
    requires Cut(t, t.branches.Keys, m) && AllKeep(m, m', {})
    ensures Keeps(t, Tree(m', t.mn))
  {
    hide Cut, KeepsFor;
    forall name, width: nat, c
      ensures KeepsFor(t, Tree(m', t.mn), name, width, c)
    {
      KeepsOne(t, m, m', name, width, c);
    }
  }

  lemma KeepsOne(t: Tree, m: map<Key, Tree>, m': map<Key, Tree>, name: string, width: nat, c: Cand)
    requires Cut(t, t.branches.Keys, m) && AllKeep(m, m', {})
    ensures KeepsFor(t, Tree(m', t.mn), name, width, c)
  {
    hide Cut, CutHere, Depth;
    var t' := Tree(m', t.mn);
    forall g | g in m'
      ensures Absent(t, c) ==> Absent(m'[g], c)
      ensures Blocked(t, c) ==> g.flen.Some? || Blocked(m'[g], c)
      ensures Spoiled(t, name, width, c) || Faulty(t, name, width, c) ==> SpoiledAt(t', g, name, width, c)
    {
      assert g in m'.Keys;
      assert IsCut(t, m, g) && Keeps(m[g], m'[g]);
      assert KeepsFor(m[g], m'[g], name, width, c);
      if Absent(t, c) { CutAbsent(t, m, g, c); }
      if Blocked(t, c) { CutBlocked(t, m, g, c); }
      if Spoiled(t, name, width, c) || Faulty(t, name, width, c) { KeepsSpoiled(t, m, m', g, name, width, c); }
    }
  }

  lemma KeepsSpoiled(t: Tree, m: map<Key, Tree>, m': map<Key, Tree>, g: Key, name: string, width: nat, c: Cand)
    requires IsCut(t, m, g) && g in m' && KeepsFor(m[g], m'[g], name, width, c)
    requires Spoiled(t, name, width, c) || Faulty(t, name, width, c)
    ensures SpoiledAt(Tree(m', t.mn), g, name, width, c)
  {
    hide Cut, CutHere, Depth;
    if Spoiled(t, name, width, c) || CutHere(t, name, width, c) {
      CutSpoiled(t, m, g, name, width, c);
    }
  }

  // ----- the method -----

  /** Of the sub-trees m, those not in todo are rewritten in m'. */
  ghost predicate Rewritten(t: Tree, m: map<Key, Tree>, m': map<Key, Tree>, todo: set<Key>) {
    && AllNamed(m) && AllKeep(m, m', todo)
    && (LensSafe(t) ==> SameSubs(m, m'))
    && (Narrow(t) ==> AllNarrow(m) && AllNarrow(m'))
  }

  lemma RewriteStarts(t: Tree, m: map<Key, Tree>)
    requires Cut(t, t.branches.Keys, m) && Named(t)
    ensures Rewritten(t, m, m, m.Keys)
  {
    hide Cut, Hit, Splits, LensSafe;
    CutKeeps(t, m);
  }

  lemma RewriteStep(t: Tree, m: map<Key, Tree>, m': map<Key, Tree>, todo: set<Key>, g: Key, sub: Tree)
    requires Rewritten(t, m, m', todo) && g in m && Keeps(m[g], sub)
    requires LensSafe(t) ==> SameHits(m[g], sub)
    requires Narrow(t) ==> Narrow(sub)
    ensures Rewritten(t, m, m'[g := sub], todo - {g})
  {
    hide AllNamed, AllKeep, AllNarrow, SameSubs, SameHits, Narrow, LensSafe, Keeps;
    KeepStepAt(m, m', todo, g, sub);
    if LensSafe(t) { SubsStep(m, m', g, sub); }
    if Narrow(t) { NarrowStep(m, m', g, sub); }
  }

  lemma KeepStepAt(m: map<Key, Tree>, m': map<Key, Tree>, todo: set<Key>, g: Key, sub: Tree)
    requires AllKeep(m, m', todo) && g in m && Keeps(m[g], sub)
    ensures AllKeep(m, m'[g := sub], todo - {g})
  {
    hide Keeps;
    assert g in m'.Keys;
  }

  lemma SubsStep(m: map<Key, Tree>, m': map<Key, Tree>, g: Key, sub: Tree)
    requires SameSubs(m, m') && g in m && SameHits(m[g], sub)
    ensures SameSubs(m, m'[g := sub])
  {
    hide SameHits;
    assert g in m'.Keys;
  }

  lemma NarrowStep(m: map<Key, Tree>, m': map<Key, Tree>, g: Key, sub: Tree)
    requires AllNarrow(m) && AllNarrow(m') && g in m && Narrow(sub)
    ensures AllNarrow(m'[g := sub])
  {
    hide Narrow, NarrowKey;
  }

  lemma RewriteAt(t: Tree, m: map<Key, Tree>, m': map<Key, Tree>, todo: set<Key>, g: Key)
    requires Rewritten(t, m, m', todo) && IsCut(t, m, g) && !OneEntry(t)
    ensures Named(m[g]) && (LensSafe(t) ==> LensSafe(m[g])) && (Narrow(t) ==> Narrow(m[g]))
  {
    hide SameSubs, AllKeep, Cut;
  }

  lemma RewriteEnds(t: Tree, m: map<Key, Tree>, m': map<Key, Tree>)
    requires Rewritten(t, m, m', {}) && Cut(t, t.branches.Keys, m) && !OneEntry(t)
    ensures Keeps(t, Tree(m', t.mn))
    ensures LensSafe(t) ==> SameHits(t, Tree(m', t.mn))
    ensures Narrow(t) ==> Narrow(Tree(m', t.mn))
  {
    hide Cut, SameSubs, SameHits, CutsHarmless, Keeps;
    KeepsAll(t, m, m');
    if LensSafe(t) { CutSame(t, m, m'); }
  }

  lemma OneEntryKept(t: Tree)
    requires OneEntry(t)
    ensures Keeps(t, t) && SameHits(t, t)
  {}

  /** From the root down to the first lone entries, every choice is on one bit or has a length function. */
  ghost predicate OnSingleBits(t: Tree) {
    || |t.branches| + (if t.mn == {} then 0 else 1) == 1
    || forall k :: k in t.branches ==> (k.flen.Some? || k.l <= 1) && OnSingleBits(t.branches[k])
  }

  /**
   Cutting fields all over the tree: what is left to choose from is single bits, none cut to nothing.
   With named fields it never fails; where the cuts are harmless the result answers every lookup in every stream as the tree
   did, and in a tidy tree nowhere else.
   */
  method FactorOneBit(t: Tree) returns (res: Option<Tree>)
    ensures res.Some? ==> OnSingleBits(res.value) && (Filled(t) ==> Filled(res.value))
    ensures Named(t) ==> res.Some? && Keeps(t, res.value)
    ensures Named(t) && LensSafe(t) ==> SameHits(t, res.value)
    ensures Named(t) && Tidy(t) ==> (SameHits(t, res.value) <==> LensSafe(t))
    ensures Named(t) && Narrow(t) ==> Narrow(res.value)
    decreases Depth(t)
  {
    hide Depth, SameHits, Cut, Named, LensSafe, Narrow, Rewritten, Keeps, Tidy, OnSingleBits, Filled;
    if |t.branches| + (if t.mn == {} then 0 else 1) == 1 {
      OneEntryKept(t);
      OneEntrySafe(t);
      LoneSingle(t);
      return Some(t);
    }
    var cut := CutAll(t);
    if cut.None? { return None; }
    ghost var m := cut.value;
    ShallowIs(m, Depth(t));
    if Named(t) { RewriteStarts(t, m); }
    var newKeys, todo := cut.value, cut.value.Keys;
    while todo != {}
      invariant todo <= m.Keys == newKeys.Keys && forall g :: g in todo ==> newKeys[g] == m[g]
      invariant Named(t) ==> Rewritten(t, m, newKeys, todo)
      invariant ShortKeys(newKeys) && forall g :: g in newKeys && g !in todo ==> OnSingleBits(newKeys[g])
      invariant Filled(t) ==> AllFilled(newKeys)
      decreases |todo|
    {
      var g :| g in todo;
      if Named(t) { RewriteAt(t, m, newKeys, todo, g); }
      var sub := FactorOneBit(newKeys[g]);
      if sub.None? { return None; }
      if Named(t) { RewriteStep(t, m, newKeys, todo, g, sub.value); }
      todo := todo - {g};
      newKeys := newKeys[g := sub.value];
    }
    if Named(t) { RewriteEnds(t, m, newKeys); }
    res := Some(Tree(newKeys, t.mn));
    AllSingle(newKeys, t.mn);
    if Filled(t) { FilledAgain(newKeys, t.mn); }
    if Named(t) && Tidy(t) && !LensSafe(t) { Differs(t, res.value); }
  }

  lemma LoneSingle(t: Tree)
    requires OneEntry(t)
    ensures OnSingleBits(t)
  {}

  lemma FilledAgain(m: map<Key, Tree>, mn: set<Cand>)
    requires AllFilled(m)
    ensures Filled(Tree(m, mn))
  {}

  lemma AllSingle(m: map<Key, Tree>, mn: set<Cand>)
    requires ShortKeys(m) && forall g :: g in m ==> OnSingleBits(m[g])
    ensures OnSingleBits(Tree(m, mn))
  {}

  lemma OneEntrySafe(t: Tree)
    requires OneEntry(t)
    ensures LensSafe(t)
  {}

  lemma ShallowIs(m: map<Key, Tree>, n: nat)
    requires Shallow(m, n)
    ensures forall g :: g in m ==> Depth(m[g]) < n
  {}

  // ----- a length function that sees the cut -----

  /** Reads the bytes; a length function gives more bits than there are once the name has another value than v. */
  function Trap(bytes: seq<nat>, name: string, v: nat): (r: Reader) {
    Reader(
      (off: int, n: nat) => ReadBits(bytes, 0, 0, off, n),
      (f: nat, names: map<string, nat>) => if name in names && names[name] != v then Some(8 * |bytes| + 1) else None)
  }

  lemma TrapSplits(bytes: seq<nat>, name: string, v: nat)
    ensures Splits(Trap(bytes, name, v))
  {
    hide Splits, ReadBits;
    StreamSplits(Trap(bytes, name, v), bytes, 0, 0);
  }

  lemma {:induction false} AbsentMiss(r: Reader, t: Tree, s: State, c: Cand)
    requires Absent(t, c)
    ensures !Hit(r, t, s, c)
    decreases t
  {
    hide Step;
    forall k
      ensures !HitKey(r, t, k, s, c)
    {
      if k in t.branches && Step(r, k, s).Some? { AbsentMiss(r, t.branches[k], Step(r, k, s).value, c); }
    }
  }

  lemma TrapCloses(bytes: seq<nat>, name: string, v: nat, k: Key, s: State)
    requires k.flen.Some? && name in s.names && s.names[name] != v
    ensures Step(Trap(bytes, name, v), k, s).None?
  {
    hide ByteBits, ValueOf;
  }

  lemma NamesStay(r: Reader, k: Key, s: State, name: string)
    requires Step(r, k, s).Some?
    ensures name in s.names ==> name in Step(r, k, s).value.names && Step(r, k, s).value.names[name] == s.names[name]
    ensures name !in s.names && k.fname != Some(name) ==> name !in Step(r, k, s).value.names
  {
    hide And;
  }

  lemma {:induction false} BlockedMiss(bytes: seq<nat>, name: string, v: nat, t: Tree, s: State, c: Cand)
    requires Blocked(t, c) && name in s.names && s.names[name] != v
    ensures !Hit(Trap(bytes, name, v), t, s, c)
    decreases t
  {
    hide Step, Trap;
    var r := Trap(bytes, name, v);
    forall k
      ensures !HitKey(r, t, k, s, c)
    {
      if k in t.branches {
        if k.flen.Some? {
          TrapCloses(bytes, name, v, k, s);
        } else if Step(r, k, s).Some? {
          NamesStay(r, k, s, name);
          BlockedMiss(bytes, name, v, t.branches[k], Step(r, k, s).value, c);
        }
      }
    }
  }

  /** A field narrower than width cannot have a value as high as v. */
  lemma LowValue(bytes: seq<nat>, name: string, width: nat, v: nat, k: Key, s: State)
    requires k.fname == Some(name) && k.flen.None? && k.l < width && Pow2(width - 1) <= v && name !in s.names
    requires Step(Trap(bytes, name, v), k, s).Some?
    ensures var s' := Step(Trap(bytes, name, v), k, s).value; name in s'.names && s'.names[name] != v
  {
    hide And, ReadBits, Splits, Pow2;
    TrapSplits(bytes, name, v);
    SplitsEverywhere(Trap(bytes, name, v), s.off, 0, k.l);
    PowMono(k.l, width - 1);
  }

  lemma {:induction false} SpoiledMiss(bytes: seq<nat>, name: string, width: nat, v: nat, t: Tree, s: State, c: Cand)
    requires Spoiled(t, name, width, c) && width > 0 && Pow2(width - 1) <= v && name !in s.names
    ensures !Hit(Trap(bytes, name, v), t, s, c)
    decreases t
  {
    hide Step, Trap, Pow2;
    var r := Trap(bytes, name, v);
    forall k
      ensures !HitKey(r, t, k, s, c)
    {
      if k in t.branches && Step(r, k, s).Some? {
        assert SpoiledAt(t, k, name, width, c);
        var sub, s' := t.branches[k], Step(r, k, s).value;
        NamesStay(r, k, s, name);
        if Absent(sub, c) {
          AbsentMiss(r, sub, s', c);
        } else if k.fname == Some(name) {
          LowValue(bytes, name, width, v, k, s);
          BlockedMiss(bytes, name, v, sub, s', c);
        } else {
          SpoiledMiss(bytes, name, width, v, sub, s', c);
        }
      }
    }
  }

  // ----- a stream that leads to a candidate -----

  type Way = seq<(Key, nat)>

  /** A field and a value it matches; the field of that name has the value v. */
  ghost predicate Matches(p: (Key, nat), name: string, v: nat) {
    || p.0.flen.Some?
    || (p.1 < Pow2(p.0.l) && And(p.1, p.0.fmask) == p.0.fbits && (p.0.fname == Some(name) ==> p.1 == v))
  }

  /** w leads to c in t. */
  ghost predicate Walk(t: Tree, w: Way, name: string, v: nat, c: Cand)
    decreases w
  {
    if w == [] then c in t.mn
    else w[0].0 in t.branches && Matches(w[0], name, v) && Walk(t.branches[w[0].0], w[1..], name, v, c)
  }

  function WalkBits(w: Way): (r: seq<bool>) {
    if w == [] then [] else (if w[0].0.flen.Some? then [] else BitsOf(w[0].1, w[0].0.l)) + WalkBits(w[1..])
  }

  lemma TrapReads(bytes: seq<nat>, name: string, v: nat, off: nat, x: nat, l: nat)
    requires x < Pow2(l) && off + l <= 8 * |bytes| && ByteBits(bytes)[off..off + l] == BitsOf(x, l)
    ensures Trap(bytes, name, v).read(off, l) == Some(x)
  {
    hide ByteBits, BitsOf, ValueOf, Low, Shr, Pow2, ReadBits;
    ValueBitsOf(x, l);
    BelowPower(x, l);
    NoShift();
    ReadInside(bytes, off, l);
  }

  lemma ReadInside(bytes: seq<nat>, off: nat, l: nat)
    requires off + l <= 8 * |bytes|
    ensures ReadBits(bytes, 0, 0, off, l) == Some(if l == 0 then 0 else ValueOf(ByteBits(bytes)[off..off + l]))
  {
    hide ByteBits, ValueOf;
    ByteStop(off + l, |bytes|);
  }

  lemma ByteStop(n: nat, k: nat)
    requires n <= 8 * k
    ensures (n + 7) / 8 <= k
  {}

  lemma WalkStep(bytes: seq<nat>, name: string, v: nat, p: (Key, nat), s: State)
    requires Matches(p, name, v) && s.off >= 0 && (name in s.names ==> s.names[name] == v)
    requires p.0.flen.None? ==> s.off + p.0.l <= 8 * |bytes| && ByteBits(bytes)[s.off..s.off + p.0.l] == BitsOf(p.1, p.0.l)
    ensures var s' := Step(Trap(bytes, name, v), p.0, s);
      && s'.Some? && s'.value.off == s.off + (if p.0.flen.Some? then 0 else p.0.l)
      && (name in s'.value.names ==> s'.value.names[name] == v)
  {
    hide ByteBits, BitsOf, ReadBits, And, Pow2;
    if p.0.flen.None? { TrapReads(bytes, name, v, s.off, p.1, p.0.l); }
  }

  lemma {:induction false} WalkHit(bytes: seq<nat>, name: string, v: nat, t: Tree, w: Way, s: State, c: Cand)
    requires Walk(t, w, name, v, c) && s.off >= 0 && (name in s.names ==> s.names[name] == v)
    requires s.off + |WalkBits(w)| <= 8 * |bytes| && ByteBits(bytes)[s.off..s.off + |WalkBits(w)|] == WalkBits(w)
    ensures Hit(Trap(bytes, name, v), t, s, c)
    decreases w
  {
    hide ByteBits, BitsOf, Step, Trap, Matches;
    if w != [] {
      var r, all, k, rest := Trap(bytes, name, v), ByteBits(bytes), w[0].0, WalkBits(w[1..]);
      var first := if k.flen.Some? then [] else BitsOf(w[0].1, k.l);
      SliceParts(all, s.off, first, rest);
      WalkStep(bytes, name, v, w[0], s);
      var s' := Step(r, k, s).value;
      WalkHit(bytes, name, v, t.branches[k], w[1..], s', c);
      assert HitKey(r, t, k, s, c);
    }
  }

  lemma SliceParts(all: seq<bool>, off: nat, a: seq<bool>, b: seq<bool>)
    requires off + |a + b| <= |all| && all[off..off + |a + b|] == a + b
    ensures all[off..off + |a|] == a && all[off + |a|..off + |a| + |b|] == b
  {
    SubSlice(all, off, off + |a + b|, 0, |a|);
    SubSlice(all, off, off + |a + b|, |a|, |b|);
    assert (a + b)[0..|a|] == a && (a + b)[|a|..|a| + |b|] == b;
  }

  lemma {:induction false} WalkPresent(t: Tree, w: Way, name: string, v: nat, c: Cand)
    requires Walk(t, w, name, v, c)
    ensures !Absent(t, c)
    decreases w
  {
    hide Matches;
    if w != [] { WalkPresent(t.branches[w[0].0], w[1..], name, v, c); }
  }

  ghost predicate HasLens(w: Way) {
    exists i :: 0 <= i < |w| && w[i].0.flen.Some?
  }

  lemma {:induction false} LensOnWay(t: Tree, w: Way, name: string, v: nat, c: Cand)
    requires Walk(t, w, name, v, c) && HasLens(w)
    ensures !NoLens(t)
    decreases w
  {
    hide Matches;
    if w[0].0.flen.None? {
      var i :| 0 <= i < |w| && w[i].0.flen.Some?;
      assert w[1..][i - 1] == w[i];
      LensOnWay(t.branches[w[0].0], w[1..], name, v, c);
    }
  }

  lemma WalkMore(t: Tree, k: Key, x: nat, w: Way, name: string, v: nat, c: Cand)
    requires k in t.branches && Matches((k, x), name, v) && Walk(t.branches[k], w, name, v, c)
    ensures Walk(t, [(k, x)] + w, name, v, c)
    ensures HasLens(w) || k.flen.Some? ==> HasLens([(k, x)] + w)
  {
    hide Matches;
    var w' := [(k, x)] + w;
    assert w'[1..] == w;
    if i :| 0 <= i < |w| && w[i].0.flen.Some? { assert w'[i + 1].0.flen.Some?; }
    if k.flen.Some? { assert w'[0].0.flen.Some?; }
  }

  // ----- tidy trees -----

  ghost predicate ProperKey(k: Key) {
    k.flen.Some? || (NarrowKey(k) && And(k.fbits, k.fmask) == k.fbits)
  }

  /** Fixed bits lie within their mask and field, and no way meets a name twice. */
  ghost predicate Wellmade(t: Tree, seen: set<string>) {
    forall k :: k in t.branches ==>
      k.fname.Some? && k.fname.value !in seen && ProperKey(k) && Wellmade(t.branches[k], seen + {k.fname.value})
  }

  /** No candidate is at two places. */
  ghost predicate Apart(t: Tree) {
    && (forall k, c :: k in t.branches && c in t.mn ==> Absent(t.branches[k], c))
    && (forall k, k', c :: k in t.branches && k' in t.branches && k != k' ==>
          Absent(t.branches[k], c) || Absent(t.branches[k'], c))
    && (forall k :: k in t.branches ==> Apart(t.branches[k]))
  }

  /** Every branch leads to a candidate. */
  ghost predicate Ended(t: Tree) {
    forall k :: k in t.branches ==> (exists c :: !Absent(t.branches[k], c)) && Ended(t.branches[k])
  }

  ghost predicate Tidy(t: Tree) {
    Wellmade(t, {}) && Apart(t) && Ended(t)
  }

  lemma OnlyBelow(t: Tree, k: Key, c: Cand)
    requires Apart(t) && k in t.branches && !Absent(t.branches[k], c)
    ensures c !in t.mn && forall k' :: k' in t.branches && k' != k ==> Absent(t.branches[k'], c)
  {
    hide Absent;
  }

  lemma {:induction false} AnyWalk(t: Tree, seen: set<string>, name: string, v: nat, c: Cand) returns (w: Way)
    requires Wellmade(t, seen) && name in seen && !Absent(t, c)
    ensures Walk(t, w, name, v, c)
    decreases t
  {
    w := [];
    if c !in t.mn {
      var k :| k in t.branches && !Absent(t.branches[k], c);
      var w' := AnyWalk(t.branches[k], seen + {k.fname.value}, name, v, c);
      w := [(k, k.fbits)] + w';
      WalkMore(t, k, k.fbits, w', name, v, c);
    }
  }

  /** A candidate below a length function, and the way to it. */
  lemma {:induction false} LensWalk(t: Tree, seen: set<string>, name: string, v: nat) returns (c: Cand, w: Way)
    requires Wellmade(t, seen) && name in seen && Apart(t) && Ended(t) && !NoLens(t)
    ensures Walk(t, w, name, v, c) && HasLens(w) && Blocked(t, c)
    decreases t
  {
    var k :| k in t.branches && (k.flen.Some? || !NoLens(t.branches[k]));
    assert Matches((k, k.fbits), name, v);
    hide Walk, Matches, ProperKey, NarrowKey, NoLens, HasLens;
    var sub, w' := t.branches[k], [];
    if k.flen.Some? {
      c :| !Absent(sub, c);
      w' := AnyWalk(sub, seen + {k.fname.value}, name, v, c);
    } else {
      c, w' := LensWalk(sub, seen + {k.fname.value}, name, v);
      WalkPresent(sub, w', name, v, c);
    }
    w := [(k, k.fbits)] + w';
    WalkMore(t, k, k.fbits, w', name, v, c);
    OnlyBelow(t, k, c);
    forall k' | k' in t.branches && k' != k
      ensures Blocked(t.branches[k'], c)
    {
      AbsentBlocked(t.branches[k'], c);
    }
  }

  // ----- the culprit -----

  lemma HighMatches(k: Key) returns (v: nat)
    requires !Kept(k) && ProperKey(k) && High(k)
    ensures Pow2(k.l - 1) <= v < Pow2(k.l) && And(v, k.fmask) == k.fbits
  {
    hide And, Shr, Low, Shl, Pow2;
    var b := k.l - 1;
    Split(k.fbits, b);
    v := Shl(1, b) + Low(k.fbits, b);
    AndParts(k.fbits, k.fmask, b);
    MaskParts(1, Low(k.fbits, b), b, k.fmask, k.fbits);
    ShlPow(b);
    NextPower(b);
  }

  lemma NextPower(b: nat)
    ensures Pow2(b + 1) == 2 * Pow2(b)
  {}

  lemma LowMatches(k: Key, x: nat)
    requires !Kept(k) && ProperKey(k) && !High(k) && x < Pow2(k.l - 1) && And(x, Rest(k).fmask) == Rest(k).fbits
    ensures x < Pow2(k.l) && And(x, k.fmask) == k.fbits
  {
    hide And, Shr, Low, Shl, Pow2, Rest;
    var b := k.l - 1;
    RestLow(k);
    AndParts(k.fbits, k.fmask, b);
    ShrBelow(k.fbits, k.l);
    assert Pow2(1) == 2 by { NextPower(0); NoShift(); }
    AndZero(Shr(k.fmask, b));
    MaskParts(0, x, b, k.fmask, k.fbits);
    ShlZero(b);
    NextPower(b);
  }

  lemma CulpritHere(t: Tree, seen: set<string>, k: Key) returns (name: string, width: nat, v: nat, c: Cand, w: Way)
    requires Wellmade(t, seen) && Apart(t) && Ended(t) && !OneEntry(t)
    requires k in t.branches && !Kept(k) && !NoLens(t.branches[k]) && High(k)
    ensures Faulty(t, name, width, c) && Walk(t, w, name, v, c) && width > 0 && Pow2(width - 1) <= v && name !in seen
    ensures w != [] && HasLens(w[1..])
  {
    hide High, Depth, Pow2, Faulty, Blocked, Absent, Walk, NoLens, And;
    var sub := t.branches[k];
    name, width := k.fname.value, k.l;
    v := HighMatches(k);
    var w';
    c, w' := LensWalk(sub, seen + {name}, name, v);
    WalkPresent(sub, w', name, v, c);
    WalkMore(t, k, v, w', name, v, c);
    w := [(k, v)] + w';
    assert w[1..] == w';
    CutHereFaulty(t, k, c);
  }

  lemma CutHereFaulty(t: Tree, k: Key, c: Cand)
    requires Apart(t) && !OneEntry(t) && k in t.branches && !Kept(k) && k.fname.Some?
    requires Blocked(t.branches[k], c) && !Absent(t.branches[k], c)
    ensures Faulty(t, k.fname.value, k.l, c)
  {
    hide Depth, Absent, Blocked, Apart;
    OnlyBelow(t, k, c);
    assert CutHere(t, k.fname.value, k.l, c);
  }

  /** Where a candidate found under g of the cut tree is in t. */
  lemma Place(t: Tree, m: map<Key, Tree>, g: Key, c: Cand) returns (k: Key)
    requires IsCut(t, m, g) && !Absent(m[g], c)
    ensures k in t.branches && !Absent(t.branches[k], c) && g == if Kept(k) then k else Head(k)
  {
    hide Cut, Rest;
    if g.fname.Some? {
      KeptOrigin(t, m, g);
      k := g;
    } else {
      SomePart(t, m, g);
      var nk :| nk in m[g].branches && !Absent(m[g].branches[nk], c);
      k := CutOrigin(t, m, g, nk);
    }
  }

  lemma Elsewhere(t: Tree, m: map<Key, Tree>, g: Key, g': Key, c: Cand)
    requires Apart(t) && IsCut(t, m, g) && IsCut(t, m, g') && g != g' && !Absent(m[g], c)
    ensures c !in t.mn && Absent(m[g'], c)
  {
    hide Cut, Head, Absent, Apart;
    var k := Place(t, m, g, c);
    OnlyBelow(t, k, c);
    if !Absent(m[g'], c) {
      var k' := Place(t, m, g', c);
    }
  }

  lemma FaultyBelow(t: Tree, m: map<Key, Tree>, g: Key, name: string, width: nat, c: Cand)
    requires Apart(t) && !OneEntry(t) && IsCut(t, m, g) && !Absent(m[g], c)
    requires g.fname != Some(name) && Faulty(m[g], name, width, c)
    ensures Faulty(t, name, width, c)
  {
    hide Cut, Depth, Apart, Absent, CutHere;
    var k := Place(t, m, g, c);
    OnlyBelow(t, k, c);
    forall m', g' | IsCut(t, m', g')
      ensures Absent(m'[g'], c) || (g'.fname != Some(name) && Faulty(m'[g'], name, width, c))
    {
      CutOnce(t, m, m');
      if g' != g { Elsewhere(t, m, g, g', c); }
    }
  }

  lemma HeadTidy(t: Tree, m: map<Key, Tree>, g: Key, seen: set<string>)
    requires IsCut(t, m, g) && g.fname.None? && Wellmade(t, seen) && Apart(t) && Ended(t)
    ensures Wellmade(m[g], seen) && Apart(m[g]) && Ended(m[g])
  {
    hide Cut, ProperKey, Absent, Rest;
    SomePart(t, m, g);
    forall nk | nk in m[g].branches
      ensures nk.fname.Some? && nk.fname.value !in seen && ProperKey(nk)
      ensures Wellmade(m[g].branches[nk], seen + {nk.fname.value})
      ensures Apart(m[g].branches[nk]) && Ended(m[g].branches[nk]) && exists c :: !Absent(m[g].branches[nk], c)
    {
      var k := CutOrigin(t, m, g, nk);
      RestSame(k);
      RestProper(k);
    }
    forall nk, nk', c | nk in m[g].branches && nk' in m[g].branches && nk != nk'
      ensures Absent(m[g].branches[nk], c) || Absent(m[g].branches[nk'], c)
    {
      var k := CutOrigin(t, m, g, nk);
      var k' := CutOrigin(t, m, g, nk');
    }
  }

  lemma RestProper(k: Key)
    requires !Kept(k) && ProperKey(k)
    ensures ProperKey(Rest(k))
  {
    hide And, Low, Shr, Pow2, Rest;
    RestLow(k);
    RestSame(k);
    PartsNarrow(k);
    AndParts(k.fbits, k.fmask, k.l - 1);
  }

  /** A tree with a harmful cut has a candidate it loses, and a way to it. */
  lemma {:induction false} Culprit(t: Tree, seen: set<string>) returns (name: string, width: nat, v: nat, c: Cand, w: Way)
    requires Wellmade(t, seen) && Apart(t) && Ended(t) && !LensSafe(t)
    ensures Faulty(t, name, width, c) && Walk(t, w, name, v, c) && width > 0 && Pow2(width - 1) <= v && name !in seen
    ensures w != [] && HasLens(w[1..])
    decreases Depth(t)
  {
    hide *;
    var here, k, m, g := Unsafe(t);
    if here {
      name, width, v, c, w := CulpritHere(t, seen, k);
    } else if g.fname.Some? {
      BranchTidy(t, m, g, seen);
      name, width, v, c, w := Culprit(m[g], seen + {g.fname.value});
      WalkPresent(m[g], w, name, v, c);
      FaultyBelow(t, m, g, name, width, c);
      w := KeptWay(t, m, g, seen, name, v, c, w);
    } else {
      HeadTidy(t, m, g, seen);
      name, width, v, c, w := Culprit(m[g], seen);
      WalkPresent(m[g], w, name, v, c);
      FaultyBelow(t, m, g, name, width, c);
      w := HeadWay(t, m, g, seen, name, v, c, w);
    }
  }

  /** A harmful cut is here, or in a tree the code goes on with. */
  lemma Unsafe(t: Tree) returns (here: bool, k: Key, m: map<Key, Tree>, g: Key)
    requires !LensSafe(t)
    ensures !OneEntry(t)
    ensures here ==> k in t.branches && !Kept(k) && !NoLens(t.branches[k]) && High(k)
    ensures !here ==> CutsHarmless(t) && IsCut(t, m, g) && g in m && !LensSafe(m[g]) && Depth(m[g]) < Depth(t)
  {
    hide Depth, Cut, High, NoLens;
    here, k, m, g := !CutsHarmless(t), *, *, *;
    if here {
      k :| k in t.branches && !Kept(k) && !NoLens(t.branches[k]) && High(k);
    } else {
      m, g :| IsCut(t, m, g) && !LensSafe(m[g]);
      CutDepth(t, m, g);
    }
  }

  lemma BranchTidy(t: Tree, m: map<Key, Tree>, g: Key, seen: set<string>)
    requires IsCut(t, m, g) && g.fname.Some? && Wellmade(t, seen) && Apart(t) && Ended(t)
    ensures Wellmade(m[g], seen + {g.fname.value}) && Apart(m[g]) && Ended(m[g])
  {
    hide Cut, ProperKey, Absent;
    KeptOrigin(t, m, g);
  }

  lemma KeptWay(t: Tree, m: map<Key, Tree>, g: Key, seen: set<string>, name: string, v: nat, c: Cand, w: Way) returns (w': Way)
    requires IsCut(t, m, g) && g.fname.Some? && g.fname.value != name && Wellmade(t, seen)
    requires Walk(m[g], w, name, v, c) && w != [] && HasLens(w[1..])
    ensures Walk(t, w', name, v, c) && w' != [] && HasLens(w'[1..])
  {
    hide Cut, Walk;
    KeptOrigin(t, m, g);
    w' := [(g, g.fbits)] + w;
    WalkMore(t, g, g.fbits, w, name, v, c);
    LensLater(w);
    assert w'[1..] == w;
  }

  lemma LensLater(w: Way)
    requires w != [] && HasLens(w[1..])
    ensures HasLens(w)
  {
    var i :| 0 <= i < |w[1..]| && w[1..][i].0.flen.Some?;
    assert w[i + 1].0.flen.Some?;
  }

  lemma HeadWay(t: Tree, m: map<Key, Tree>, g: Key, seen: set<string>, name: string, v: nat, c: Cand, w: Way) returns (w': Way)
    requires IsCut(t, m, g) && g.fname.None? && Wellmade(t, seen) && CutsHarmless(t)
    requires Walk(m[g], w, name, v, c) && w != [] && HasLens(w[1..])
    ensures Walk(t, w', name, v, c) && w' != [] && HasLens(w'[1..])
  {
    hide Cut, HasLens, High, Pow2, And;
    var nk, x := w[0].0, w[0].1;
    var k := CutOrigin(t, m, g, nk);
    var sub := t.branches[k];
    LensOnWay(sub, w[1..], name, v, c);
    RestSame(k);
    LowMatches(k, x);
    w' := [(k, x)] + w[1..];
    WalkMore(t, k, x, w[1..], name, v, c);
    assert w'[1..] == w[1..];
  }

  /** Some stream and length function then tell the trees apart. */
  lemma Differs(t: Tree, t': Tree)
    requires Tidy(t) && !LensSafe(t) && Keeps(t, t')
    ensures !SameHits(t, t')
  {
    hide LensSafe, Wellmade, Apart, Ended, Walk, Faulty, Spoiled, Blocked, Absent, HasLens, ByteBits, Splits, Hit, Trap, Pow2, WalkBits;
    var name, width, v, c, w := Culprit(t, {});
    assert KeepsFor(t, t', name, width, c);
    var bytes := Padded(WalkBits(w));
    var r, s := Trap(bytes, name, v), State(map[], 0);
    TrapSplits(bytes, name, v);
    assert ByteBits(bytes)[0..0 + |WalkBits(w)|] == WalkBits(w);
    WalkHit(bytes, name, v, t, w, s, c);
    SpoiledMiss(bytes, name, width, v, t', s, c);
  }

  /** Bytes that begin with the bits. */
  lemma Padded(bits: seq<bool>) returns (bytes: seq<nat>)
    ensures |bits| <= 8 * |bytes| && ByteBits(bytes)[..|bits|] == bits
  {
    hide *;
    var all := bits + Zeros(8 - |bits| % 8);
    ToStringBits(all);
    bytes := DecodeHex(PadHex(Hex(ValueOf(all)), |all| / 4));
    assert all[..|bits|] == bits;
  }

  // ----- the tree of some candidates -----

  /** Fields as bs objects make them: named, with masks as wide as the field. */
  ghost predicate NamedFields(fields: seq<Key>) {
    forall i :: 0 <= i < |fields| ==> fields[i].fname.Some? && NarrowKey(fields[i])
  }

  lemma {:induction false} InsertedNamed(t: Tree, fields: seq<Key>, c: Cand)
    requires Named(t) && Narrow(t) && NamedFields(fields)
    ensures Named(Inserted(t, fields, c)) && Narrow(Inserted(t, fields, c))
    decreases fields
  {
    hide NarrowKey;
    if fields != [] {
      if fields[0].l == 0 {
        InsertedNamed(t, fields[1..], c);
      } else {
        InsertedNamed(if fields[0] in t.branches then t.branches[fields[0]] else Tree(map[], {}), fields[1..], c);
      }
    }
  }

  lemma {:induction false} TreeNamed(cands: seq<Cand>)
    requires forall i :: 0 <= i < |cands| ==> NamedFields(cands[i].fields)
    ensures Named(TreeOf(cands)) && Narrow(TreeOf(cands))
  {
    hide Inserted, NamedFields;
    if cands != [] {
      TreeNamed(cands[..|cands| - 1]);
      InsertedNamed(TreeOf(cands[..|cands| - 1]), cands[|cands| - 1].fields, cands[|cands| - 1]);
    }
  }

  /** Fixed bits lie within their mask, and no name comes twice. */
  ghost predicate TidyFields(fields: seq<Key>, seen: set<string>) {
    if fields == [] then true
    else if fields[0].l == 0 then TidyFields(fields[1..], seen)
    else
      && fields[0].fname.Some? && fields[0].fname.value !in seen && ProperKey(fields[0])
      && TidyFields(fields[1..], seen + {fields[0].fname.value})
  }

  lemma {:induction false} InsertedWellmade(t: Tree, seen: set<string>, fields: seq<Key>, c: Cand)
    requires Wellmade(t, seen) && TidyFields(fields, seen)
    ensures Wellmade(Inserted(t, fields, c), seen)
    decreases fields
  {
    hide ProperKey;
    if fields != [] {
      if fields[0].l == 0 {
        InsertedWellmade(t, seen, fields[1..], c);
      } else {
        var b := if fields[0] in t.branches then t.branches[fields[0]] else Tree(map[], {});
        InsertedWellmade(b, seen + {fields[0].fname.value}, fields[1..], c);
      }
    }
  }

  /** Inserting c brings c, loses nothing and brings nothing else. */
  lemma {:induction false} InsertedPresent(t: Tree, fields: seq<Key>, c: Cand, x: Cand)
    ensures Absent(Inserted(t, fields, c), x) <==> Absent(t, x) && x != c
    decreases fields
  {
    var t' := Inserted(t, fields, c);
    if fields != [] {
      if fields[0].l == 0 {
        InsertedPresent(t, fields[1..], c, x);
      } else {
        var k := fields[0];
        var b := if k in t.branches then t.branches[k] else Tree(map[], {});
        InsertedPresent(b, fields[1..], c, x);
        assert Absent(t, x) ==> Absent(b, x);
        assert t'.branches[k] == Inserted(b, fields[1..], c);
        assert forall j :: j != k ==> (j in t.branches <==> j in t'.branches);
        assert forall j :: j in t.branches && j != k ==> t'.branches[j] == t.branches[j];
        assert k in t.branches ==> b == t.branches[k];
      }
    }
  }

  lemma {:induction false} InsertedEnded(t: Tree, fields: seq<Key>, c: Cand)
    requires Ended(t)
    ensures Ended(Inserted(t, fields, c))
    decreases fields
  {
    if fields != [] {
      if fields[0].l == 0 {
        InsertedEnded(t, fields[1..], c);
      } else {
        var b := if fields[0] in t.branches then t.branches[fields[0]] else Tree(map[], {});
        InsertedEnded(b, fields[1..], c);
        InsertedPresent(b, fields[1..], c, c);
        assert !Absent(Inserted(b, fields[1..], c), c);
      }
    }
  }

  /** x is in t along these fields only. */
  ghost predicate Along(t: Tree, fields: seq<Key>, x: Cand)
    decreases fields
  {
    if fields == [] then forall k :: k in t.branches ==> Absent(t.branches[k], x)
    else if fields[0].l == 0 then Along(t, fields[1..], x)
    else
      && x !in t.mn && (forall k :: k in t.branches && k != fields[0] ==> Absent(t.branches[k], x))
      && (fields[0] in t.branches ==> Along(t.branches[fields[0]], fields[1..], x))
  }

  lemma {:induction false} AbsentAlong(t: Tree, fields: seq<Key>, x: Cand)
    requires Absent(t, x)
    ensures Along(t, fields, x)
    decreases fields
  {
    if fields != [] {
      if fields[0].l == 0 {
        AbsentAlong(t, fields[1..], x);
      } else if fields[0] in t.branches {
        AbsentAlong(t.branches[fields[0]], fields[1..], x);
      }
    }
  }

  /** Inserting c keeps every candidate along its own fields. */
  lemma {:induction false} InsertedAlong(t: Tree, cf: seq<Key>, c: Cand, xf: seq<Key>, x: Cand)
    requires Along(t, xf, x) && (x == c ==> xf == cf)
    ensures Along(Inserted(t, cf, c), xf, x)
    decreases |cf| + |xf|
  {
    var none := Tree(map[], {});
    if cf != [] && cf[0].l == 0 && x != c {
      InsertedAlong(t, cf[1..], c, xf, x);
    } else if xf != [] && xf[0].l == 0 {
      InsertedAlong(t, if x == c then cf[1..] else cf, c, xf[1..], x);
    } else if cf != [] {
      var k := cf[0];
      var b := if k in t.branches then t.branches[k] else none;
      InsertedPresent(b, cf[1..], c, x);
      if xf != [] && xf[0] == k {
        if k !in t.branches { AbsentAlong(none, xf[1..], x); }
        InsertedAlong(b, cf[1..], c, xf[1..], x);
      }
    }
  }

  ghost predicate Sorted(t: Tree) {
    forall x :: IsAlong(t, x)
  }

  ghost predicate IsAlong(t: Tree, x: Cand) {
    exists fields :: Along(t, fields, x)
  }

  lemma {:induction false} AlongPlace(t: Tree, fields: seq<Key>, x: Cand, k: Key)
    requires Along(t, fields, x) && k in t.branches
    ensures IsAlong(t.branches[k], x) && (x in t.mn ==> Absent(t.branches[k], x))
    ensures !Absent(t.branches[k], x) ==> forall k' :: k' in t.branches && k' != k ==> Absent(t.branches[k'], x)
    decreases fields
  {
    if fields != [] && fields[0].l == 0 {
      AlongPlace(t, fields[1..], x, k);
    } else if fields != [] && fields[0] == k {
      assert Along(t.branches[k], fields[1..], x);
    } else {
      AbsentAlong(t.branches[k], [], x);
    }
  }

  lemma {:induction false} SortedApart(t: Tree)
    requires Sorted(t)
    ensures Apart(t)
    decreases t
  {
    hide Along, Absent, IsAlong;
    forall k, x | k in t.branches && x in t.mn
      ensures Absent(t.branches[k], x)
    {
      SortedPlace(t, x, k);
    }
    forall k, k', x | k in t.branches && k' in t.branches && k != k'
      ensures Absent(t.branches[k], x) || Absent(t.branches[k'], x)
    {
      SortedPlace(t, x, k);
    }
    forall k | k in t.branches
      ensures Apart(t.branches[k])
    {
      var sub := t.branches[k];
      forall x
        ensures IsAlong(sub, x)
      {
        SortedPlace(t, x, k);
      }
      SortedApart(t.branches[k]);
    }
  }

  lemma SortedPlace(t: Tree, x: Cand, k: Key)
    requires Sorted(t) && k in t.branches
    ensures IsAlong(t.branches[k], x) && (x in t.mn ==> Absent(t.branches[k], x))
    ensures !Absent(t.branches[k], x) ==> forall k' :: k' in t.branches && k' != k ==> Absent(t.branches[k'], x)
  {
    hide Along, Absent;
    assert IsAlong(t, x);
    var fields :| Along(t, fields, x);
    AlongPlace(t, fields, x, k);
  }

  lemma {:induction false} TreeAlong(cands: seq<Cand>, x: Cand)
    ensures Along(TreeOf(cands), x.fields, x)
  {
    if cands == [] {
      AbsentAlong(Tree(map[], {}), x.fields, x);
    } else {
      hide Along;
      TreeAlong(cands[..|cands| - 1], x);
      InsertedAlong(TreeOf(cands[..|cands| - 1]), cands[|cands| - 1].fields, cands[|cands| - 1], x.fields, x);
    }
  }

  lemma {:induction false} TreeParts(cands: seq<Cand>)
    requires forall i :: 0 <= i < |cands| ==> TidyFields(cands[i].fields, {})
    ensures Wellmade(TreeOf(cands), {}) && Ended(TreeOf(cands))
  {
    hide Inserted, TidyFields;
    if cands != [] {
      var rest, last := cands[..|cands| - 1], cands[|cands| - 1];
      TreeParts(rest);
      InsertedWellmade(TreeOf(rest), {}, last.fields, last);
      InsertedEnded(TreeOf(rest), last.fields, last);
    }
  }

  lemma TreeTidy(cands: seq<Cand>)
    requires forall i :: 0 <= i < |cands| ==> TidyFields(cands[i].fields, {})
    ensures Tidy(TreeOf(cands))
  {
    hide TreeOf, Along, Apart, Wellmade, Ended, TidyFields;
    var t := TreeOf(cands);
    TreeParts(cands);
    forall x
      ensures IsAlong(t, x)
    {
      TreeAlong(cands, x);
    }
    SortedApart(t);
  }

  /** Every lookup is a scan over the candidates. */
  ghost predicate IsScan(t: Tree, cands: seq<Cand>) {
    forall r: Reader, s, c :: Splits(r) ==> (Hit(r, t, s, c) <==> c in cands && FieldsMatch(r, c.fields, s))
  }

  lemma ScanSame(cands: seq<Cand>, t': Tree)
    ensures IsScan(t', cands) <==> SameHits(TreeOf(cands), t')
  {
    hide TreeOf, Hit, FieldsMatch, Splits;
    forall r: Reader, s, c
      ensures Hit(r, TreeOf(cands), s, c) <==> c in cands && FieldsMatch(r, c.fields, s)
    {
      TreeIsScan(r, cands, s, c);
    }
  }

  /**
   Both rewritings of the tree of some candidates, one after the other: when the cuts are harmless they
   still are a scan over them, and for tidy candidates in no other case.
   */
  method FactorTree(cands: seq<Cand>) returns (one: Tree, all: Tree)
    requires forall i :: 0 <= i < |cands| ==> NamedFields(cands[i].fields)
    ensures LensSafe(TreeOf(cands)) ==> IsScan(one, cands) && IsScan(all, cands)
    ensures (forall i :: 0 <= i < |cands| ==> TidyFields(cands[i].fields, {})) ==>
      (IsScan(one, cands) <==> LensSafe(TreeOf(cands))) && (IsScan(all, cands) <==> LensSafe(TreeOf(cands)))
  {
    hide TreeOf, LensSafe, Named, Narrow, FactorFieldsAll, SameHits, IsScan, Tidy, TidyFields, NamedFields, Keeps;
    var t := TreeOf(cands);
    TreeNamed(cands);
    if forall i :: 0 <= i < |cands| ==> TidyFields(cands[i].fields, {}) { TreeTidy(cands); }
    var cut := FactorOneBit(t);
    one := cut.value;
    all := FactorFieldsAll(one);
    FactorFieldsAllSame(one);
    ScanSame(cands, one);
    ScanSame(cands, all);
    SameOther(t, one, all);
  }

  lemma SameOther(t: Tree, t': Tree, t'': Tree)
    requires SameHits(t', t'')
    ensures SameHits(t, t') <==> SameHits(t, t'')
  {
    hide Hit, Splits;
  }

  // ----- a tree that is not safe -----

  const CUT_FIELD := Key(2, 0, 0, Some("a"), None)
  const SIBLING := Key(2, 3, 3, Some("z"), None)
  const BY_NAME := Key(1, 1, 1, Some("b"), Some(0))
  const FOUND := Cand("found", [CUT_FIELD, BY_NAME])
  const OTHER := Cand("other", [SIBLING])

  lemma UnsafeTree()
    ensures TreeOf([FOUND, OTHER]) ==
      Tree(map[CUT_FIELD := Tree(map[BY_NAME := Tree(map[], {FOUND})], {}), SIBLING := Tree(map[], {OTHER})], {})
  {
    var none := Tree(map[], {});
    assert [FOUND, OTHER][..1] == [FOUND] && [FOUND][..0] == [];
    assert [CUT_FIELD, BY_NAME][1..] == [BY_NAME] && [BY_NAME][1..] == [] && [SIBLING][1..] == [];
    assert Inserted(none, [], FOUND) == Tree(map[], {FOUND}) && Inserted(none, [], OTHER) == Tree(map[], {OTHER});
    assert Inserted(none, [BY_NAME], FOUND) == Tree(map[BY_NAME := Tree(map[], {FOUND})], {});
    assert TreeOf([FOUND]) == Inserted(none, [CUT_FIELD, BY_NAME], FOUND);
  }

  lemma FaultyTree()
    ensures var t := TreeOf([FOUND, OTHER]);
      Named(t) && !LensUncut(t) && !LensSafe(t) && Faulty(t, "a", 2, FOUND) && Walk(t, [(CUT_FIELD, 2), (BY_NAME, 1)], "a", 2, FOUND)
  {
    UnsafeTree();
    hide TreeOf, Depth, NoLens, Blocked, Absent, Walk;
    var t := TreeOf([FOUND, OTHER]);
    var sub := t.branches[CUT_FIELD];
    SmallTrees(sub, t.branches[SIBLING]);
    UnsafeFields();
    TreeNamed([FOUND, OTHER]);
    assert !OneEntry(t) by { assert t.branches.Keys == {CUT_FIELD, SIBLING}; }
    assert CutHere(t, "a", 2, FOUND);
    assert !CutsHarmless(t);
    assert !LensUncut(t);
    var w: Way := [(CUT_FIELD, 2), (BY_NAME, 1)];
    assert w == [(CUT_FIELD, 2)] + [(BY_NAME, 1)];
    WalkMore(t, CUT_FIELD, 2, [(BY_NAME, 1)], "a", 2, FOUND);
  }

  lemma SmallTrees(sub: Tree, other: Tree)
    requires sub == Tree(map[BY_NAME := Tree(map[], {FOUND})], {}) && other == Tree(map[], {OTHER})
    ensures !NoLens(sub) && Blocked(sub, FOUND) && Absent(other, FOUND) && Walk(sub, [(BY_NAME, 1)], "a", 2, FOUND)
  {
    assert BY_NAME in sub.branches;
    var w: Way := [(BY_NAME, 1)];
    assert w[1..] == [];
    assert Walk(Tree(map[], {FOUND}), [], "a", 2, FOUND);
  }

  lemma UnsafeFields()
    ensures NamedFields(FOUND.fields) && NamedFields(OTHER.fields)
    ensures !Kept(CUT_FIELD) && High(CUT_FIELD) && Matches((CUT_FIELD, 2), "a", 2)
  {
    assert Pow2(2) == 2 * Pow2(1) && Pow2(1) == 2 * Pow2(0);
    assert Shr(0, 1) == Shr(0, 0) == 0;
    AndZero(1);
    AndZero(2);
  }

  /**
   The condition cannot be dropped: of these two candidates the first has a length function below a field
   that is cut, and in a stream of one byte the tree finds it while the tree the code returns does not.
   */
  method LengthsMatter() returns (t': Tree)
    ensures !LensUncut(TreeOf([FOUND, OTHER])) && !LensSafe(TreeOf([FOUND, OTHER]))
    ensures Splits(Trap([128], "a", 2))
    ensures Hit(Trap([128], "a", 2), TreeOf([FOUND, OTHER]), State(map[], 0), FOUND)
    ensures !Hit(Trap([128], "a", 2), t', State(map[], 0), FOUND)
  {
    hide TreeOf, LensUncut, LensSafe, Named, Faulty, Spoiled, Hit, Trap, Splits, Walk, Absent, Blocked, SameHits, Tidy, Narrow;
    FaultyTree();
    var t := TreeOf([FOUND, OTHER]);
    var cut := FactorOneBit(t);
    t' := cut.value;
    assert KeepsFor(t, t', "a", 2, FOUND);
    TrapSplits([128], "a", 2);
    FirstBits();
    WalkHit([128], "a", 2, t, [(CUT_FIELD, 2), (BY_NAME, 1)], State(map[], 0), FOUND);
    NextPower(0);
    NoShift();
    SpoiledMiss([128], "a", 2, 2, t', State(map[], 0), FOUND);
  }

  lemma FirstBits()
    ensures var b := WalkBits([(CUT_FIELD, 2), (BY_NAME, 1)]); |b| == 2 && ByteBits([128])[0..0 + 2] == b
  {
    var w: Way := [(CUT_FIELD, 2), (BY_NAME, 1)];
    assert w[1..] == [(BY_NAME, 1)] && w[1..][1..] == [];
    assert WalkBits(w) == BitsOf(2, 2) + WalkBits([(BY_NAME, 1)]);
    EightBits();
    hide ByteBits, BitsOf;
    TwiceBits(1, 1);
    OneIsOne();
  }

  lemma OneIsOne()
    ensures BitsOf(1, 1) == [true]
  {}

  lemma TwiceBits(v: nat, n: nat)
    ensures BitsOf(2 * v, n + 1) == BitsOf(v, n) + [false]
  {}

  lemma EightBits()
    ensures ByteBits([128]) == [true, false, false, false, false, false, false, false]
  {
    hide BitsOf;
    OneIsOne();
    TwiceBits(1, 1);
    TwiceBits(2, 2);
    TwiceBits(4, 3);
    TwiceBits(8, 4);
    TwiceBits(16, 5);
    TwiceBits(32, 6);
    TwiceBits(64, 7);
    ByteLast([], 128);
  }
}
