/**
 The decoder's index (add_candidate_to_tree and cls_mn.guess_mnemo, miasm/core/cpu.py): a tree
 keyed by bit fields, walked from a worklist. Looking up a place of a bit stream gives exactly
 the candidates a linear scan over all of them would keep.
 */
module Trie {
  import opened Bits
  import opened HackersDelight
  import opened Codec

  /** A field: width, fixed bits and their mask, a name, and the function giving its width, if any. */
  datatype Key = Key(l: nat, fmask: nat, fbits: nat, fname: Option<string>, flen: Option<nat>)

  datatype Cand = Cand(name: string, fields: seq<Key>)

  /** Sub-trees by field, and the candidates whose last field leads here ("mn"). */
  datatype Tree = Tree(branches: map<Key, Tree>, mn: set<Cand>)

  /** How bits are read, and the length functions by number. */
  datatype Reader = Reader(read: (int, nat) -> Option<nat>, lens: (nat, map<string, nat>) -> Option<nat>)

  datatype State = State(names: map<string, nat>, off: int)

  // ----- one field -----

  function LengthOf(r: Reader, k: Key, names: map<string, nat>): (l: Option<nat>) {
    if k.flen.Some? then r.lens(k.flen.value, names) else Some(k.l)
  }

  /** Reading a field: the state after it, unless its bits are missing or wrong. */
  function Step(r: Reader, k: Key, s: State): (s': Option<State>) {
    var l := LengthOf(r, k, s.names);
    if l.None? then Some(s)
    else
      var v := r.read(s.off, l.value);
      if v.None? || And(v.value, k.fmask) != k.fbits then None
      else Some(State(
        if k.fname.Some? && k.fname.value !in s.names then s.names[k.fname.value := v.value] else s.names,
        s.off + l.value))
  }

  /** The bits of v under the mask are the fixed ones. */
  ghost predicate FixedBits(v: nat, fmask: nat, fbits: nat) {
    forall i: nat :: Bit(v, i) && Bit(fmask, i) <==> Bit(fbits, i)
  }

  lemma MaskedBits(v: nat, fmask: nat, fbits: nat)
    ensures And(v, fmask) == fbits <==> FixedBits(v, fmask, fbits)
  {
    hide And, Bit, Pow2;
    forall i: nat ensures Bit(And(v, fmask), i) <==> Bit(v, i) && Bit(fmask, i) { BitAnd(v, fmask, i); }
    if FixedBits(v, fmask, fbits) {
      var n := And(v, fmask) + fbits;
      SmallSize(n);
      BitsEqual(And(v, fmask), fbits, n);
    }
  }

  /** From s the field is there, and leaves s'. A field whose length function gives none is passed over. */
  ghost predicate FieldRead(r: Reader, k: Key, s: State, s': State) {
    if k.flen.Some? && r.lens(k.flen.value, s.names).None? then s' == s
    else
      var w := if k.flen.Some? then r.lens(k.flen.value, s.names).value else k.l;
      && s'.off == s.off + w
      && exists v :: r.read(s.off, w) == Some(v) && FixedBits(v, k.fmask, k.fbits) && NamedAs(k.fname, v, s.names, s'.names)
  }

  /** A new name gets the value; the others keep theirs. */
  ghost predicate NamedAs(fname: Option<string>, v: nat, names: map<string, nat>, names': map<string, nat>) {
    && (forall x :: x in names' <==> x in names || fname == Some(x))
    && (forall x :: x in names' ==> names'[x] == if x in names then names[x] else v)
  }

  lemma StepReads(r: Reader, k: Key, s: State, s': State)
    ensures Step(r, k, s) == Some(s') <==> FieldRead(r, k, s, s')
  {
    hide FixedBits, And;
    var l := LengthOf(r, k, s.names);
    if l.Some? {
      var v := r.read(s.off, l.value);
      if v.Some? {
        MaskedBits(v.value, k.fmask, k.fbits);
        var names := if k.fname.Some? && k.fname.value !in s.names then s.names[k.fname.value := v.value] else s.names;
        assert NamedAs(k.fname, v.value, s.names, s'.names) <==> s'.names == names;
      }
    }
  }

  /** The field read the way the lookup reads it. */
  method ReadField(r: Reader, k: Key, s: State) returns (ok: bool, s': State)
    ensures ok <==> exists t :: FieldRead(r, k, s, t)
    ensures ok ==> FieldRead(r, k, s, s') && Step(r, k, s) == Some(s')
    ensures !ok ==> Step(r, k, s) == None
  {
    hide FixedBits, And, FieldRead;
    var names, off := s.names, s.off;
    forall t ensures FieldRead(r, k, s, t) <==> Step(r, k, s) == Some(t) { StepReads(r, k, s, t); }
    var l := if k.flen.Some? then r.lens(k.flen.value, names) else Some(k.l);
    if l.Some? {
      var v := r.read(off, l.value);
      if v.None? { return false, s; }
      off := off + l.value;
      if And(v.value, k.fmask) != k.fbits { return false, s; }
      if k.fname.Some? && k.fname.value !in names { names := names[k.fname.value := v.value]; }
    }
    ok, s' := true, State(names, off);
    assert FieldRead(r, k, s, s');
  }

  // ----- the linear scan -----

  /** ss goes through the fields from s; fields of width zero are skipped. */
  ghost predicate Reading(r: Reader, fields: seq<Key>, s: State, ss: seq<State>) {
    && |ss| == |fields| + 1 && ss[0] == s
    && forall i, j :: 0 <= i < |fields| && j == i + 1 ==>
         if fields[i].l == 0 then ss[j] == ss[i] else FieldRead(r, fields[i], ss[i], ss[j])
  }

  /** The bits read from s hold the fields, one after the other. */
  ghost predicate Matches(r: Reader, fields: seq<Key>, s: State) {
    exists ss :: Reading(r, fields, s, ss)
  }

  lemma {:induction false} ScanMatches(r: Reader, fields: seq<Key>, s: State)
    ensures FieldsMatch(r, fields, s) <==> Matches(r, fields, s)
    decreases fields
  {
    hide FieldRead, Step;
    if fields == [] {
      assert Reading(r, fields, s, [s]);
    } else {
      var k, rest := fields[0], fields[1..];
      if FieldsMatch(r, fields, s) {
        var s1 := if k.l == 0 then s else Step(r, k, s).value;
        StepReads(r, k, s, s1);
        ScanMatches(r, rest, s1);
        var ss :| Reading(r, rest, s1, ss);
        ReadingMore(r, fields, s, s1, ss);
      }
      if ss :| Reading(r, fields, s, ss) {
        assert 0 <= 0 < |fields| && 1 == 0 + 1;
        StepReads(r, k, s, ss[1]);
        ReadingLess(r, fields, s, ss);
        ScanMatches(r, rest, ss[1]);
      }
    }
  }

  lemma ReadingMore(r: Reader, fields: seq<Key>, s: State, s1: State, ss: seq<State>)
    requires fields != [] && Reading(r, fields[1..], s1, ss)
    requires if fields[0].l == 0 then s1 == s else FieldRead(r, fields[0], s, s1)
    ensures Reading(r, fields, s, [s] + ss)
  {
    hide FieldRead;
    var all := [s] + ss;
    forall i, j | 0 <= i < |fields| && j == i + 1
      ensures if fields[i].l == 0 then all[j] == all[i] else FieldRead(r, fields[i], all[i], all[j])
    {
      if i > 0 { assert fields[i] == fields[1..][i - 1] && all[i] == ss[i - 1] && all[j] == ss[i]; }
    }
  }

  lemma ReadingLess(r: Reader, fields: seq<Key>, s: State, ss: seq<State>)
    requires fields != [] && Reading(r, fields, s, ss)
    ensures Reading(r, fields[1..], ss[1], ss[1..]) && Matches(r, fields[1..], ss[1])
    ensures if fields[0].l == 0 then ss[1] == s else FieldRead(r, fields[0], s, ss[1])
  {
    hide FieldRead;
    var rest, tail := fields[1..], ss[1..];
    forall i, j | 0 <= i < |rest| && j == i + 1
      ensures if rest[i].l == 0 then tail[j] == tail[i] else FieldRead(r, rest[i], tail[i], tail[j])
    {
      var i', j' := i + 1, j + 1;
      assert rest[i] == fields[i'] && tail[i] == ss[i'] && tail[j] == ss[j'];
    }
    assert Reading(r, rest, ss[1], tail);
  }

  /** The fields match the bits one after the other; fields of width zero are skipped. */
  ghost predicate FieldsMatch(r: Reader, fields: seq<Key>, s: State) {
    if fields == [] then true
    else if fields[0].l == 0 then FieldsMatch(r, fields[1..], s)
    else Step(r, fields[0], s).Some? && FieldsMatch(r, fields[1..], Step(r, fields[0], s).value)
  }

  // ----- the tree -----

  function Inserted(t: Tree, fields: seq<Key>, c: Cand): (t': Tree)
    decreases fields
  {
    if fields == [] then t.(mn := t.mn + {c})
    else if fields[0].l == 0 then Inserted(t, fields[1..], c)
    else
      var branch := if fields[0] in t.branches then t.branches[fields[0]] else Tree(map[], {});
      t.(branches := t.branches[fields[0] := Inserted(branch, fields[1..], c)])
  }

  function TreeOf(cands: seq<Cand>): (t: Tree) {
    if cands == [] then Tree(map[], {})
    else Inserted(TreeOf(cands[..|cands| - 1]), cands[|cands| - 1].fields, cands[|cands| - 1])
  }

  /** c is below t along fields that match the bits. */
  ghost predicate Hit(r: Reader, t: Tree, s: State, c: Cand)
    decreases t, 1
  {
    c in t.mn || exists k :: HitKey(r, t, k, s, c)
  }

  ghost predicate HitKey(r: Reader, t: Tree, k: Key, s: State, c: Cand)
    decreases t, 0
  {
    k in t.branches && Step(r, k, s).Some? && Hit(r, t.branches[k], Step(r, k, s).value, c)
  }

  lemma NothingHit(r: Reader, s: State, c: Cand)
    ensures !Hit(r, Tree(map[], {}), s, c)
  {}

  /** Inserting a candidate adds its own matches and nothing else. */
  lemma {:induction false} InsertedHits(r: Reader, t: Tree, fields: seq<Key>, c: Cand, s: State, x: Cand)
    ensures Hit(r, Inserted(t, fields, c), s, x) <==> Hit(r, t, s, x) || (x == c && FieldsMatch(r, fields, s))
    decreases fields
  {
    hide Step;
    var t' := Inserted(t, fields, c);
    if fields == [] {
      SameKeys(r, t, t', s, x, {});
    } else if fields[0].l == 0 {
      InsertedHits(r, t, fields[1..], c, s, x);
    } else {
      var k := fields[0];
      var branch := if k in t.branches then t.branches[k] else Tree(map[], {});
      SameKeys(r, t, t', s, x, {k});
      if Step(r, k, s).Some? {
        InsertedHits(r, branch, fields[1..], c, Step(r, k, s).value, x);
        NothingHit(r, Step(r, k, s).value, x);
      }
      assert HitKey(r, t', k, s, x) <==> HitKey(r, t, k, s, x) || (x == c && FieldsMatch(r, fields, s));
    }
  }

  /** Outside the keys of except both trees have the same branches. */
  lemma SameKeys(r: Reader, t: Tree, t': Tree, s: State, x: Cand, except: set<Key>)
    requires forall k :: k !in except ==> (k in t.branches <==> k in t'.branches)
    requires forall k :: k !in except && k in t.branches ==> t'.branches[k] == t.branches[k]
    ensures forall k :: k !in except ==> (HitKey(r, t, k, s, x) <==> HitKey(r, t', k, s, x))
  {
    hide Step, Hit;
  }

  /** Lookup in the tree of some candidates is a scan over them. */
  lemma {:induction false} TreeIsScan(r: Reader, cands: seq<Cand>, s: State, c: Cand)
    ensures Hit(r, TreeOf(cands), s, c) <==> c in cands && FieldsMatch(r, c.fields, s)
  {
    hide Hit, FieldsMatch, Inserted;
    if cands == [] {
      NothingHit(r, s, c);
    } else {
      var rest, last := cands[..|cands| - 1], cands[|cands| - 1];
      TreeIsScan(r, rest, s, c);
      InsertedHits(r, TreeOf(rest), last.fields, last, s, c);
      assert cands == rest + [last];
    }
  }

  // ----- fields named "mn", and candidates without fields -----

  /** No field below the root has the name the tree keeps for its candidates. */
  ghost predicate NoneNamedMn(t: Tree) {
    forall k :: k in t.branches ==> k.fname != Some("mn") && NoneNamedMn(t.branches[k])
  }

  ghost predicate FieldsNotMn(fields: seq<Key>) {
    forall i :: 0 <= i < |fields| ==> fields[i].fname != Some("mn")
  }

  lemma {:induction false} InsertedNames(t: Tree, fields: seq<Key>, c: Cand)
    requires NoneNamedMn(t) && FieldsNotMn(fields)
    ensures NoneNamedMn(Inserted(t, fields, c))
    decreases fields
  {
    if fields != [] {
      if fields[0].l == 0 {
        InsertedNames(t, fields[1..], c);
      } else {
        InsertedNames(if fields[0] in t.branches then t.branches[fields[0]] else Tree(map[], {}), fields[1..], c);
      }
    }
  }

  ghost predicate Fieldless(c: Cand) {
    forall i :: 0 <= i < |c.fields| ==> c.fields[i].l == 0
  }

  lemma {:induction false} InsertedRoot(t: Tree, fields: seq<Key>, c: Cand)
    ensures Inserted(t, fields, c).mn == if forall i :: 0 <= i < |fields| ==> fields[i].l == 0 then t.mn + {c} else t.mn
  {
    if fields != [] {
      var rest := fields[1..];
      if fields[0].l == 0 {
        InsertedRoot(t, rest, c);
        assert (forall i :: 0 <= i < |fields| ==> fields[i].l == 0) <==> forall i :: 0 <= i < |rest| ==> rest[i].l == 0 by {
          assert forall i :: 0 <= i < |rest| ==> rest[i] == fields[i + 1];
          assert forall i :: 0 < i < |fields| ==> fields[i] == rest[i - 1];
        }
      }
    }
  }

  lemma {:induction false} TreeRoot(cands: seq<Cand>, c: Cand)
    ensures c in TreeOf(cands).mn <==> c in cands && Fieldless(c)
  {
    if cands != [] {
      var rest, last := cands[..|cands| - 1], cands[|cands| - 1];
      TreeRoot(rest, c);
      InsertedRoot(TreeOf(rest), last.fields, last);
      assert cands == rest + [last];
    }
  }

  lemma {:induction false} TreeNames(cands: seq<Cand>)
    requires forall i :: 0 <= i < |cands| ==> FieldsNotMn(cands[i].fields)
    ensures NoneNamedMn(TreeOf(cands))
  {
    if cands != [] {
      TreeNames(cands[..|cands| - 1]);
      InsertedNames(TreeOf(cands[..|cands| - 1]), cands[|cands| - 1].fields, cands[|cands| - 1]);
    }
  }

  // ----- the worklist -----

  datatype Item = Item(s: State, k: Key, sub: Tree)

  ghost predicate ItemHit(r: Reader, it: Item, c: Cand) {
    Step(r, it.k, it.s).Some? && Hit(r, it.sub, Step(r, it.k, it.s).value, c)
  }

  ghost predicate Pending(r: Reader, todo: seq<Item>, i: nat, c: Cand) {
    exists j :: i <= j < |todo| && ItemHit(r, todo[j], c)
  }

  /** The number of nodes of the branches ks of t, and of t. */
  ghost function Nodes(t: Tree, ks: set<Key>): (n: nat)
    requires ks <= t.branches.Keys
    decreases t, |ks|
  {
    if ks == {} then 0
    else
      var k :| k in ks;
      1 + Nodes(t.branches[k], t.branches[k].branches.Keys) + Nodes(t, ks - {k})
  }

  ghost function Size(t: Tree): (n: nat) {
    Nodes(t, t.branches.Keys)
  }

  lemma {:induction false} NodesWithout(t: Tree, ks: set<Key>, k: Key)
    requires ks <= t.branches.Keys && k in ks
    ensures Nodes(t, ks) == 1 + Size(t.branches[k]) + Nodes(t, ks - {k})
    decreases |ks|
  {
    var k0 :| k0 in ks && Nodes(t, ks) == 1 + Nodes(t.branches[k0], t.branches[k0].branches.Keys) + Nodes(t, ks - {k0});
    if k0 != k {
      NodesWithout(t, ks - {k0}, k);
      NodesWithout(t, ks - {k}, k0);
      assert ks - {k0} - {k} == ks - {k} - {k0};
    }
  }

  ghost function TodoSize(todo: seq<Item>, i: nat): (n: nat)
    requires i <= |todo|
    decreases |todo| - i
  {
    if i == |todo| then 0 else 1 + Size(todo[i].sub) + TodoSize(todo, i + 1)
  }

  lemma {:induction false} TodoMore(todo: seq<Item>, i: nat, it: Item)
    requires i <= |todo|
    ensures TodoSize(todo + [it], i) == TodoSize(todo, i) + 1 + Size(it.sub)
    decreases |todo| - i
  {
    hide Size;
    if i < |todo| { TodoMore(todo, i + 1, it); }
  }

  /** What the sub-trees of t to consider still lead to. */
  ghost predicate SomeKey(r: Reader, t: Tree, ks: set<Key>, s: State, c: Cand) {
    exists k :: k in ks && HitKey(r, t, k, s, c)
  }

  /** Appends the branches of t, to be read from the state s. */
  method PushAll(ghost r: Reader, t: Tree, s: State, todo: seq<Item>, i: nat) returns (todo': seq<Item>)
    requires i <= |todo|
    ensures |todo| <= |todo'| && todo'[..|todo|] == todo && TodoSize(todo', i) == TodoSize(todo, i) + Size(t)
    ensures forall c :: Pending(r, todo', i, c) <==> Pending(r, todo, i, c) || SomeKey(r, t, t.branches.Keys, s, c)
  {
    hide Pending, HitKey, TodoSize, Nodes;
    todo' := todo;
    var ks := t.branches.Keys;
    NodesNone(t);
    assert t.branches.Keys - ks == {};
    while ks != {}
      invariant ks <= t.branches.Keys && |todo| <= |todo'| && todo'[..|todo|] == todo
      invariant TodoSize(todo', i) + Nodes(t, ks) == TodoSize(todo, i) + Size(t)
      invariant forall c :: Pending(r, todo', i, c) <==> Pending(r, todo, i, c) || SomeKey(r, t, t.branches.Keys - ks, s, c)
      decreases |ks|
    {
      var k :| k in ks;
      ghost var before := todo';
      NodesWithout(t, ks, k);
      TodoMore(todo', i, Item(s, k, t.branches[k]));
      todo' := todo' + [Item(s, k, t.branches[k])];
      forall c
        ensures Pending(r, todo', i, c) <==> Pending(r, todo, i, c) || SomeKey(r, t, t.branches.Keys - (ks - {k}), s, c)
      {
        PushStep(r, t, s, before, i, t.branches.Keys - ks, k, c);
        assert t.branches.Keys - ks + {k} == t.branches.Keys - (ks - {k});
      }
      ks := ks - {k};
    }
    assert t.branches.Keys - ks == t.branches.Keys;
  }

  lemma NodesNone(t: Tree)
    ensures Nodes(t, {}) == 0
  {}

  lemma PushStep(r: Reader, t: Tree, s: State, todo: seq<Item>, i: nat, ks: set<Key>, k: Key, c: Cand)
    requires i <= |todo| && k in t.branches
    ensures Pending(r, todo + [Item(s, k, t.branches[k])], i, c) <==> Pending(r, todo, i, c) || HitKey(r, t, k, s, c)
    ensures SomeKey(r, t, ks + {k}, s, c) <==> SomeKey(r, t, ks, s, c) || HitKey(r, t, k, s, c)
  {
    hide Hit, Step;
    var it := Item(s, k, t.branches[k]);
    var todo' := todo + [it];
    assert HitKey(r, t, k, s, c) <==> ItemHit(r, todo'[|todo|], c);
    if Pending(r, todo, i, c) {
      var j :| i <= j < |todo| && ItemHit(r, todo[j], c);
      assert ItemHit(r, todo'[j], c);
    }
  }

  /**
   The worklist finds exactly the candidates below the tree whose fields match; a candidate at
   the root, having no field, makes the lookup fail.
   */
  method GuessMnemo(r: Reader, t: Tree, preDisInfo: map<string, nat>, offset: int) returns (res: Option<set<Cand>>)
    requires NoneNamedMn(t)
    ensures res.None? <==> t.mn != {}
    ensures res.Some? ==> forall c :: c in res.value <==> Hit(r, t, State(preDisInfo, offset * 8), c)
  {
    hide Hit, TodoSize, Step, Pending, FieldRead;
    if t.mn != {} { return None; }
    var candidates: set<Cand> := {};
    ghost var s0 := State(preDisInfo, offset * 8);
    var todo := PushAll(r, t, State(preDisInfo, offset * 8), [], 0);
    RootPending(r, t, s0, todo);
    var i := 0;
    while i < |todo|
      invariant i <= |todo|
      invariant forall c :: Hit(r, t, s0, c) <==> c in candidates || Pending(r, todo, i, c)
      decreases TodoSize(todo, i)
    {
      var it := todo[i];
      var ok, next := ReadField(r, it.k, it.s);
      ghost var s := Step(r, it.k, it.s);
      ghost var before := todo;
      TodoNext(todo, i);
      i := i + 1;
      if ok {
        todo := PushAll(r, it.sub, next, todo, i);
      }
      forall c
        ensures Pending(r, before, i - 1, c) <==>
          || Pending(r, before, i, c)
          || (s.Some? && (c in it.sub.mn || SomeKey(r, it.sub, it.sub.branches.Keys, s.value, c)))
      {
        PendingNext(r, before, i - 1, c);
      }
      if ok {
        candidates := candidates + it.sub.mn;
      }
    }
    NonePending(r, todo);
    res := Some(candidates);
  }

  lemma TodoNext(todo: seq<Item>, i: nat)
    requires i < |todo|
    ensures TodoSize(todo, i) == 1 + Size(todo[i].sub) + TodoSize(todo, i + 1)
  {}

  lemma NonePending(r: Reader, todo: seq<Item>)
    ensures forall c :: !Pending(r, todo, |todo|, c)
  {}

  lemma RootPending(r: Reader, t: Tree, s: State, todo: seq<Item>)
    requires t.mn == {}
    requires forall c :: Pending(r, todo, 0, c) <==> Pending(r, [], 0, c) || SomeKey(r, t, t.branches.Keys, s, c)
    ensures forall c :: Hit(r, t, s, c) <==> Pending(r, todo, 0, c)
  {
    forall c
      ensures Hit(r, t, s, c) <==> Pending(r, todo, 0, c)
    {
      HitSome(r, t, s, c);
      assert !Pending(r, [], 0, c);
    }
  }

  lemma HitSome(r: Reader, t: Tree, s: State, c: Cand)
    ensures Hit(r, t, s, c) <==> c in t.mn || SomeKey(r, t, t.branches.Keys, s, c)
  {
    hide Step;
    if k :| HitKey(r, t, k, s, c) { assert k in t.branches.Keys; }
  }

  lemma PendingNext(r: Reader, todo: seq<Item>, i: nat, c: Cand)
    requires i < |todo|
    ensures var it := todo[i];
      var s := Step(r, it.k, it.s);
      Pending(r, todo, i, c) <==>
        || Pending(r, todo, i + 1, c)
        || (s.Some? && (c in it.sub.mn || SomeKey(r, it.sub, it.sub.branches.Keys, s.value, c)))
  {
    hide Step, Hit;
    var it := todo[i];
    var s := Step(r, it.k, it.s);
    if s.Some? { HitSome(r, it.sub, s.value, c); }
    assert ItemHit(r, todo[i], c) <==> s.Some? && Hit(r, it.sub, s.value, c);
  }

  /** Looking up the tree of some candidates: the scan's answer, and when it fails. */
  method GuessAmong(r: Reader, cands: seq<Cand>, preDisInfo: map<string, nat>, offset: int) returns (res: Option<set<Cand>>)
    requires forall i :: 0 <= i < |cands| ==> FieldsNotMn(cands[i].fields)
    ensures res.None? <==> exists c :: c in cands && Fieldless(c)
    ensures res.Some? ==>
      forall c :: c in res.value <==> c in cands && Matches(r, c.fields, State(preDisInfo, offset * 8))
  {
    hide TreeOf, Hit, FieldsMatch, Matches, NoneNamedMn;
    var t := TreeOf(cands);
    TreeNames(cands);
    forall c
      ensures c in t.mn <==> c in cands && Fieldless(c)
    {
      TreeRoot(cands, c);
    }
    res := GuessMnemo(r, t, preDisInfo, offset);
    forall c
      ensures Hit(r, t, State(preDisInfo, offset * 8), c) <==> c in cands && Matches(r, c.fields, State(preDisInfo, offset * 8))
    {
      ScanMatches(r, c.fields, State(preDisInfo, offset * 8));
      TreeIsScan(r, cands, State(preDisInfo, offset * 8), c);
    }
  }
}
