/**
 Unions of integer ranges in canonical form (miasm/core/interval.py): sorted, non-empty and
 never adjacent, so that equal sets are equal lists; and the set operations on them.
 */
module Intervals {

  type Range = (int, int)

  ghost predicate Covers(r: Range, p: int) {
    r.0 <= p <= r.1
  }

  /** p is a point of the list. */
  ghost predicate In(s: seq<Range>, p: int) {
    exists i :: 0 <= i < |s| && Covers(s[i], p)
  }

  ghost predicate SamePoints(s: seq<Range>, t: seq<Range>) {
    forall p :: In(s, p) <==> In(t, p)
  }

  ghost predicate Canonical(s: seq<Range>) {
    && (forall i :: 0 <= i < |s| ==> s[i].0 <= s[i].1)
    && (forall i, j :: 0 <= i < j < |s| ==> s[i].1 + 1 < s[j].0)
  }

  lemma CoversBounds(r: Range, p: int)
    ensures Covers(r, p) <==> r.0 <= p <= r.1
  {}

  lemma InNothing(p: int)
    ensures !In([], p)
  {}

  lemma InOne(r: Range, p: int)
    ensures In([r], p) <==> Covers(r, p)
  {
    if Covers(r, p) { assert Covers([r][0], p); }
  }

  lemma InJoin(s: seq<Range>, t: seq<Range>, p: int)
    ensures In(s + t, p) <==> In(s, p) || In(t, p)
  {
    if In(s, p) {
      var i :| 0 <= i < |s| && Covers(s[i], p);
      assert (s + t)[i] == s[i];
    }
    if In(t, p) {
      var i :| 0 <= i < |t| && Covers(t[i], p);
      assert (s + t)[|s| + i] == t[i];
    }
    if In(s + t, p) {
      var i :| 0 <= i < |s + t| && Covers((s + t)[i], p);
      assert if i < |s| then s[i] == (s + t)[i] else t[i - |s|] == (s + t)[i];
    }
  }

  lemma InSplit(s: seq<Range>, k: nat, p: int)
    requires k <= |s|
    ensures In(s, p) <==> In(s[..k], p) || In(s[k..], p)
  {
    assert s == s[..k] + s[k..];
    InJoin(s[..k], s[k..], p);
  }

  /** One more range. */
  lemma InStep(s: seq<Range>, k: nat, p: int)
    requires k < |s|
    ensures In(s[..k + 1], p) <==> In(s[..k], p) || Covers(s[k], p)
    ensures In(s[k..], p) <==> Covers(s[k], p) || In(s[k + 1..], p)
  {
    assert s[..k + 1] == s[..k] + [s[k]];
    InJoin(s[..k], [s[k]], p);
    assert s[k..] == [s[k]] + s[k + 1..];
    InJoin([s[k]], s[k + 1..], p);
    InOne(s[k], p);
  }

  // ----- canonical forms are unique -----

  lemma {:induction false} CanonicalUnique(s: seq<Range>, t: seq<Range>)
    requires Canonical(s) && Canonical(t) && SamePoints(s, t)
    ensures s == t
    decreases |s|
  {
    if s == [] {
      assert t != [] ==> Covers(t[0], t[0].0) && In(t, t[0].0);
    } else {
      assert Covers(s[0], s[0].0) && In(t, s[0].0);
      FirstRange(s, t);
      FirstRange(t, s);
      forall p
        ensures In(s[1..], p) <==> In(t[1..], p)
      {
        TailPoints(s, p);
        TailPoints(t, p);
      }
      CanonicalUnique(s[1..], t[1..]);
    }
  }

  lemma TailPoints(s: seq<Range>, p: int)
    requires Canonical(s) && s != []
    ensures In(s[1..], p) <==> In(s, p) && !Covers(s[0], p)
  {
    InStep(s, 0, p);
    assert s[0..] == s;
    if In(s[1..], p) {
      var i :| 0 <= i < |s[1..]| && Covers(s[1..][i], p);
      assert s[1..][i] == s[i + 1];
    }
  }

  /** The first range of a canonical list starts and ends no later than that of an equal set. */
  lemma FirstRange(s: seq<Range>, t: seq<Range>)
    requires Canonical(s) && Canonical(t) && SamePoints(s, t) && s != [] && t != []
    ensures s[0].0 <= t[0].0 && (s[0].0 == t[0].0 ==> s[0].1 <= t[0].1)
  {
    assert Covers(t[0], t[0].0) && In(t, t[0].0) && In(s, t[0].0);
    assert !In(t, t[0].1 + 1);
    assert !Covers(s[0], t[0].1 + 1);
  }

  // ----- comparing two ranges -----

  datatype Cmp = Eq | BInA | AInB | Disjoin | Join | JoinAB | JoinBA

  function CmpInterval(a: Range, b: Range): (r: Cmp)
    ensures a.0 <= a.1 && b.0 <= b.1 ==>
      && (r.Disjoin? <==> a.1 + 1 < b.0 || b.1 + 1 < a.0)
      && (r.JoinAB? <==> a.1 + 1 == b.0)
      && (r.JoinBA? <==> b.1 + 1 == a.0)
      && (r.Eq? || r.BInA? <==> a.0 <= b.0 && b.1 <= a.1)
      && (r.Eq? || r.AInB? <==> b.0 <= a.0 && a.1 <= b.1)
      && (r.Join? ==> (a.0 < b.0 <= a.1 < b.1) || (b.0 < a.0 <= b.1 < a.1))
  {
    if a == b then Eq
    else if a.0 > b.1 + 1 || b.0 > a.1 + 1 then Disjoin
    else if b.1 + 1 == a.0 then JoinBA
    else if a.1 + 1 == b.0 then JoinAB
    else if b.0 <= a.0 && b.1 >= a.1 then AInB
    else if a.0 <= b.0 && a.1 >= b.1 then BInA
    else Join
  }

  // ----- canonical form -----

  predicate Before(a: Range, b: Range) {
    a.0 < b.0 || (a.0 == b.0 && a.1 <= b.1)
  }

  ghost predicate Ordered(s: seq<Range>) {
    forall i, j :: 0 <= i < j < |s| ==> Before(s[i], s[j])
  }

  function Insert(s: seq<Range>, r: Range): (t: seq<Range>)
  {
    if s == [] || Before(r, s[0]) then [r] + s else [s[0]] + Insert(s[1..], r)
  }

  /** The non-empty ranges in order. */
  function SortedRanges(s: seq<Range>): (t: seq<Range>) {
    if s == [] then [] else if s[0].0 <= s[0].1 then Insert(SortedRanges(s[1..]), s[0]) else SortedRanges(s[1..])
  }

  lemma {:induction false} InsertOrdered(s: seq<Range>, r: Range)
    requires Ordered(s) && (forall i :: 0 <= i < |s| ==> s[i].0 <= s[i].1) && r.0 <= r.1
    ensures Ordered(Insert(s, r)) && forall i :: 0 <= i < |Insert(s, r)| ==> Insert(s, r)[i].0 <= Insert(s, r)[i].1
    ensures forall x :: x in Insert(s, r) <==> x == r || x in s
  {
    if s != [] && !Before(r, s[0]) {
      InsertOrdered(s[1..], r);
      var t := Insert(s[1..], r);
      forall j | 0 <= j < |t|
        ensures Before(s[0], t[j])
      {
        assert t[j] in t;
      }
      assert s == [s[0]] + s[1..];
    }
  }

  lemma {:induction false} SortedOrdered(s: seq<Range>)
    ensures Ordered(SortedRanges(s)) && forall i :: 0 <= i < |SortedRanges(s)| ==> SortedRanges(s)[i].0 <= SortedRanges(s)[i].1
    ensures SamePoints(SortedRanges(s), s)
  {
    if s != [] {
      SortedOrdered(s[1..]);
      var t := SortedRanges(s[1..]);
      if s[0].0 <= s[0].1 {
        InsertOrdered(t, s[0]);
      }
      forall p
        ensures In(SortedRanges(s), p) <==> In(s, p)
      {
        InStep(s, 0, p);
        assert s[0..] == s;
        if s[0].0 <= s[0].1 { InsertPoints(t, s[0], p); }
      }
    }
  }

  lemma {:induction false} InsertPoints(s: seq<Range>, r: Range, p: int)
    ensures In(Insert(s, r), p) <==> In(s, p) || Covers(r, p)
  {
    InOne(r, p);
    if s == [] || Before(r, s[0]) {
      InJoin([r], s, p);
    } else {
      InsertPoints(s[1..], r, p);
      InJoin([s[0]], Insert(s[1..], r), p);
      InStep(s, 0, p);
      assert s[0..] == s;
      InOne(s[0], p);
    }
  }

  /** The stack built while merging: canonical, from the highest range down. */
  ghost predicate Descending(out: seq<Range>) {
    && (forall i :: 0 <= i < |out| ==> out[i].0 <= out[i].1)
    && (forall i, j :: 0 <= i < j < |out| ==> out[j].1 + 1 < out[i].0)
  }

  /** Merges the ranges, highest start first, into the unique canonical list of their points. */
  method CannonList(tmp0: seq<Range>) returns (r: seq<Range>)
    ensures Canonical(r) && SamePoints(r, tmp0)
  {
    hide In, Covers;
    SortedOrdered(tmp0);
    var tmp := SortedRanges(tmp0);
    ghost var all := tmp;
    var out: seq<Range> := [];
    if tmp == [] {
      return [];
    }
    out := [tmp[|tmp| - 1]];
    tmp := tmp[..|tmp| - 1];
    StackStart(all);
    while tmp != []
      invariant tmp <= all && Stack(all, |tmp|, out)
    {
      var x := tmp[|tmp| - 1];
      tmp := tmp[..|tmp| - 1];
      ghost var k := |tmp|;
      assert x == all[k];
      var rez := CmpInterval(out[|out| - 1], x);
      if rez.Eq? || rez.BInA? {
        StackCovered(all, k, out);
      } else if rez.Disjoin? {
        StackPush(all, k, out);
        out := out + [x];
      } else {
        var u, v := x.0, x.1;
        MergeStart(all, k, out);
        while out != [] && Merges(out[|out| - 1], (u, v))
          invariant Merging(all, k, out, u, v) && (rez.Join? || rez.JoinAB? || rez.JoinBA? || rez.AInB?)
          invariant out == [] || Merges(out[|out| - 1], (u, v)) || v + 1 < out[|out| - 1].0
          decreases |out|
        {
          MergeStep(all, k, out, u, v);
          var last := out[|out| - 1];
          u := if last.0 < u then last.0 else u;
          v := if last.1 > v then last.1 else v;
          out := out[..|out| - 1];
        }
        MergeEnd(all, k, out, u, v);
        out := out + [(u, v)];
      }
    }
    r := Reverse(out);
    ReverseCanonical(out);
    StackEnd(all, out);
  }

  predicate Merges(a: Range, b: Range) {
    var rez := CmpInterval(a, b);
    rez.Join? || rez.JoinAB? || rez.JoinBA? || rez.AInB?
  }

  /** The stack holds the points of the ranges from k on, and lies above all[k - 1]. */
  ghost predicate Stack(all: seq<Range>, k: nat, out: seq<Range>) {
    && k <= |all| && Ordered(all) && (forall i :: 0 <= i < |all| ==> all[i].0 <= all[i].1)
    && out != [] && Descending(out) && SamePoints(out, all[k..])
    && (forall i :: 0 <= i < k ==> all[i].0 <= out[|out| - 1].0)
  }

  /** While (u, v) is merged: the stack lies above u, and with (u, v) holds all points from k on. */
  ghost predicate Merging(all: seq<Range>, k: nat, out: seq<Range>, u: int, v: int) {
    && k < |all| && Ordered(all) && (forall i :: 0 <= i < |all| ==> all[i].0 <= all[i].1)
    && Descending(out) && u <= v && u == all[k].0
    && (forall i :: 0 <= i < |out| ==> u <= out[i].0)
    && (forall p :: In(out, p) || Covers((u, v), p) <==> In(all[k..], p))
  }

  lemma StackStart(all: seq<Range>)
    requires all != [] && Ordered(all) && forall i :: 0 <= i < |all| ==> all[i].0 <= all[i].1
    ensures Stack(all, |all| - 1, [all[|all| - 1]])
  {
    assert all[|all| - 1..] == [all[|all| - 1]];
  }

  lemma StackBounds(all: seq<Range>, k: nat, out: seq<Range>)
    requires Stack(all, k + 1, out)
    ensures forall i :: 0 <= i < |out| ==> all[k].0 <= out[i].0
    ensures forall i :: 0 <= i < k ==> all[i].0 <= all[k].0
  {}

  lemma StackCovered(all: seq<Range>, k: nat, out: seq<Range>)
    requires Stack(all, k + 1, out) && CmpInterval(out[|out| - 1], all[k]) in {Eq, BInA}
    ensures Stack(all, k, out)
  {
    forall p
      ensures In(out, p) <==> In(all[k..], p)
    {
      InStep(all, k, p);
      if Covers(all[k], p) { assert Covers(out[|out| - 1], p); }
    }
  }

  lemma StackPush(all: seq<Range>, k: nat, out: seq<Range>)
    requires Stack(all, k + 1, out) && CmpInterval(out[|out| - 1], all[k]).Disjoin?
    ensures Stack(all, k, out + [all[k]])
  {
    forall p
      ensures In(out + [all[k]], p) <==> In(all[k..], p)
    {
      InStep(all, k, p);
      InJoin(out, [all[k]], p);
      InOne(all[k], p);
    }
    StackBounds(all, k, out);
  }

  lemma MergeStart(all: seq<Range>, k: nat, out: seq<Range>)
    requires Stack(all, k + 1, out)
    ensures Merging(all, k, out, all[k].0, all[k].1)
  {
    StackBounds(all, k, out);
    forall p
      ensures In(out, p) || Covers(all[k], p) <==> In(all[k..], p)
    {
      InStep(all, k, p);
    }
  }

  lemma MergeStep(all: seq<Range>, k: nat, out: seq<Range>, u: int, v: int)
    requires Merging(all, k, out, u, v) && out != [] && Merges(out[|out| - 1], (u, v))
    ensures var last, rest := out[|out| - 1], out[..|out| - 1];
      var v' := if last.1 > v then last.1 else v;
      && Merging(all, k, rest, u, v') && u <= last.0
      && (rest == [] || Merges(rest[|rest| - 1], (u, v')) || v' + 1 < rest[|rest| - 1].0)
  {
    var last, rest := out[|out| - 1], out[..|out| - 1];
    var v' := if last.1 > v then last.1 else v;
    assert out[..|out|] == out;
    forall p
      ensures In(rest, p) || Covers((u, v'), p) <==> In(out, p) || Covers((u, v), p)
    {
      InStep(out, |out| - 1, p);
    }
  }

  lemma MergeEnd(all: seq<Range>, k: nat, out: seq<Range>, u: int, v: int)
    requires Merging(all, k, out, u, v) && (out == [] || v + 1 < out[|out| - 1].0)
    ensures Stack(all, k, out + [(u, v)])
  {
    forall p
      ensures In(out + [(u, v)], p) <==> In(all[k..], p)
    {
      InJoin(out, [(u, v)], p);
      InOne((u, v), p);
    }
  }

  function Reverse(s: seq<Range>): (r: seq<Range>) {
    seq(|s|, i requires 0 <= i < |s| => s[|s| - 1 - i])
  }

  lemma ReverseCanonical(s: seq<Range>)
    requires Descending(s)
    ensures Canonical(Reverse(s)) && SamePoints(Reverse(s), s)
  {
    forall p
      ensures In(Reverse(s), p) <==> In(s, p)
    {
      if In(s, p) {
        var i :| 0 <= i < |s| && Covers(s[i], p);
        assert Reverse(s)[|s| - 1 - i] == s[i];
      }
    }
  }

  lemma StackEnd(all: seq<Range>, out: seq<Range>)
    requires Stack(all, 0, out)
    ensures SamePoints(out, all)
  {
    assert all[0..] == all;
  }

  // ----- membership -----

  /** The constructor: any list of ranges, in canonical form. */
  method Make(bounds: seq<Range>) returns (r: seq<Range>)
    ensures Canonical(r) && SamePoints(r, bounds)
  {
    r := CannonList(bounds);
  }

  method ContainsPoint(s: seq<Range>, p: int) returns (r: bool)
    ensures r <==> In(s, p)
  {
    for i := 0 to |s|
      invariant forall j :: 0 <= j < i ==> !Covers(s[j], p)
    {
      if s[i].0 <= p <= s[i].1 {
        return true;
      }
    }
    return false;
  }

  /** A run of consecutive points of a canonical list lies in one range. */
  lemma {:induction false} OneRange(s: seq<Range>, i: nat, lo: int, hi: int)
    requires Canonical(s) && i < |s| && Covers(s[i], lo) && lo <= hi
    requires forall p :: lo <= p <= hi ==> In(s, p)
    ensures Covers(s[i], hi)
  {
    GapAfter(s, i);
  }

  lemma GapAfter(s: seq<Range>, i: nat)
    requires Canonical(s) && i < |s|
    ensures !In(s, s[i].1 + 1)
  {}

  /** Some range of a holds the whole range b. */
  ghost predicate Holds(a: seq<Range>, b: Range) {
    exists i :: 0 <= i < |a| && a[i].0 <= b.0 && b.1 <= a[i].1
  }

  lemma HoldsPoints(a: seq<Range>, b: Range)
    requires Canonical(a) && b.0 <= b.1
    ensures Holds(a, b) <==> forall p :: Covers(b, p) ==> In(a, p)
  {
    if forall p :: Covers(b, p) ==> In(a, p) {
      assert Covers(b, b.0) && In(a, b.0);
      var i :| 0 <= i < |a| && Covers(a[i], b.0);
      assert forall p :: b.0 <= p <= b.1 ==> Covers(b, p);
      OneRange(a, i, b.0, b.1);
    }
  }

  /** Is b a subset of a? */
  method ContainsInterval(a: seq<Range>, b: seq<Range>) returns (r: bool)
    requires Canonical(a) && Canonical(b)
    ensures r <==> forall p :: In(b, p) ==> In(a, p)
  {
    for i := 0 to |b|
      invariant forall k :: 0 <= k < i ==> Holds(a, b[k])
    {
      var isIn := false;
      for j := 0 to |a|
        invariant !isIn && forall k :: 0 <= k < j ==> !(a[k].0 <= b[i].0 && b[i].1 <= a[k].1)
      {
        var rez := CmpInterval(a[j], b[i]);
        if rez.Eq? || rez.BInA? {
          isIn := true;
          break;
        }
      }
      assert isIn <==> Holds(a, b[i]);
      HoldsPoints(a, b[i]);
      if !isIn {
        assert forall p :: Covers(b[i], p) ==> In(b, p);
        return false;
      }
    }
    forall k | 0 <= k < |b|
      ensures forall p :: Covers(b[k], p) ==> In(a, p)
    {
      HoldsPoints(a, b[k]);
    }
    return true;
  }

  // ----- union and intersection -----

  method Union(a: seq<Range>, b: seq<Range>) returns (r: seq<Range>)
    ensures Canonical(r) && forall p :: In(r, p) <==> In(a, p) || In(b, p)
  {
    r := Make(a + b);
    forall p
      ensures In(r, p) <==> In(a, p) || In(b, p)
    {
      InJoin(a, b, p);
    }
  }

  /** The common points of two ranges, as a list of at most one range. */
  function Common(x: Range, y: Range): (r: seq<Range>) {
    match CmpInterval(x, y)
    case Disjoin => []
    case Eq => [x]
    case AInB => [x]
    case BInA => [y]
    case JoinAB => []
    case JoinBA => []
    case Join => if x.0 < y.0 then [(y.0, x.1)] else [(x.0, y.1)]
  }

  lemma CommonPoints(x: Range, y: Range, p: int)
    requires x.0 <= x.1 && y.0 <= y.1
    ensures In(Common(x, y), p) <==> Covers(x, p) && Covers(y, p)
  {
    var c := Common(x, y);
    if c != [] { InOne(c[0], p); }
  }

  method Intersection(a: seq<Range>, b: seq<Range>) returns (r: seq<Range>)
    requires Canonical(a) && Canonical(b)
    ensures Canonical(r) && forall p :: In(r, p) <==> In(a, p) && In(b, p)
  {
    hide In, Covers, CmpInterval, Common;
    var out: seq<Range> := [];
    forall p ensures !In([], p) { InNothing(p); }
    assert a[..0] == [];
    for i := 0 to |a|
      invariant forall p :: In(out, p) <==> In(a[..i], p) && In(b, p)
    {
      ghost var before := out;
      assert b[..0] == [];
      for j := 0 to |b|
        invariant forall p :: In(out, p) <==> In(before, p) || (Covers(a[i], p) && In(b[..j], p))
      {
        forall p
          ensures In(out + Common(a[i], b[j]), p) <==> In(before, p) || (Covers(a[i], p) && In(b[..j + 1], p))
        {
          InJoin(out, Common(a[i], b[j]), p);
          CommonPoints(a[i], b[j], p);
          InStep(b, j, p);
        }
        out := out + Common(a[i], b[j]);
      }
      assert b[..|b|] == b;
      forall p
        ensures In(out, p) <==> In(a[..i + 1], p) && In(b, p)
      {
        InStep(a, i, p);
      }
    }
    assert a[..|a|] == a;
    r := Make(out);
  }

  // ----- difference -----

  /** The number of points of a list of disjoint ranges. */
  function Length(s: seq<Range>): (n: nat) {
    if s == [] then 0 else (if s[0].0 <= s[0].1 then s[0].1 - s[0].0 + 1 else 0) + Length(s[1..])
  }

  /** The ranges left to test stay apart and in order, some of them possibly empty. */
  ghost predicate Apart(s: seq<Range>) {
    && (forall i :: 0 <= i < |s| ==> s[i].0 <= s[i].1 + 1)
    && (forall i, j :: 0 <= i < j < |s| ==> s[i].1 < s[j].0)
  }

  /** What is left of x once y is cut out of it. */
  function Cut(x: Range, y: Range): (r: seq<Range>) {
    match CmpInterval(x, y)
    case Disjoin => [x]
    case Eq => []
    case AInB => []
    case BInA => [(x.0, y.0 - 1), (y.1 + 1, x.1)]
    case JoinAB => [x]
    case JoinBA => [x]
    case Join => if x.0 < y.0 then [(x.0, y.0 - 1)] else [(y.1 + 1, x.1)]
  }

  predicate Overlaps(x: Range, y: Range) {
    match CmpInterval(x, y)
    case Disjoin => false
    case JoinAB => false
    case JoinBA => false
    case _ => true
  }

  lemma CutPoints(x: Range, y: Range, p: int)
    requires x.0 <= x.1 && y.0 <= y.1
    ensures In(Cut(x, y), p) <==> Covers(x, p) && !Covers(y, p)
    ensures !Overlaps(x, y) ==> !(Covers(x, p) && Covers(y, p))
  {
    var c := Cut(x, y);
    if |c| == 1 { InOne(c[0], p); }
    if |c| == 2 { InJoin([c[0]], [c[1]], p); InOne(c[0], p); InOne(c[1], p); }
  }

  lemma CutSmaller(x: Range, y: Range, rest: seq<Range>)
    requires x.0 <= x.1 && y.0 <= y.1 && Overlaps(x, y)
    ensures Length(Cut(x, y) + rest) < Length([x] + rest)
  {
    var c := Cut(x, y);
    assert ([x] + rest)[1..] == rest;
    if |c| == 0 { assert c + rest == rest; }
    if |c| == 1 { assert (c + rest)[1..] == rest; }
    if |c| == 2 {
      assert (c + rest)[1..] == [c[1]] + rest;
      assert ([c[1]] + rest)[1..] == rest;
    }
  }

  lemma CutApart(s: seq<Range>, i: nat, y: Range)
    requires Apart(s) && i < |s| && s[i].0 <= s[i].1 && y.0 <= y.1 && Overlaps(s[i], y)
    ensures Apart(s[..i] + Cut(s[i], y) + s[i + 1..])
  {
    var c := Cut(s[i], y);
    var t := s[..i] + c + s[i + 1..];
    forall k | 0 <= k < |t|
      ensures t[k] == if k < i then s[k] else if k < i + |c| then c[k - i] else s[k - |c| + 1]
    {
    }
  }

  /** Same points outside del. */
  ghost predicate SameOutside(s: seq<Range>, t: seq<Range>, del: seq<Range>) {
    forall p :: !In(del, p) ==> (In(s, p) <==> In(t, p))
  }

  ghost predicate Clear(s: seq<Range>, del: seq<Range>) {
    forall p :: In(s, p) ==> !In(del, p)
  }

  ghost predicate ClearRange(x: Range, del: seq<Range>) {
    forall p :: Covers(x, p) ==> !In(del, p)
  }

  /** The loop of the difference: tested ranges are clear of the deleted points, which may be
      dropped from the front once every range left lies above them. */
  ghost predicate DiffState(a: seq<Range>, b: seq<Range>, test: seq<Range>, i: nat, d: nat) {
    && i <= |test| && d <= |b| && Canonical(b) && Apart(test) && SameOutside(test, a, b) && Clear(test[..i], b)
    && (forall k, j :: 0 <= k < d && i <= j < |test| ==> b[k].1 < test[j].0)
  }

  lemma DiffDrop(a: seq<Range>, b: seq<Range>, test: seq<Range>, i: nat, d: nat)
    requires DiffState(a, b, test, i, d) && d < |b| && i < |test| && b[d].1 < test[i].0
    ensures DiffState(a, b, test, i, d + 1)
  {
    hide SameOutside, Clear;
    forall j | i <= j < |test|
      ensures b[d].1 < test[j].0
    {
      if j > i { assert test[i].0 <= test[i].1 + 1 <= test[j].0; }
    }
  }

  lemma DiffClear(a: seq<Range>, b: seq<Range>, test: seq<Range>, i: nat, d: nat)
    requires DiffState(a, b, test, i, d) && i < |test| && ClearRange(test[i], b)
    ensures DiffState(a, b, test, i + 1, d)
  {
    hide SameOutside;
    forall p | In(test[..i + 1], p)
      ensures !In(b, p)
    {
      InStep(test, i, p);
    }
  }

  lemma EmptyGone(test: seq<Range>, i: nat)
    requires i < |test| && test[i].0 > test[i].1
    ensures forall p :: In(test[..i] + test[i + 1..], p) <==> In(test, p)
  {
    hide In;
    forall p
      ensures In(test[..i] + test[i + 1..], p) <==> In(test, p)
    {
      InJoin(test[..i], test[i + 1..], p);
      InSplit(test, i, p);
      InStep(test, i, p);
    }
  }

  lemma DiffEmpty(a: seq<Range>, b: seq<Range>, test: seq<Range>, i: nat, d: nat)
    requires DiffState(a, b, test, i, d) && i < |test| && test[i].0 > test[i].1
    ensures DiffState(a, b, test[..i] + test[i + 1..], i, d)
    ensures Length((test[..i] + test[i + 1..])[i..]) == Length(test[i..])
  {
    var t := test[..i] + test[i + 1..];
    assert t[..i] == test[..i] && t[i..] == test[i + 1..];
    assert test[i..][1..] == test[i + 1..];
    EmptyGone(test, i);
    hide In, Clear, Canonical;
    assert SameOutside(t, a, b);
    forall k | 0 <= k < |t|
      ensures t[k] == if k < i then test[k] else test[k + 1]
    {
    }
  }

  lemma DiffCut(a: seq<Range>, b: seq<Range>, test: seq<Range>, i: nat, d: nat, y: nat)
    requires DiffState(a, b, test, i, d) && i < |test| && test[i].0 <= test[i].1 && d <= y < |b| && Overlaps(test[i], b[y])
    ensures var t := test[..i] + Cut(test[i], b[y]) + test[i + 1..];
      DiffState(a, b, t, i, d) && Length(t[i..]) < Length(test[i..])
  {
    var c := Cut(test[i], b[y]);
    var t := test[..i] + c + test[i + 1..];
    CutApart(test, i, b[y]);
    assert t[..i] == test[..i];
    assert t[i..] == c + test[i + 1..];
    assert test[i..] == [test[i]] + test[i + 1..];
    CutSmaller(test[i], b[y], test[i + 1..]);
    CutOutside(test, i, b, y);
    CutStarts(test, i, b, d, y);
    hide In, Covers, Cut, Overlaps, CmpInterval, Length;
    assert SameOutside(t, a, b);
  }

  lemma CutOutside(test: seq<Range>, i: nat, b: seq<Range>, y: nat)
    requires i < |test| && test[i].0 <= test[i].1 && y < |b| && b[y].0 <= b[y].1
    ensures SameOutside(test[..i] + Cut(test[i], b[y]) + test[i + 1..], test, b)
  {
    var c := Cut(test[i], b[y]);
    hide Cut, CmpInterval;
    forall p | !In(b, p)
      ensures In(test[..i] + c + test[i + 1..], p) <==> In(test, p)
    {
      InJoin(test[..i] + c, test[i + 1..], p);
      InJoin(test[..i], c, p);
      InSplit(test, i, p);
      InStep(test, i, p);
      CutPoints(test[i], b[y], p);
    }
  }

  lemma CutStarts(test: seq<Range>, i: nat, b: seq<Range>, d: nat, y: nat)
    requires i < |test| && Canonical(b) && d <= y < |b| && test[i].0 <= test[i].1
    requires forall k, j :: 0 <= k < d && i <= j < |test| ==> b[k].1 < test[j].0
    ensures var t := test[..i] + Cut(test[i], b[y]) + test[i + 1..];
      forall k, j :: 0 <= k < d && i <= j < |t| ==> b[k].1 < t[j].0
  {
    var c := Cut(test[i], b[y]);
    var t := test[..i] + c + test[i + 1..];
    forall k, j | 0 <= k < d && i <= j < |t|
      ensures b[k].1 < t[j].0
    {
      assert b[k].1 < test[i].0 && b[k].1 < b[y].0;
      if j < i + |c| { assert t[j] == c[j - i]; } else { assert t[j] == test[j - |c| + 1]; }
    }
  }

  /** Nothing of b meets x: dropped ranges lie below it, scanned ones do not overlap it, the
      rest lies above. */
  lemma Scanned(a: seq<Range>, b: seq<Range>, test: seq<Range>, i: nat, d: nat, y: nat)
    requires DiffState(a, b, test, i, d) && i < |test| && test[i].0 <= test[i].1 && d <= y <= |b|
    requires forall k :: d <= k < y ==> !Overlaps(test[i], b[k])
    requires y < |b| ==> test[i].1 < b[y].0
    ensures ClearRange(test[i], b)
  {
    forall p, k | Covers(test[i], p) && 0 <= k < |b|
      ensures !Covers(b[k], p)
    {
      if d <= k < y { CutPoints(test[i], b[k], p); }
    }
  }

  /** Cuts the ranges of b out of those of a, splitting in place. */
  /** The first range of toDel that overlaps x, before those past its end. */
  method FirstOverlap(x: Range, toDel: seq<Range>) returns (k: nat, cut: bool)
    ensures k <= |toDel| && forall j :: 0 <= j < k ==> !Overlaps(x, toDel[j])
    ensures cut ==> k < |toDel| && toDel[k].0 <= x.1 && Overlaps(x, toDel[k])
    ensures !cut ==> k == |toDel| || toDel[k].0 > x.1
  {
    hide Overlaps;
    k, cut := 0, false;
    while k < |toDel| && toDel[k].0 <= x.1
      invariant k <= |toDel| && forall j :: 0 <= j < k ==> !Overlaps(x, toDel[j])
    {
      if Overlaps(x, toDel[k]) { return k, true; }
      k := k + 1;
    }
  }

  method Difference(a: seq<Range>, b: seq<Range>) returns (r: seq<Range>)
    requires Canonical(a) && Canonical(b)
    ensures Canonical(r) && forall p :: In(r, p) <==> In(a, p) && !In(b, p)
  {
    hide In, Covers, Cut, Overlaps, CmpInterval, DiffState, Length, ClearRange;
    var test := a;
    var toDel := b;
    ghost var d := 0;
    var i := 0;
    DiffStart(a, b);
    while i < |test|
      invariant DiffState(a, b, test, i, d) && 0 <= d <= |b| && toDel == b[d..] && i <= |test|
      decreases Length(test[i..]), |test| - i
    {
      var x := test[i];
      if x.0 > x.1 {
        DiffEmpty(a, b, test, i, d);
        test := test[..i] + test[i + 1..];
        continue;
      }
      while toDel != [] && toDel[0].1 < x.0
        invariant DiffState(a, b, test, i, d) && 0 <= d <= |b| && toDel == b[d..]
        decreases |toDel|
      {
        assert toDel[0] == b[d];
        DiffDrop(a, b, test, i, d);
        d := d + 1;
        toDel := toDel[1..];
      }
      var k, cut := FirstOverlap(x, toDel);
      if cut {
        assert toDel[k] == b[d + k];
        CanonicalRange(b, d + k);
        DiffCut(a, b, test, i, d, d + k);
        test := test[..i] + Cut(x, toDel[k]) + test[i + 1..];
        DiffBound(a, b, test, i, d);
      } else {
        assert k < |toDel| ==> toDel[k] == b[d + k];
        assert forall j :: d <= j < d + k ==> b[j] == toDel[j - d];
        Scanned(a, b, test, i, d, d + k);
        DiffClear(a, b, test, i, d);
        LengthStep(test, i);
        i := i + 1;
      }
    }
    r := Make(test);
    DiffEnd(a, b, test, d);
  }

  lemma CanonicalRange(b: seq<Range>, k: nat)
    requires Canonical(b) && k < |b|
    ensures b[k].0 <= b[k].1
  {}

  lemma DiffBound(a: seq<Range>, b: seq<Range>, test: seq<Range>, i: nat, d: nat)
    requires DiffState(a, b, test, i, d)
    ensures i <= |test|
  {}

  lemma LengthStep(s: seq<Range>, i: nat)
    requires i < |s|
    ensures Length(s[i + 1..]) <= Length(s[i..])
  {
    assert s[i..][1..] == s[i + 1..];
  }

  lemma DiffStart(a: seq<Range>, b: seq<Range>)
    requires Canonical(a) && Canonical(b)
    ensures DiffState(a, b, a, 0, 0)
  {}

  lemma DiffEnd(a: seq<Range>, b: seq<Range>, test: seq<Range>, d: nat)
    requires DiffState(a, b, test, |test|, d)
    ensures forall p :: In(test, p) <==> In(a, p) && !In(b, p)
  {
    assert test[..|test|] == test;
  }

  // ----- bounds -----

  datatype Hull = Empty | Hull(start: int, end: int)

  /** The first and last bounds of a canonical list. */
  function HullOf(s: seq<Range>): (h: Hull) {
    if s == [] then Empty else Hull(s[0].0, s[|s| - 1].1)
  }

  lemma HullBounds(s: seq<Range>)
    requires Canonical(s)
    ensures HullOf(s).Empty? <==> forall p :: !In(s, p)
    ensures HullOf(s).Hull? ==> In(s, HullOf(s).start) && In(s, HullOf(s).end)
    ensures HullOf(s).Hull? ==> forall p :: In(s, p) ==> HullOf(s).start <= p <= HullOf(s).end
  {
    if s != [] {
      assert Covers(s[0], s[0].0) && Covers(s[|s| - 1], s[|s| - 1].1);
      assert In(s, s[0].0) && In(s, s[|s| - 1].1);
      forall i | 0 <= i < |s|
        ensures s[0].0 <= s[i].0 && s[i].1 <= s[|s| - 1].1
      {
        if i > 0 { assert s[0].1 + 1 < s[i].0; }
        if i < |s| - 1 { assert s[i].1 + 1 < s[|s| - 1].0; }
      }
    }
  }

  /** A canonical list has one point exactly when its bounds are equal. */
  lemma LengthOne(s: seq<Range>)
    requires Canonical(s)
    ensures Length(s) == 1 <==> HullOf(s).Hull? && HullOf(s).start == HullOf(s).end
  {
    if |s| > 1 {
      LengthPositive(s[1..]);
      assert s[0].1 + 1 < s[|s| - 1].0;
    }
  }

  lemma LengthPositive(s: seq<Range>)
    requires Canonical(s) && s != []
    ensures Length(s) >= 1
  {}
}
