/**
 Renaming of one block (miasm/analysis/ssa.py): destinations and sources of parallel
 assignments get the versions held by two counters, memory destinations first.
 */
module SsaRenaming {
  import opened Ir
  import opened SsaForm
  import opened SsaTables

  type Assignment = (Expr, Expr)

  ghost predicate Occurs(list: seq<Assignment>, d: Expr) {
    exists i :: 0 <= i < |list| && list[i].0 == d
  }

  lemma OccursAppend(list: seq<Assignment>, x: Assignment, d: Expr)
    ensures Occurs(list + [x], d) <==> Occurs(list, d) || x.0 == d
    ensures Occurs([x] + list, d) <==> Occurs(list, d) || x.0 == d
  {
    var after, before := list + [x], [x] + list;
    assert after[|list|] == x && before[0] == x;
    if Occurs(list, d) {
      var i :| 0 <= i < |list| && list[i].0 == d;
      assert after[i].0 == d && before[i + 1].0 == d;
    }
    if Occurs(after, d) && x.0 != d {
      var i :| 0 <= i < |after| && after[i].0 == d;
      assert list[i].0 == d;
    }
    if Occurs(before, d) && x.0 != d {
      var i :| 0 <= i < |before| && before[i].0 == d;
      assert list[i - 1].0 == d;
    }
  }

  ghost predicate Distinct(list: seq<Assignment>) {
    forall i, j :: 0 <= i < j < |list| ==> list[i].0 != list[j].0
  }

  ghost predicate Within(a: AssignBlk, list: seq<Assignment>) {
    forall i :: 0 <= i < |list| ==> list[i].0 in a && list[i].1 == a[list[i].0]
  }

  /** The list holds each assignment of the block once. */
  ghost predicate Enumerates(a: AssignBlk, list: seq<Assignment>) {
    |list| == |a| && Within(a, list) && Distinct(list) && forall d :: d in a ==> Occurs(list, d)
  }

  ghost predicate MemoryFirst(list: seq<Assignment>) {
    forall i, j :: 0 <= i < j < |list| && list[j].0.Mem? ==> list[i].0.Mem?
  }

  /** Adding an assignment not listed yet, in front for memory and behind otherwise. */
  lemma ListGrows(a: AssignBlk, list: seq<Assignment>, d: Expr)
    requires d in a && Within(a, list) && Distinct(list) && MemoryFirst(list) && !Occurs(list, d)
    ensures d.Mem? ==> Within(a, [(d, a[d])] + list) && Distinct([(d, a[d])] + list) && MemoryFirst([(d, a[d])] + list)
    ensures !d.Mem? ==> Within(a, list + [(d, a[d])]) && Distinct(list + [(d, a[d])]) && MemoryFirst(list + [(d, a[d])])
  {
    assert forall i :: 0 <= i < |list| ==> list[i].0 != d;
  }

  /** The assignments of a block as a list, those to memory first. */
  method ParallelInstructions(a: AssignBlk) returns (list: seq<Assignment>)
    ensures Enumerates(a, list) && MemoryFirst(list)
  {
    hide Within, Distinct, MemoryFirst, Occurs;
    list := [];
    ListEmpty(a);
    var todo := a.Keys;
    assert |a| == |a.Keys|;
    while todo != {}
      invariant todo <= a.Keys && |list| == |a| - |todo|
      invariant Within(a, list) && Distinct(list) && MemoryFirst(list)
      invariant forall d :: d in a ==> (Occurs(list, d) <==> d !in todo)
      decreases todo
    {
      var d :| d in todo;
      todo := todo - {d};
      ListGrows(a, list, d);
      forall d' {
        OccursAppend(list, (d, a[d]), d');
      }
      if d.Mem? {
        list := [(d, a[d])] + list;
      } else {
        list := list + [(d, a[d])];
      }
    }
  }

  lemma ListEmpty(a: AssignBlk)
    ensures Within(a, []) && Distinct([]) && MemoryFirst([]) && forall d :: !Occurs([], d)
  {}

  /** An assignment block from a list: a later assignment to the same place wins. */
  function ToAssign(list: seq<Assignment>): (r: AssignBlk) {
    if list == [] then map[]
    else ToAssign(list[..|list| - 1])[list[|list| - 1].0 := list[|list| - 1].1]
  }

  lemma {:induction false} ToAssignContents(list: seq<Assignment>)
    requires Distinct(list)
    ensures Within(ToAssign(list), list)
    ensures forall k :: k in ToAssign(list) <==> Occurs(list, k)
  {
    if list != [] {
      var init, last := list[..|list| - 1], list[|list| - 1];
      assert list == init + [last];
      ToAssignContents(init);
      forall k
        ensures k in ToAssign(list) <==> Occurs(list, k)
      {
        OccursAppend(init, last, k);
      }
    }
  }

  /** What renaming makes of a list of assignments. */
  ghost predicate ListRenamed(
    irdst: Var, list: seq<Assignment>, out: seq<Assignment>, before: Versions, after: Versions)
  {
    && |out| == |list|
    && (forall i :: 0 <= i < |list| ==> out[i].0 == RenamedDst(irdst, list[i].0, before, after))
    && (forall i :: 0 <= i < |list| ==> out[i].1 == Rename(list[i].1, before))
  }

  /** A renamed list makes a renamed block. */
  lemma ListMakesBlock(
    irdst: Var, a: AssignBlk, list: seq<Assignment>, out: seq<Assignment>, before: Versions, after: Versions)
    requires PlainAssign(a) && irdst !in after && Enumerates(a, list) && ListRenamed(irdst, list, out, before, after)
    ensures AssignRenamed(irdst, a, ToAssign(out), before, after)
  {
    var b := ToAssign(out);
    forall i, j | 0 <= i < j < |out|
      ensures out[i].0 != out[j].0
    {
      if out[i].0 == out[j].0 {
        DstInjective(irdst, a, list[i].0, list[j].0, before, after);
      }
    }
    assert Distinct(out);
    ToAssignContents(out);
    forall d | d in a
      ensures RenamedDst(irdst, d, before, after) in b
      ensures b[RenamedDst(irdst, d, before, after)] == Rename(a[d], before)
    {
      assert Occurs(list, d);
      var i :| 0 <= i < |list| && list[i].0 == d;
      assert out[i].0 in b && b[out[i].0] == out[i].1;
    }
    forall k | k in b
      ensures exists d :: d in a && k == RenamedDst(irdst, d, before, after)
    {
      assert Occurs(out, k);
      var i :| 0 <= i < |out| && out[i].0 == k;
      assert list[i].0 in a;
    }
  }

  // ----- splitting a flat list of assignments back into blocks -----

  /** How many assignments precede the i-th assignment block. */
  function Offset(b: Block, i: nat): (r: nat)
    requires i <= |b|
  {
    if i == 0 then 0 else Offset(b, i - 1) + |b[i - 1]|
  }

  lemma {:induction false} OffsetMonotone(b: Block, i: nat, j: nat)
    requires i <= j <= |b|
    ensures Offset(b, i) <= Offset(b, j)
  {
    if i < j { OffsetMonotone(b, i, j - 1); }
  }

  /** The part of the list that belongs to the i-th assignment block. */
  ghost function Chunk(b: Block, list: seq<Assignment>, i: nat): (r: seq<Assignment>)
    requires i < |b| && Offset(b, i + 1) <= |list|
  {
    list[Offset(b, i)..Offset(b, i + 1)]
  }

  ghost predicate ChunkIs(b: Block, list: seq<Assignment>, i: nat, x: AssignBlk) {
    i < |b| && Offset(b, i + 1) <= |list| && x == ToAssign(Chunk(b, list, i))
  }

  ghost predicate Converted(b: Block, list: seq<Assignment>, out: Block) {
    forall i :: 0 <= i < |out| ==> ChunkIs(b, list, i, out[i])
  }

  method ConvertBlock(b: Block, ssaList: seq<Assignment>) returns (out: Block)
    requires |ssaList| == Offset(b, |b|)
    ensures |out| == |b| && Converted(b, ssaList, out)
  {
    out := [];
    var pos := 0;
    for i := 0 to |b|
      invariant pos == Offset(b, i) && |out| == i && Converted(b, ssaList, out)
    {
      OffsetMonotone(b, i + 1, |b|);
      var instructions := [];
      for k := 0 to |b[i]|
        invariant pos == Offset(b, i) + k && instructions == ssaList[Offset(b, i)..pos]
      {
        instructions := instructions + [ssaList[pos]];
        pos := pos + 1;
      }
      assert instructions == Chunk(b, ssaList, i);
      out := out + [ToAssign(instructions)];
      assert ChunkIs(b, ssaList, i, out[i]);
      hide ChunkIs, ToAssign;
    }
  }

  lemma ChunkKept(b: Block, list: seq<Assignment>, more: seq<Assignment>, i: nat, x: AssignBlk)
    requires ChunkIs(b, list, i, x)
    ensures ChunkIs(b, list + more, i, x)
  {
    OffsetMonotone(b, i, i + 1);
    assert Chunk(b, list + more, i) == Chunk(b, list, i);
  }

  lemma ChunkAdded(b: Block, list: seq<Assignment>, i: nat, more: seq<Assignment>)
    requires i < |b| && |list| == Offset(b, i) && |more| == |b[i]|
    ensures ChunkIs(b, list + more, i, ToAssign(more)) && |list + more| == Offset(b, i + 1)
  {
    assert Chunk(b, list + more, i) == more;
  }

  /** The assignments of one more block, added at the end of the list. */
  lemma ConvertedGrows(b: Block, list: seq<Assignment>, out: Block, more: seq<Assignment>)
    requires Converted(b, list, out) && |out| < |b| && |list| == Offset(b, |out|) && |more| == |b[|out|]|
    ensures Converted(b, list + more, out + [ToAssign(more)])
    ensures |list + more| == Offset(b, |out| + 1)
  {
    hide ChunkIs, ToAssign, Offset, Chunk;
    ChunkAdded(b, list, |out|, more);
    forall j | 0 <= j < |out|
      ensures ChunkIs(b, list + more, j, out[j])
    {
      ChunkKept(b, list, more, j, out[j]);
    }
  }

  lemma ConvertedUnique(b: Block, list: seq<Assignment>, out: Block, out': Block)
    requires Converted(b, list, out) && Converted(b, list, out') && |out| == |out'|
    ensures out == out'
  {
    hide ToAssign;
    forall i | 0 <= i < |out|
      ensures out[i] == out'[i]
    {
      assert ChunkIs(b, list, i, out[i]) && ChunkIs(b, list, i, out'[i]);
    }
  }
}
