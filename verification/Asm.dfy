/**
 What a disassembled program is (miasm/core/asmblock.py): blocks of consecutive instructions
 whose exits are the successors of their last instruction, tiling the decoded offsets.
 Locations are identified with their offsets.
 */
module Asm {

  datatype Instr = Instr(length: nat, breakflow: bool, splitflow: bool, subcall: bool, dsts: seq<int>)

  /** The bytes as what decodes at each offset, and two options of the engine. */
  datatype Engine = Engine(code: map<int, Instr>, followCall: bool, dontdisRetcall: bool)

  ghost predicate Decodes(e: Engine) {
    forall off :: off in e.code ==> e.code[off].length > 0
  }

  datatype Constraint = Next | To

  /** A block: the offsets of its instructions and its destinations; a bad block has neither. */
  datatype AsmBlock = AsmBlock(lines: seq<int>, bto: map<int, Constraint>, bad: bool)

  // ----- instructions -----

  predicate FallsThrough(e: Engine, i: Instr) {
    !i.breakflow || (i.splitflow && !(i.subcall && e.dontdisRetcall))
  }

  function Followed(e: Engine, i: Instr): (r: seq<int>) {
    if i.breakflow && (!i.subcall || e.followCall) then i.dsts else []
  }

  /** The offsets control may go to after the instruction at off. */
  function Successors(e: Engine, off: int): (r: set<int>)
    requires off in e.code
  {
    var i := e.code[off];
    (set d | d in Followed(e, i)) + if FallsThrough(e, i) then {off + i.length} else {}
  }

  /** The destinations of a block ending with the instruction at off; falling through wins over jumping. */
  function Exits(e: Engine, off: int): (r: map<int, Constraint>)
    requires off in e.code
  {
    map d | d in Successors(e, off) ::
      if FallsThrough(e, e.code[off]) && d == off + e.code[off].length then Next else To
  }

  /** p is a run of the program from a to b. */
  ghost predicate Run(e: Engine, p: seq<int>, a: int, b: int) {
    && |p| > 0 && p[0] == a && p[|p| - 1] == b && forall i :: 0 <= i < |p| - 1 ==> RunStep(e, p, i)
  }

  ghost predicate RunStep(e: Engine, p: seq<int>, i: nat)
    requires i < |p| - 1
  {
    p[i] in e.code && p[i + 1] in Successors(e, p[i])
  }

  ghost predicate Reaches(e: Engine, a: int, b: int) {
    exists p :: Run(e, p, a, b)
  }

  lemma ReachesSelf(e: Engine, a: int)
    ensures Reaches(e, a, a)
  {
    assert Run(e, [a], a, a);
  }

  lemma ReachesStep(e: Engine, a: int, b: int, c: int)
    requires Reaches(e, a, b) && b in e.code && c in Successors(e, b)
    ensures Reaches(e, a, c)
  {
    var p :| Run(e, p, a, b);
    var q := p + [c];
    forall i | 0 <= i < |q| - 1
      ensures RunStep(e, q, i)
    {
      if i < |p| - 1 { assert RunStep(e, p, i); }
    }
    assert Run(e, q, a, c);
  }

  // ----- blocks -----

  ghost predicate LinesOk(e: Engine, n: int, lines: seq<int>) {
    && |lines| > 0 && lines[0] == n
    && (forall i :: 0 <= i < |lines| ==> lines[i] in e.code)
    && (forall i :: 0 <= i < |lines| - 1 ==> LineStep(e, lines, i))
  }

  /** The i-th instruction does not break the flow and the next one follows it. */
  ghost predicate LineStep(e: Engine, lines: seq<int>, i: nat)
    requires i < |lines| - 1
  {
    lines[i] in e.code && !e.code[lines[i]].breakflow && lines[i + 1] == lines[i] + e.code[lines[i]].length
  }

  /** Consecutive instructions, only the last of which may break the flow, and its exits. */
  ghost predicate BlockOk(e: Engine, n: int, b: AsmBlock) {
    if b.bad then b.lines == [] && b.bto == map[] && n !in e.code
    else LinesOk(e, n, b.lines) && b.bto == Exits(e, b.lines[|b.lines| - 1])
  }

  ghost predicate LineAt(blocks: map<int, AsmBlock>, n: int, i: nat, off: int) {
    n in blocks && i < |blocks[n].lines| && blocks[n].lines[i] == off
  }

  /** off was decoded in some block, or heads a bad one. */
  ghost predicate Placed(blocks: map<int, AsmBlock>, off: int) {
    (exists n, i: nat :: LineAt(blocks, n, i, off)) || (off in blocks && blocks[off].bad)
  }

  /** The blocks are well formed and hold each offset of done exactly once. */
  ghost predicate Tiled(e: Engine, blocks: map<int, AsmBlock>, done: set<int>) {
    BlocksOk(e, blocks) && Covers(blocks, done) && Unique(blocks)
  }

  ghost predicate BlocksOk(e: Engine, blocks: map<int, AsmBlock>) {
    forall n :: n in blocks ==> BlockOk(e, n, blocks[n])
  }

  ghost predicate Covers(blocks: map<int, AsmBlock>, done: set<int>) {
    && (forall n :: n in blocks ==> n in done)
    && (forall off :: off in done ==> Placed(blocks, off))
    && (forall n, i: nat, off :: LineAt(blocks, n, i, off) ==> off in done)
  }

  ghost predicate Unique(blocks: map<int, AsmBlock>) {
    forall n, i: nat, n', i': nat, off :: LineAt(blocks, n, i, off) && LineAt(blocks, n', i', off) ==> n == n' && i == i'
  }

  lemma {:induction false} LinesIncrease(e: Engine, n: int, lines: seq<int>, i: nat, j: nat)
    requires Decodes(e) && LinesOk(e, n, lines) && i < j < |lines|
    ensures lines[i] < lines[j]
    decreases j
  {
    assert LineStep(e, lines, j - 1);
    if i < j - 1 { LinesIncrease(e, n, lines, i, j - 1); }
  }

  /** The instruction after each instruction of a block: inside the block, then its exits. */
  lemma SuccessorsInBlock(e: Engine, n: int, b: AsmBlock, i: nat)
    requires BlockOk(e, n, b) && !b.bad && i < |b.lines|
    ensures b.lines[i] in e.code
    ensures Successors(e, b.lines[i]) == if i < |b.lines| - 1 then {b.lines[i + 1]} else b.bto.Keys
  {
    var off := b.lines[i];
    if i < |b.lines| - 1 {
      assert LineStep(e, b.lines, i);
      assert (set d | d in Followed(e, e.code[off])) == {};
    } else {
      assert Exits(e, off).Keys == Successors(e, off);
    }
  }

  // ----- splitting a block -----

  function FirstPart(b: AsmBlock, i: nat): (r: AsmBlock)
    requires i < |b.lines|
  {
    b.(lines := b.lines[..i], bto := map[b.lines[i] := Next])
  }

  function SecondPart(b: AsmBlock, i: nat): (r: AsmBlock)
    requires i < |b.lines|
  {
    AsmBlock(b.lines[i..], b.bto, false)
  }

  /** Splitting at an instruction makes two blocks, the first falling into the second. */
  lemma SplitOk(e: Engine, n: int, b: AsmBlock, i: nat)
    requires BlockOk(e, n, b) && 0 < i < |b.lines|
    ensures !b.bad && BlockOk(e, n, FirstPart(b, i)) && BlockOk(e, b.lines[i], SecondPart(b, i))
  {
    var first, second := b.lines[..i], b.lines[i..];
    SplitExits(e, n, b, i);
    forall k | 0 <= k < |first| - 1
      ensures LineStep(e, first, k)
    {
      assert LineStep(e, b.lines, k);
    }
    forall k | 0 <= k < |second| - 1
      ensures LineStep(e, second, k)
    {
      assert LineStep(e, b.lines, i + k);
    }
    hide Exits;
    assert LinesOk(e, n, first) && LinesOk(e, b.lines[i], second);
    assert second[|second| - 1] == b.lines[|b.lines| - 1];
  }

  lemma SplitExits(e: Engine, n: int, b: AsmBlock, i: nat)
    requires BlockOk(e, n, b) && 0 < i < |b.lines|
    ensures b.lines[i - 1] in e.code && Exits(e, b.lines[i - 1]) == map[b.lines[i] := Next]
  {
    SuccessorsInBlock(e, n, b, i - 1);
    assert LineStep(e, b.lines, i - 1);
    var x := Exits(e, b.lines[i - 1]);
    assert x.Keys == {b.lines[i]};
  }

  lemma SplitTiled(e: Engine, blocks: map<int, AsmBlock>, done: set<int>, n: int, i: nat)
    requires Tiled(e, blocks, done) && n in blocks && 0 < i < |blocks[n].lines|
    ensures var b, off := blocks[n], blocks[n].lines[i];
      && off !in blocks && off in done
      && Tiled(e, blocks[n := FirstPart(b, i)][off := SecondPart(b, i)], done)
  {
    hide BlockOk, Unique, Covers;
    var off := blocks[n].lines[i];
    SplitOk(e, n, blocks[n], i);
    HeadIsLine(e, blocks, done, n, i);
    SplitCovers(blocks, done, n, i);
    SplitUnique(blocks, n, i);
  }

  /** Where a line of the split blocks was before. */
  lemma SplitOrigin(blocks: map<int, AsmBlock>, n: int, i: nat, m: int, k: nat, x: int)
    requires n in blocks && 0 < i < |blocks[n].lines| && blocks[n].lines[i] !in blocks
    requires LineAt(blocks[n := FirstPart(blocks[n], i)][blocks[n].lines[i] := SecondPart(blocks[n], i)], m, k, x)
    ensures m == blocks[n].lines[i] ==> LineAt(blocks, n, i + k, x)
    ensures m != blocks[n].lines[i] ==> LineAt(blocks, m, k, x) && (m == n ==> k < i)
  {}

  lemma SplitCovers(blocks: map<int, AsmBlock>, done: set<int>, n: int, i: nat)
    requires Covers(blocks, done) && n in blocks && 0 < i < |blocks[n].lines| && blocks[n].lines[i] !in blocks && !blocks[n].bad
    ensures blocks[n].lines[i] in done
    ensures Covers(blocks[n := FirstPart(blocks[n], i)][blocks[n].lines[i] := SecondPart(blocks[n], i)], done)
  {
    var b, off := blocks[n], blocks[n].lines[i];
    assert LineAt(blocks, n, i, off);
    var blocks' := blocks[n := FirstPart(b, i)][off := SecondPart(b, i)];
    forall m, k: nat, x | LineAt(blocks', m, k, x)
      ensures x in done
    {
      SplitOrigin(blocks, n, i, m, k, x);
    }
    forall x | x in done
      ensures Placed(blocks', x)
    {
      SplitPlaced(blocks, n, i, x);
    }
  }

  lemma SplitUnique(blocks: map<int, AsmBlock>, n: int, i: nat)
    requires Unique(blocks) && n in blocks && 0 < i < |blocks[n].lines| && blocks[n].lines[i] !in blocks
    ensures Unique(blocks[n := FirstPart(blocks[n], i)][blocks[n].lines[i] := SecondPart(blocks[n], i)])
  {
    var blocks' := blocks[n := FirstPart(blocks[n], i)][blocks[n].lines[i] := SecondPart(blocks[n], i)];
    forall m, k: nat, m', k': nat, x | LineAt(blocks', m, k, x) && LineAt(blocks', m', k', x)
      ensures m == m' && k == k'
    {
      SplitOrigin(blocks, n, i, m, k, x);
      SplitOrigin(blocks, n, i, m', k', x);
      hide LineAt;
    }
  }

  /** An instruction inside a block heads no block. */
  lemma HeadIsLine(e: Engine, blocks: map<int, AsmBlock>, done: set<int>, n: int, i: nat)
    requires Tiled(e, blocks, done) && n in blocks && 0 < i < |blocks[n].lines|
    ensures blocks[n].lines[i] !in blocks && n != blocks[n].lines[i]
  {
    var off := blocks[n].lines[i];
    assert LineAt(blocks, n, i, off) && LineAt(blocks, n, 0, n);
    assert off in e.code;
    if off in blocks {
      assert !blocks[off].bad;
      assert LineAt(blocks, off, 0, off);
    }
  }

  lemma SplitPlaced(blocks: map<int, AsmBlock>, n: int, i: nat, x: int)
    requires n in blocks && 0 < i < |blocks[n].lines| && blocks[n].lines[i] !in blocks && !blocks[n].bad && Placed(blocks, x)
    ensures Placed(blocks[n := FirstPart(blocks[n], i)][blocks[n].lines[i] := SecondPart(blocks[n], i)], x)
  {
    var b, off := blocks[n], blocks[n].lines[i];
    var blocks' := blocks[n := FirstPart(b, i)][off := SecondPart(b, i)];
    if m, k: nat :| LineAt(blocks, m, k, x) {
      if m == n && k >= i {
        assert LineAt(blocks', off, k - i, x);
      } else {
        assert LineAt(blocks', m, k, x);
      }
    }
  }

  // ----- adding a block -----

  /** A new block, over offsets not done yet. */
  ghost predicate NewBlock(e: Engine, done: set<int>, n: int, b: AsmBlock) {
    && n !in done && BlockOk(e, n, b)
    && (forall i :: 0 <= i < |b.lines| ==> b.lines[i] !in done)
    && (forall i, j :: 0 <= i < j < |b.lines| ==> b.lines[i] != b.lines[j])
  }

  ghost function Lines(b: AsmBlock): (r: set<int>) {
    set x | x in b.lines
  }

  lemma AddTiled(e: Engine, blocks: map<int, AsmBlock>, done: set<int>, n: int, b: AsmBlock)
    requires Tiled(e, blocks, done) && NewBlock(e, done, n, b)
    ensures n !in blocks && Tiled(e, blocks[n := b], done + Lines(b) + {n})
  {
    hide BlockOk;
    assert n !in blocks;
    AddCovers(e, blocks, done, n, b);
    AddUnique(e, blocks, done, n, b);
    hide Covers, Unique, NewBlock;
  }

  lemma AddCovers(e: Engine, blocks: map<int, AsmBlock>, done: set<int>, n: int, b: AsmBlock)
    requires Covers(blocks, done) && NewBlock(e, done, n, b)
    ensures Covers(blocks[n := b], done + Lines(b) + {n})
  {
    var blocks', done' := blocks[n := b], done + Lines(b) + {n};
    forall m, k: nat, x | LineAt(blocks', m, k, x)
      ensures x in done'
    {
      if m != n { assert LineAt(blocks, m, k, x); }
    }
    forall x | x in done'
      ensures Placed(blocks', x)
    {
      if x in done {
        assert Placed(blocks, x);
        if m, k: nat :| LineAt(blocks, m, k, x) { assert LineAt(blocks', m, k, x); }
      } else {
        if !b.bad { assert b.lines[0] == n; }
        if x in b.lines {
          var k :| 0 <= k < |b.lines| && b.lines[k] == x;
          assert LineAt(blocks', n, k, x);
        }
      }
    }
  }

  lemma AddUnique(e: Engine, blocks: map<int, AsmBlock>, done: set<int>, n: int, b: AsmBlock)
    requires Unique(blocks) && Covers(blocks, done) && NewBlock(e, done, n, b)
    ensures Unique(blocks[n := b])
  {
    hide BlockOk;
    var blocks' := blocks[n := b];
    forall m, k: nat, m', k': nat, x | LineAt(blocks', m, k, x) && LineAt(blocks', m', k', x)
      ensures m == m' && k == k'
    {
      if m != n { assert LineAt(blocks, m, k, x); }
      if m' != n { assert LineAt(blocks, m', k', x); }
    }
  }
}
