/**
 Recursive disassembly (AsmBlock.fix_constraints, AsmBlock.split and disasmEngine,
 miasm/core/asmblock.py): blocks are decoded until they run into known code, a worklist follows
 their destinations, and destinations inside a block split it afterwards. The result holds
 exactly the reachable offsets, each once, and its graph is the control flow of the code.
 */
module Disasm {
  import opened Asm
  import opened AsmCfgs

  // ----- constraints of one block -----

  /** The constraint kept for one destination: c_next, when there are both. */
  method FilterConstraint(constraints: seq<Constraint>) returns (c: Constraint)
    requires constraints != []
    ensures c in constraints && (Next in constraints ==> c == Next)
  {
    if |constraints| == 1 { return constraints[0]; }
    var types := set t | t in constraints;
    HasNext(constraints, types);
    if |types| == 1 { return constraints[0]; }
    c := Next;
  }

  lemma HasNext(constraints: seq<Constraint>, types: set<Constraint>)
    requires constraints != [] && types == set t | t in constraints
    ensures Next in constraints ==> |types| != 1 || constraints[0] == Next
    ensures |types| != 1 ==> Next in constraints
  {
    assert constraints[0] in types;
    forall t | t in types
      ensures t == To || t == Next
    {
      match t { case To => case Next => }
    }
    assert Next in types && constraints[0] == To ==> types == {To, Next};
    assert Next !in types ==> types == {To};
    assert |{To}| == 1 && |{To, Next}| == 2;
  }

  /** What one destination of a list of constraints becomes. */
  ghost predicate Fixed(cs: seq<(int, Constraint)>, bto: map<int, Constraint>) {
    && (forall d :: d in bto ==> (d, bto[d]) in cs && ((d, Next) in cs ==> bto[d] == Next))
    && (forall d, c :: (d, c) in cs ==> d in bto)
  }

  ghost predicate Grouped(cs: seq<(int, Constraint)>, dests: map<int, seq<Constraint>>) {
    && (forall d :: d in dests ==> dests[d] != [])
    && (forall d, c :: (d, c) in cs <==> d in dests && c in dests[d])
  }

  lemma NoneGrouped()
    ensures Grouped([], map[])
  {}

  lemma GroupStep(cs: seq<(int, Constraint)>, dests: map<int, seq<Constraint>>, d: int, c: Constraint)
    requires Grouped(cs, dests)
    ensures Grouped(cs + [(d, c)], dests[d := (if d in dests then dests[d] else []) + [c]])
  {}

  lemma GroupedNonempty(cs: seq<(int, Constraint)>, dests: map<int, seq<Constraint>>)
    requires Grouped(cs, dests)
    ensures forall d :: d in dests ==> dests[d] != []
  {}

  ghost predicate Filtered(dests: map<int, seq<Constraint>>, bto: map<int, Constraint>) {
    forall d :: d in bto ==> d in dests && bto[d] in dests[d] && (Next in dests[d] ==> bto[d] == Next)
  }

  lemma FilteredFixed(cs: seq<(int, Constraint)>, dests: map<int, seq<Constraint>>, bto: map<int, Constraint>)
    requires Grouped(cs, dests) && Filtered(dests, bto) && bto.Keys == dests.Keys
    ensures Fixed(cs, bto)
  {}

  method GroupConstraints(cs: seq<(int, Constraint)>) returns (dests: map<int, seq<Constraint>>)
    ensures Grouped(cs, dests)
  {
    hide Grouped;
    dests := map[];
    NoneGrouped();
    var i := 0;
    while i < |cs|
      invariant i <= |cs| && Grouped(cs[..i], dests)
    {
      var (d, c) := cs[i];
      GroupStep(cs[..i], dests, d, c);
      assert cs[..i + 1] == cs[..i] + [(d, c)];
      dests := dests[d := (if d in dests then dests[d] else []) + [c]];
      i := i + 1;
    }
    assert cs[..i] == cs;
  }

  /** One constraint per destination, and falling through wins over jumping. */
  method FixConstraints(cs: seq<(int, Constraint)>) returns (bto: map<int, Constraint>)
    ensures Fixed(cs, bto)
  {
    hide Fixed, Grouped;
    var dests := GroupConstraints(cs);
    GroupedNonempty(cs, dests);
    bto := map[];
    var todo := dests.Keys;
    while todo != {}
      invariant todo <= dests.Keys && bto.Keys == dests.Keys - todo
      invariant Filtered(dests, bto)
      decreases |todo|
    {
      var d, rest := Pop(todo);
      var c := FilterConstraint(dests[d]);
      bto := bto[d := c];
      todo := rest;
    }
    FilteredFixed(cs, dests, bto);
  }

  // ----- decoding one block -----

  /** lines is the run of instructions decoded from offset, and off comes after it. */
  ghost predicate Scan(e: Engine, offset: int, lines: seq<int>, off: int, done0: set<int>, done: set<int>) {
    && (lines == [] ==> off == offset)
    && (lines != [] ==> LinesOk(e, offset, lines) && off == lines[|lines| - 1] + e.code[lines[|lines| - 1]].length)
    && done == done0 + (set x | x in lines)
    && (forall i :: 0 <= i < |lines| ==> lines[i] !in done0)
  }

  ghost predicate MayGoOn(e: Engine, lines: seq<int>) {
    lines != [] ==> lines[|lines| - 1] in e.code && !e.code[lines[|lines| - 1]].breakflow
  }

  lemma ScanStep(e: Engine, offset: int, lines: seq<int>, off: int, done0: set<int>, done: set<int>)
    requires Scan(e, offset, lines, off, done0, done) && MayGoOn(e, lines) && off in e.code && off !in done
    ensures Scan(e, offset, lines + [off], off + e.code[off].length, done0, done + {off})
  {
    var lines' := lines + [off];
    forall i | 0 <= i < |lines'| - 1
      ensures LineStep(e, lines', i)
    {
      if i < |lines| - 1 { assert LineStep(e, lines, i); }
    }
    assert (set x | x in lines') == (set x | x in lines) + {off};
  }

  lemma ScanNew(e: Engine, offset: int, lines: seq<int>, off: int, done0: set<int>, done: set<int>, bto: map<int, Constraint>)
    requires Decodes(e) && Scan(e, offset, lines, off, done0, done) && lines != [] && bto == Exits(e, lines[|lines| - 1])
    ensures NewBlock(e, done0, offset, AsmBlock(lines, bto, false))
    ensures done == done0 + Lines(AsmBlock(lines, bto, false)) + {offset}
  {
    hide Exits;
    forall i, j | 0 <= i < j < |lines|
      ensures lines[i] != lines[j]
    {
      LinesIncrease(e, offset, lines, i, j);
    }
    assert lines[0] == offset;
  }

  /** The constraints of a block whose last instruction is at off. */
  ghost predicate IsConstraints(e: Engine, off: int, cs: seq<(int, Constraint)>)
    requires off in e.code
  {
    forall d, c :: (d, c) in cs <==>
      || (c == To && d in Followed(e, e.code[off]))
      || (c == Next && FallsThrough(e, e.code[off]) && d == off + e.code[off].length)
  }

  lemma FixedExits(e: Engine, off: int, cs: seq<(int, Constraint)>, bto: map<int, Constraint>)
    requires off in e.code && IsConstraints(e, off, cs) && Fixed(cs, bto)
    ensures bto == Exits(e, off)
  {
    var x := Exits(e, off);
    forall d
      ensures d in bto <==> d in x
      ensures d in bto ==> bto[d] == x[d]
    {
      FixedExit(e, off, cs, bto, d);
    }
  }

  lemma FixedExit(e: Engine, off: int, cs: seq<(int, Constraint)>, bto: map<int, Constraint>, d: int)
    requires off in e.code && IsConstraints(e, off, cs) && Fixed(cs, bto)
    ensures d in bto <==> d in Exits(e, off)
    ensures d in bto ==> bto[d] == Exits(e, off)[d]
  {
    var i := e.code[off];
    assert (d, To) in cs <==> d in Followed(e, i);
    assert (d, Next) in cs <==> FallsThrough(e, i) && d == off + i.length;
    assert d in Successors(e, off) <==> (d, To) in cs || (d, Next) in cs;
    if d in bto {
      assert (d, bto[d]) in cs;
      match bto[d] { case To => case Next => }
    }
  }

  /** A block that does not break the flow runs into known code or into something that does not decode. */
  ghost predicate Maximal(e: Engine, lines: seq<int>, done: set<int>) {
    lines != [] ==>
      var last := lines[|lines| - 1];
      last in e.code && (e.code[last].breakflow || last + e.code[last].length in done || last + e.code[last].length !in e.code)
  }

  /** cs, and falling through when addNext, are the constraints of the lines. */
  ghost predicate Ended(e: Engine, lines: seq<int>, off: int, done: set<int>, cs: seq<(int, Constraint)>, addNext: bool) {
    && lines != [] && lines[|lines| - 1] in e.code && Maximal(e, lines, done)
    && IsConstraints(e, lines[|lines| - 1], if addNext then cs + [(off, Next)] else cs)
  }

  lemma EndsInto(e: Engine, offset: int, lines: seq<int>, off: int, done0: set<int>, done: set<int>)
    requires Scan(e, offset, lines, off, done0, done) && MayGoOn(e, lines) && offset !in done0
    requires off in done || (lines != [] && off !in e.code)
    ensures Ended(e, lines, off, done, [(off, Next)], false)
  {}

  lemma EndsBreaking(e: Engine, lines: seq<int>, off: int, done: set<int>, cs: seq<(int, Constraint)>)
    requires lines != [] && lines[|lines| - 1] in e.code
    requires var i := e.code[lines[|lines| - 1]];
      && i.breakflow && off == lines[|lines| - 1] + i.length
      && cs == if i.subcall && !e.followCall then [] else seq(|i.dsts|, k requires 0 <= k < |i.dsts| => (i.dsts[k], To))
    ensures Ended(e, lines, off, done, cs, FallsThrough(e, e.code[lines[|lines| - 1]]))
  {
    var last := lines[|lines| - 1];
    var i := e.code[last];
    assert forall d, c :: (d, c) in cs <==> c == To && d in Followed(e, i) by {
      forall d | d in Followed(e, i)
        ensures (d, To) in cs
      {
        var k :| 0 <= k < |i.dsts| && i.dsts[k] == d;
        assert cs[k] == (d, To);
      }
    }
  }

  lemma NextsFixed(cs: seq<(int, Constraint)>, bto: map<int, Constraint>)
    requires Fixed(cs, bto)
    ensures (set c | c in cs :: c.0) == bto.Keys
  {
    var ds := set c | c in cs :: c.0;
    forall d
      ensures d in ds <==> d in bto
    {
      if c :| c in cs && c.0 == d { assert (d, c.1) in cs; }
      if d in bto { assert (d, bto[d]).0 == d; }
    }
  }

  lemma BadNew(e: Engine, offset: int, done0: set<int>, done: set<int>, b: AsmBlock)
    requires offset !in done0 && offset !in e.code && b == AsmBlock([], map[], true) && done - {offset} == done0 && offset in done
    ensures NewBlock(e, done0, offset, b) && done == done0 + Lines(b) + {offset}
  {}

  /** A block is decoded until its flow breaks, known code begins or nothing decodes. */
  method DisBlock(e: Engine, offset: int, jobDone: set<int>) returns (b: AsmBlock, nexts: set<int>, jobDone': set<int>)
    requires Decodes(e) && offset !in jobDone
    ensures NewBlock(e, jobDone, offset, b)
    ensures jobDone' == jobDone + Lines(b) + {offset} && nexts == b.bto.Keys
    ensures Maximal(e, b.lines, jobDone')
  {
    hide Exits, Successors, IsConstraints;
    var lines: seq<int>, cs: seq<(int, Constraint)> := [], [];
    var off, addNext, bad, running := offset, false, false, true;
    jobDone' := jobDone;
    while running
      invariant Scan(e, offset, lines, off, jobDone, if bad then jobDone' - {offset} else jobDone')
      invariant running ==> cs == [] && !addNext && !bad && MayGoOn(e, lines)
      invariant !running && !bad ==> Ended(e, lines, off, jobDone', cs, addNext)
      invariant bad ==> lines == [] && !running && cs == [] && !addNext && offset !in e.code && offset in jobDone'
      decreases e.code.Keys - jobDone', running
    {
      if off in jobDone' {
        EndsInto(e, offset, lines, off, jobDone, jobDone');
        cs, running := [(off, Next)], false;
      } else if off !in e.code {
        if lines == [] {
          jobDone', bad := jobDone' + {off}, true;
          assert jobDone' - {offset} == jobDone;
        } else {
          EndsInto(e, offset, lines, off, jobDone, jobDone');
          cs := [(off, Next)];
        }
        running := false;
      } else {
        var instr := e.code[off];
        ScanStep(e, offset, lines, off, jobDone, jobDone');
        jobDone', lines := jobDone' + {off}, lines + [off];
        off := off + instr.length;
        if instr.breakflow {
          addNext := instr.splitflow && !(instr.subcall && e.dontdisRetcall);
          if !instr.subcall || e.followCall {
            cs := seq(|instr.dsts|, i requires 0 <= i < |instr.dsts| => (instr.dsts[i], To));
          }
          EndsBreaking(e, lines, off, jobDone', cs);
          running := false;
        }
      }
    }
    nexts := set c | c in cs :: c.0;
    if addNext {
      cs := cs + [(off, Next)];
      nexts := nexts + {off};
    }
    var bto := FixConstraints(cs);
    b := AsmBlock(lines, bto, bad);
    NextsFixed(cs, bto);
    if bad {
      BadNew(e, offset, jobDone, jobDone', b);
    } else {
      FixedExits(e, lines[|lines| - 1], cs, bto);
      ScanNew(e, offset, lines, off, jobDone, jobDone', bto);
    }
  }

  // ----- splitting -----

  function GetRange(e: Engine, b: AsmBlock): (r: (int, int))
    requires forall i :: 0 <= i < |b.lines| ==> b.lines[i] in e.code
  {
    if b.lines == [] then (0, 0) else (b.lines[0], b.lines[|b.lines| - 1] + e.code[b.lines[|b.lines| - 1]].length)
  }

  /** A block is split where an instruction starts at off, and nowhere else. */
  method Split(b: AsmBlock, off: int) returns (found: bool, first: AsmBlock, second: AsmBlock, ghost at: nat)
    ensures found <==> off in b.lines
    ensures found ==> at < |b.lines| && b.lines[at] == off && first == FirstPart(b, at) && second == SecondPart(b, at)
  {
    found, first, second, at := off in b.lines, b, b, 0;
    if found {
      var i := 0;
      while b.lines[i] != off
        invariant i < |b.lines| && off !in b.lines[..i]
        decreases |b.lines| - i
      {
        i := i + 1;
      }
      at := i;
      first := AsmBlock(b.lines[..i], map[off := Next], b.bad);
      second := AsmBlock(b.lines[i..], b.bto, false);
    }
  }

  /** No block of s has a member of ds inside it. */
  ghost predicate Clean(blocks: map<int, AsmBlock>, s: set<int>, ds: set<int>) {
    forall n, i: nat, d :: n in s && i > 0 && d in ds ==> !LineAt(blocks, n, i, d)
  }

  ghost predicate DstsIn(blocks: map<int, AsmBlock>, s: set<int>) {
    forall n, d, c :: Dst(blocks, n, d, c) ==> d in s
  }

  /** What splitting keeps: the tiling, true pendings, and destinations that head blocks or are in ds. */
  ghost predicate Splitting(e: Engine, blocks: map<int, AsmBlock>, edges: Edges, pendings: Pendings, done: set<int>, ds: set<int>) {
    && Tiled(e, blocks, done) && Loose(blocks, edges, pendings)
    && DstsIn(blocks, done) && DstsIn(blocks, blocks.Keys + ds)
  }

  ghost predicate IsSplit(blocks: map<int, AsmBlock>, blocks': map<int, AsmBlock>, n: int, i: nat) {
    && n in blocks && 0 < i < |blocks[n].lines| && blocks[n].lines[i] !in blocks
    && blocks' == blocks[n := FirstPart(blocks[n], i)][blocks[n].lines[i] := SecondPart(blocks[n], i)]
  }

  lemma SplitClean(blocks: map<int, AsmBlock>, blocks': map<int, AsmBlock>, n: int, i: nat, s: set<int>, ds: set<int>)
    requires IsSplit(blocks, blocks', n, i) && s <= blocks.Keys && Clean(blocks, s, ds)
    ensures Clean(blocks', s, ds)
  {
    forall m, k: nat, d | m in s && k > 0 && d in ds
      ensures !LineAt(blocks', m, k, d)
    {
      assert LineAt(blocks', m, k, d) ==> LineAt(blocks, m, k, d);
    }
  }

  /** The first part no longer holds the offset it was split at. */
  lemma SplitCleanAt(e: Engine, blocks: map<int, AsmBlock>, blocks': map<int, AsmBlock>, done: set<int>, n: int, i: nat)
    requires Tiled(e, blocks, done) && IsSplit(blocks, blocks', n, i)
    ensures Clean(blocks', {n}, {blocks[n].lines[i]})
  {
    hide BlocksOk, Covers, BlockOk;
    var off := blocks[n].lines[i];
    assert LineAt(blocks, n, i, off);
    forall k: nat | k > 0
      ensures !LineAt(blocks', n, k, off)
    {
      assert LineAt(blocks', n, k, off) ==> k < i && LineAt(blocks, n, k, off);
    }
  }

  lemma SplitDsts(blocks: map<int, AsmBlock>, blocks': map<int, AsmBlock>, n: int, i: nat, s: set<int>)
    requires IsSplit(blocks, blocks', n, i) && DstsIn(blocks, s)
    ensures DstsIn(blocks', s + {blocks[n].lines[i]})
  {
    var off := blocks[n].lines[i];
    forall m, d, c | Dst(blocks', m, d, c)
      ensures d in s + {off}
    {
      assert m == off ==> Dst(blocks, n, d, c);
      assert m != off && m != n ==> Dst(blocks, m, d, c);
    }
  }

  /** Outside its range a block has no instruction; at its start, its head. */
  lemma OutOfRange(e: Engine, n: int, b: AsmBlock, off: int, k: nat)
    requires Decodes(e) && BlockOk(e, n, b) && 0 < k < |b.lines| && b.lines[k] == off
    ensures b.lines[0] < off < b.lines[|b.lines| - 1] + e.code[b.lines[|b.lines| - 1]].length
  {
    LinesIncrease(e, n, b.lines, 0, k);
    if k < |b.lines| - 1 { LinesIncrease(e, n, b.lines, k, |b.lines| - 1); }
  }

  lemma OutOfRangeClean(e: Engine, blocks: map<int, AsmBlock>, n: int, off: int)
    requires Decodes(e) && BlocksOk(e, blocks) && n in blocks
    requires var r := GetRange(e, blocks[n]); !(r.0 < off < r.1)
    ensures Clean(blocks, {n}, {off})
  {
    forall k: nat | k > 0
      ensures !LineAt(blocks, n, k, off)
    {
      if LineAt(blocks, n, k, off) { OutOfRange(e, n, blocks[n], off, k); }
    }
  }

  lemma RangeLines(e: Engine, blocks: map<int, AsmBlock>, n: int)
    requires BlocksOk(e, blocks) && n in blocks
    ensures forall i :: 0 <= i < |blocks[n].lines| ==> blocks[n].lines[i] in e.code
    ensures blocks[n].lines != [] ==> blocks[n].lines[0] == n
  {
    assert BlockOk(e, n, blocks[n]);
  }

  /** Splits block n at off, if an instruction of it starts there. */
  method SplitAt(e: Engine, cfg: AsmCfg, n: int, off: int, ghost done: set<int>, ghost ds: set<int>)
    returns (split: bool, ghost at: nat)
    requires Splitting(e, cfg.blocks, cfg.edges, cfg.pendings, done, ds) && n in cfg.blocks && off != n
    modifies cfg
    ensures split <==> off in old(cfg.blocks)[n].lines
    ensures !split ==> unchanged(cfg)
    ensures split ==> IsSplit(old(cfg.blocks), cfg.blocks, n, at) && old(cfg.blocks)[n].lines[at] == off
    ensures Splitting(e, cfg.blocks, cfg.edges, cfg.pendings, done, ds)
  {
    hide Tiled, Loose, DstsIn;
    var first, second;
    split, first, second, at := Split(cfg.blocks[n], off);
    if !split { return; }
    TiledSplit(e, cfg.blocks, done, n, at);
    cfg.blocks := cfg.blocks[n := first];
    cfg.ForgetWaiter(n, second.bto.Keys);
    SplitLoose(old(cfg.blocks), cfg.edges, old(cfg.pendings), cfg.pendings, n, first);
    var _ := cfg.AddBlock(off, second);
    SplitDsts(old(cfg.blocks), cfg.blocks, n, at, done);
    SplitDsts(old(cfg.blocks), cfg.blocks, n, at, old(cfg.blocks).Keys + ds);
    assert done + {off} == done;
    assert old(cfg.blocks).Keys + ds + {off} == cfg.blocks.Keys + ds;
  }

  lemma TiledSplit(e: Engine, blocks: map<int, AsmBlock>, done: set<int>, n: int, i: nat)
    requires Tiled(e, blocks, done) && n in blocks && i < |blocks[n].lines| && blocks[n].lines[i] != n
    ensures i > 0 && blocks[n].lines[i] !in blocks && blocks[n].lines[i] in done
    ensures Tiled(e, blocks[n := FirstPart(blocks[n], i)][blocks[n].lines[i] := SecondPart(blocks[n], i)], done)
  {
    RangeLines(e, blocks, n);
    hide *;
    SplitTiled(e, blocks, done, n, i);
  }

  lemma CleanUnion(blocks: map<int, AsmBlock>, s1: set<int>, s2: set<int>, ds1: set<int>, ds2: set<int>)
    ensures Clean(blocks, s1, ds1) && Clean(blocks, s2, ds1) ==> Clean(blocks, s1 + s2, ds1)
    ensures Clean(blocks, s1, ds1) && Clean(blocks, s1, ds2) ==> Clean(blocks, s1, ds1 + ds2)
  {}

  /** One destination off, tried on block n: it is not inside n afterwards. */
  method TrySplit(e: Engine, cfg: AsmCfg, n: int, off: int, ghost done: set<int>, ghost ds: set<int>)
    returns (split: bool, ghost at: nat)
    requires Decodes(e) && Splitting(e, cfg.blocks, cfg.edges, cfg.pendings, done, ds) && n in cfg.blocks
    modifies cfg
    ensures !split ==> unchanged(cfg)
    ensures split ==> IsSplit(old(cfg.blocks), cfg.blocks, n, at) && old(cfg.blocks)[n].lines[at] == off
    ensures Splitting(e, cfg.blocks, cfg.edges, cfg.pendings, done, ds) && Clean(cfg.blocks, {n}, {off})
  {
    hide Covers, Unique, Loose, DstsIn, BlocksOk, Clean;
    RangeLines(e, cfg.blocks, n);
    split, at := false, 0;
    var (start, stop) := GetRange(e, cfg.blocks[n]);
    if !(start < off < stop) {
      OutOfRangeClean(e, cfg.blocks, n, off);
      return;
    }
    split, at := SplitAt(e, cfg, n, off, done, ds);
    if split {
      SplitCleanAt(e, old(cfg.blocks), cfg.blocks, done, n, at);
    } else {
      NoLineClean(cfg.blocks, n, off);
    }
  }

  lemma NoLineClean(blocks: map<int, AsmBlock>, n: int, off: int)
    requires n in blocks && off !in blocks[n].lines
    ensures Clean(blocks, {n}, {off})
  {}

  /** Splits block n at every destination inside it; the parts are to be considered too. */
  method SplitAll(e: Engine, cfg: AsmCfg, n: int, dsts: set<int>, todo: set<int>, ghost done: set<int>)
    returns (todo': set<int>, rebuild: bool)
    requires Decodes(e) && Splitting(e, cfg.blocks, cfg.edges, cfg.pendings, done, dsts) && n in cfg.blocks
    requires todo <= cfg.blocks.Keys - {n} && Clean(cfg.blocks, cfg.blocks.Keys - todo - {n}, dsts)
    modifies cfg
    ensures Splitting(e, cfg.blocks, cfg.edges, cfg.pendings, done, dsts)
    ensures todo' <= cfg.blocks.Keys && Clean(cfg.blocks, cfg.blocks.Keys - todo', dsts)
    ensures old(cfg.blocks).Keys <= cfg.blocks.Keys <= old(cfg.blocks).Keys + dsts
    ensures if rebuild then dsts - cfg.blocks.Keys < dsts - old(cfg.blocks).Keys else unchanged(cfg) && todo' == todo
  {
    hide Splitting, Clean, IsSplit;
    todo', rebuild := todo, false;
    var rest := dsts;
    NoneClean(cfg.blocks, n);
    assert dsts - rest == {};
    while rest != {}
      invariant rest <= dsts && Splitting(e, cfg.blocks, cfg.edges, cfg.pendings, done, dsts) && n in cfg.blocks
      invariant todo' <= cfg.blocks.Keys - {n} && Clean(cfg.blocks, cfg.blocks.Keys - todo' - {n}, dsts)
      invariant Clean(cfg.blocks, {n}, dsts - rest) && old(cfg.blocks).Keys <= cfg.blocks.Keys <= old(cfg.blocks).Keys + dsts
      invariant if rebuild then dsts - cfg.blocks.Keys < dsts - old(cfg.blocks).Keys else unchanged(cfg) && todo' == todo
      decreases |rest|
    {
      var off, rest' := Pop(rest);
      ghost var blocks0 := cfg.blocks;
      var split;
      ghost var at;
      split, at := TrySplit(e, cfg, n, off, done, dsts);
      if split {
        SplitStep(blocks0, cfg.blocks, n, at, off, dsts, rest, todo');
        todo', rebuild := todo' + {off}, true;
      }
      CleanUnion(cfg.blocks, {n}, {}, dsts - rest, {off});
      assert dsts - rest + {off} == dsts - rest';
      rest := rest';
    }
    assert dsts - rest == dsts;
    CleanUnion(cfg.blocks, cfg.blocks.Keys - todo' - {n}, {n}, dsts, {});
    assert cfg.blocks.Keys - todo' - {n} + {n} == cfg.blocks.Keys - todo';
  }

  lemma SplitStep(blocks: map<int, AsmBlock>, blocks': map<int, AsmBlock>, n: int, i: nat, off: int,
    dsts: set<int>, rest: set<int>, todo: set<int>)
    requires IsSplit(blocks, blocks', n, i) && blocks[n].lines[i] == off && off in dsts && todo <= blocks.Keys - {n}
    requires Clean(blocks, blocks.Keys - todo - {n}, dsts) && Clean(blocks, {n}, dsts - rest)
    ensures todo + {off} <= blocks'.Keys - {n} && blocks.Keys <= blocks'.Keys && dsts - blocks'.Keys < dsts - blocks.Keys
    ensures blocks'.Keys == blocks.Keys + {off}
    ensures Clean(blocks', blocks'.Keys - (todo + {off}) - {n}, dsts) && Clean(blocks', {n}, dsts - rest)
  {
    hide Clean, IsSplit;
    SplitKeys(blocks, blocks', n, i);
    SplitClean(blocks, blocks', n, i, blocks.Keys - todo - {n}, dsts);
    SplitClean(blocks, blocks', n, i, {n}, dsts - rest);
    assert blocks'.Keys - (todo + {off}) - {n} == blocks.Keys - todo - {n};
    assert off in dsts - blocks.Keys && off !in dsts - blocks'.Keys;
  }

  lemma NoneClean(blocks: map<int, AsmBlock>, n: int)
    ensures Clean(blocks, {n}, {})
  {}

  lemma SplitKeys(blocks: map<int, AsmBlock>, blocks': map<int, AsmBlock>, n: int, i: nat)
    requires IsSplit(blocks, blocks', n, i)
    ensures n in blocks && i < |blocks[n].lines|
    ensures blocks[n].lines[i] !in blocks && blocks[n].lines[i] != n && blocks'.Keys == blocks.Keys + {blocks[n].lines[i]}
  {}

  ghost predicate DstsHead(blocks: map<int, AsmBlock>) {
    DstsIn(blocks, blocks.Keys)
  }

  /** Splitting makes every destination the head of a block, and cuts nowhere else. */
  method ApplySplitting(e: Engine, cfg: AsmCfg, ghost done: set<int>)
    requires Decodes(e) && Tiled(e, cfg.blocks, done) && Synced(cfg.blocks, cfg.edges, cfg.pendings) && DstsIn(cfg.blocks, done)
    modifies cfg
    ensures Tiled(e, cfg.blocks, done) && Synced(cfg.blocks, cfg.edges, cfg.pendings) && DstsHead(cfg.blocks)
    ensures old(cfg.blocks).Keys <= cfg.blocks.Keys <= old(cfg.blocks).Keys + old(cfg.pendings).Keys
  {
    hide Tiled, Synced, Loose, DstsIn, Clean, Splitting, DstsHead;
    var blockDst := cfg.pendings.Keys;
    var todo, rebuildNeeded := cfg.blocks.Keys, false;
    SplittingStarts(e, cfg.blocks, cfg.edges, cfg.pendings, done);
    assert cfg.blocks.Keys - todo == {};
    while todo != {}
      invariant Splitting(e, cfg.blocks, cfg.edges, cfg.pendings, done, blockDst)
      invariant todo <= cfg.blocks.Keys && Clean(cfg.blocks, cfg.blocks.Keys - todo, blockDst)
      invariant old(cfg.blocks).Keys <= cfg.blocks.Keys <= old(cfg.blocks).Keys + blockDst
      invariant !rebuildNeeded ==> Synced(cfg.blocks, cfg.edges, cfg.pendings)
      decreases blockDst - cfg.blocks.Keys, |todo|
    {
      var n, rest := Pop(todo);
      assert cfg.blocks.Keys - rest - {n} == cfg.blocks.Keys - todo;
      var rebuild;
      todo, rebuild := SplitAll(e, cfg, n, blockDst, rest, done);
      rebuildNeeded := rebuildNeeded || rebuild;
    }
    assert cfg.blocks.Keys - todo == cfg.blocks.Keys;
    SplittingEnds(e, cfg.blocks, cfg.edges, cfg.pendings, done, blockDst);
    if rebuildNeeded {
      LooseInside(cfg.blocks, cfg.edges, cfg.pendings);
      cfg.RebuildEdges();
    }
  }

  lemma LooseInside(blocks: map<int, AsmBlock>, edges: Edges, pendings: Pendings)
    requires Loose(blocks, edges, pendings)
    ensures EdgesInside(blocks, edges)
  {}

  lemma SplittingStarts(e: Engine, blocks: map<int, AsmBlock>, edges: Edges, pendings: Pendings, done: set<int>)
    requires Tiled(e, blocks, done) && Synced(blocks, edges, pendings) && DstsIn(blocks, done)
    ensures Splitting(e, blocks, edges, pendings, done, pendings.Keys) && Clean(blocks, {}, pendings.Keys)
  {
    hide Tiled, EdgesFor, EdgesInside;
    SyncedLoose(blocks, edges, pendings);
    forall n, d, c | Dst(blocks, n, d, c)
      ensures d in blocks.Keys + pendings.Keys
    {
      assert d !in blocks ==> (n, c) in Waiting(pendings, d);
    }
  }

  lemma SplittingEnds(e: Engine, blocks: map<int, AsmBlock>, edges: Edges, pendings: Pendings, done: set<int>, ds: set<int>)
    requires Splitting(e, blocks, edges, pendings, done, ds) && Clean(blocks, blocks.Keys, ds)
    ensures DstsHead(blocks) && Tiled(e, blocks, done) && Loose(blocks, edges, pendings)
  {
    hide Unique, Loose;
    forall n, d, c | Dst(blocks, n, d, c)
      ensures d in blocks
    {
      if d in ds {
        assert d in done;
        assert Placed(blocks, d);
        if m, i: nat :| LineAt(blocks, m, i, d) {
          RangeLines(e, blocks, m);
        }
      }
    }
  }

  // ----- following every destination -----

  ghost predicate ReachedFrom(e: Engine, starts: set<int>, x: int) {
    exists s :: s in starts && Reaches(e, s, x)
  }

  ghost function Universe(e: Engine): (r: set<int>) {
    set off, d | off in e.code.Keys && d in Successors(e, off) :: d
  }

  /** Everything known is reached from the starts, and what a block leads to is done or still to do. */
  ghost predicate Explored(e: Engine, starts: set<int>, blocks: map<int, AsmBlock>, done: set<int>, todo: set<int>) {
    && Tiled(e, blocks, done) && starts <= done + todo && DstsIn(blocks, done + todo)
    && todo <= Universe(e) + starts && AllReached(e, starts, done + todo)
  }

  ghost predicate AllReached(e: Engine, starts: set<int>, s: set<int>) {
    forall x :: x in s ==> ReachedFrom(e, starts, x)
  }

  // ----- where blocks begin -----

  /** Control goes from the reached instruction at x to n. */
  ghost predicate LeadsTo(e: Engine, starts: set<int>, x: int, n: int) {
    ReachedFrom(e, starts, x) && x in e.code && n in Successors(e, x)
  }

  /** A block has to begin at n: nothing decodes there, a break of the flow leads there, or two instructions do. */
  ghost predicate Forced(e: Engine, starts: set<int>, n: int) {
    || n !in e.code
    || (exists x :: LeadsTo(e, starts, x, n) && e.code[x].breakflow)
    || (exists x, y :: x != y && LeadsTo(e, starts, x, n) && LeadsTo(e, starts, y, n))
  }

  /** Blocks begin at the starts and where they have to. */
  ghost predicate HeadsNeeded(e: Engine, starts: set<int>, heads: set<int>) {
    forall n :: n in heads ==> n in starts || Forced(e, starts, n)
  }

  lemma MoreForced(e: Engine, starts: set<int>, s: int, n: int)
    requires Forced(e, starts, n)
    ensures Forced(e, starts + {s}, n)
  {
    hide ReachedFrom, Successors;
    forall x | LeadsTo(e, starts, x, n)
      ensures LeadsTo(e, starts + {s}, x, n)
    {
      MoreReached(e, starts, s, x);
    }
  }

  lemma MoreNeeded(e: Engine, starts: set<int>, s: int, heads: set<int>)
    requires HeadsNeeded(e, starts, heads)
    ensures HeadsNeeded(e, starts + {s}, heads)
  {
    hide Forced;
    forall n | n in heads
      ensures n in starts + {s} || Forced(e, starts + {s}, n)
    {
      if Forced(e, starts, n) { MoreForced(e, starts, s, n); }
    }
  }

  /** The destinations of a block just decoded are known code, or blocks have to begin there. */
  lemma NextsNeeded(e: Engine, starts: set<int>, n: int, b: AsmBlock, done: set<int>, d: int)
    requires BlockOk(e, n, b) && Maximal(e, b.lines, done) && ReachedFrom(e, starts, n) && d in b.bto
    ensures d in done || Forced(e, starts, d)
  {
    hide ReachedFrom, Exits;
    var last := b.lines[|b.lines| - 1];
    LinesReached(e, starts, n, b.lines, |b.lines| - 1);
    SuccessorsInBlock(e, n, b, |b.lines| - 1);
    assert LeadsTo(e, starts, last, d);
  }

  /** A destination inside a block is reached from the instruction before it too. */
  lemma PendingForced(e: Engine, starts: set<int>, blocks: map<int, AsmBlock>, edges: Edges, pendings: Pendings, done: set<int>,
    d: int)
    requires Tiled(e, blocks, done) && Synced(blocks, edges, pendings) && DstsIn(blocks, done) && d in pendings
    requires forall x :: x in done ==> ReachedFrom(e, starts, x)
    ensures Forced(e, starts, d)
  {
    hide ReachedFrom, Exits, Successors, EdgesFor, EdgesInside;
    assert Waiting(pendings, d) != {};
    var w :| w in Waiting(pendings, d);
    assert (w.0, w.1) in Waiting(pendings, d);
    assert Dst(blocks, w.0, d, w.1) && d !in blocks && d in done;
    assert Placed(blocks, d);
    var m, i: nat :| LineAt(blocks, m, i, d);
    assert BlockOk(e, m, blocks[m]) && BlockOk(e, w.0, blocks[w.0]);
    TwoPredecessors(e, starts, blocks, done, w.0, m, i, d);
  }

  lemma TwoPredecessors(e: Engine, starts: set<int>, blocks: map<int, AsmBlock>, done: set<int>, n: int, m: int, i: nat, d: int)
    requires Tiled(e, blocks, done) && n in blocks && d in blocks[n].bto && d !in blocks && LineAt(blocks, m, i, d)
    requires forall x :: x in done ==> ReachedFrom(e, starts, x)
    ensures Forced(e, starts, d)
  {
    hide ReachedFrom, Exits, Successors, Placed;
    assert BlockOk(e, m, blocks[m]) && BlockOk(e, n, blocks[n]);
    assert i > 0;
    var k := |blocks[n].lines| - 1;
    var x, y := blocks[n].lines[k], blocks[m].lines[i - 1];
    SuccessorsInBlock(e, n, blocks[n], k);
    SuccessorsInBlock(e, m, blocks[m], i - 1);
    assert LineAt(blocks, n, k, x) && LineAt(blocks, m, i - 1, y);
    assert LeadsTo(e, starts, x, d) && LeadsTo(e, starts, y, d);
    assert x == y ==> n == m && k == i - 1;
  }

  // ----- reached offsets -----

  lemma {:induction false} LinesReached(e: Engine, starts: set<int>, n: int, lines: seq<int>, i: nat)
    requires LinesOk(e, n, lines) && i < |lines| && ReachedFrom(e, starts, n)
    ensures ReachedFrom(e, starts, lines[i])
  {
    if i > 0 {
      LinesReached(e, starts, n, lines, i - 1);
      var s :| s in starts && Reaches(e, s, lines[i - 1]);
      assert LineStep(e, lines, i - 1);
      ReachesStep(e, s, lines[i - 1], lines[i]);
    }
  }

  lemma DstsReached(e: Engine, starts: set<int>, n: int, b: AsmBlock, d: int)
    requires BlockOk(e, n, b) && ReachedFrom(e, starts, n) && d in b.bto
    ensures ReachedFrom(e, starts, d) && d in Universe(e)
  {
    hide Exits, Reaches;
    var i := |b.lines| - 1;
    LinesReached(e, starts, n, b.lines, i);
    SuccessorsInBlock(e, n, b, i);
    var s :| s in starts && Reaches(e, s, b.lines[i]);
    ReachesStep(e, s, b.lines[i], d);
  }

  lemma ExploredStep(e: Engine, starts: set<int>, blocks: map<int, AsmBlock>, done: set<int>, todo: set<int>, n: int, b: AsmBlock)
    requires Explored(e, starts, blocks, done, todo + {n}) && NewBlock(e, done, n, b)
    ensures n !in blocks && Explored(e, starts, blocks[n := b], done + Lines(b) + {n}, todo + b.bto.Keys)
  {
    hide Tiled, BlockOk, DstsIn, Universe, AllReached;
    AddTiled(e, blocks, done, n, b);
    var done', todo' := done + Lines(b) + {n}, todo + b.bto.Keys;
    assert done + (todo + {n}) <= done' + todo';
    StepDsts(blocks, n, b, done + (todo + {n}), done' + todo');
    BlockReached(e, starts, n, b, done + (todo + {n}));
    assert done + (todo + {n}) + Lines(b) + b.bto.Keys == done' + todo';
    hide NewBlock;
    assert todo' <= Universe(e) + starts;
  }

  lemma BlockReached(e: Engine, starts: set<int>, n: int, b: AsmBlock, s: set<int>)
    requires BlockOk(e, n, b) && n in s && AllReached(e, starts, s)
    ensures AllReached(e, starts, s + Lines(b) + b.bto.Keys) && b.bto.Keys <= Universe(e)
  {
    hide BlockOk, ReachedFrom, Universe;
    var u, ds := Universe(e), b.bto.Keys;
    forall d | d in ds
      ensures d in u
    {
      DstsReached(e, starts, n, b, d);
    }
    forall d | d in ds
      ensures ReachedFrom(e, starts, d)
    {
      DstsReached(e, starts, n, b, d);
    }
    forall x | x in b.lines
      ensures ReachedFrom(e, starts, x)
    {
      var i :| 0 <= i < |b.lines| && b.lines[i] == x;
      OkLines(e, n, b);
      LinesReached(e, starts, n, b.lines, i);
    }
  }

  lemma OkLines(e: Engine, n: int, b: AsmBlock)
    requires BlockOk(e, n, b) && b.lines != []
    ensures LinesOk(e, n, b.lines)
  {}

  lemma StepDsts(blocks: map<int, AsmBlock>, n: int, b: AsmBlock, s: set<int>, s': set<int>)
    requires n !in blocks && DstsIn(blocks, s) && s <= s' && b.bto.Keys <= s'
    ensures DstsIn(blocks[n := b], s')
  {
    var blocks' := blocks[n := b];
    forall m, d, c | Dst(blocks', m, d, c)
      ensures d in s'
    {
      assert m != n ==> Dst(blocks, m, d, c);
    }
  }

  /** Nothing is left to do, so what is done is closed under control flow. */
  lemma DoneClosed(e: Engine, blocks: map<int, AsmBlock>, done: set<int>, x: int)
    requires Tiled(e, blocks, done) && DstsIn(blocks, done) && x in done && x in e.code
    ensures Successors(e, x) <= done
  {
    hide Unique, Successors, Exits;
    assert Placed(blocks, x);
    assert x in blocks ==> BlockOk(e, x, blocks[x]);
    var n, i: nat :| LineAt(blocks, n, i, x);
    assert BlockOk(e, n, blocks[n]);
    SuccessorsInBlock(e, n, blocks[n], i);
    if i < |blocks[n].lines| - 1 {
      assert LineAt(blocks, n, i + 1, blocks[n].lines[i + 1]);
    } else {
      assert forall d :: d in blocks[n].bto ==> Dst(blocks, n, d, blocks[n].bto[d]);
    }
  }

  lemma {:induction false} RunDone(e: Engine, blocks: map<int, AsmBlock>, done: set<int>, p: seq<int>, i: nat)
    requires Tiled(e, blocks, done) && DstsIn(blocks, done) && i < |p| && p[0] in done && Run(e, p, p[0], p[|p| - 1])
    ensures p[i] in done
  {
    hide Tiled, DstsIn, Successors;
    if i > 0 {
      RunDone(e, blocks, done, p, i - 1);
      assert RunStep(e, p, i - 1);
      DoneClosed(e, blocks, done, p[i - 1]);
    }
  }

  /** What disassembly from the starts promises of blocks, graph and done offsets. */
  ghost predicate Disassembled(e: Engine, starts: set<int>, blocks: map<int, AsmBlock>, edges: Edges, pendings: Pendings,
    done: set<int>)
  {
    && Tiled(e, blocks, done) && Synced(blocks, edges, pendings) && DstsHead(blocks) && HeadsNeeded(e, starts, blocks.Keys)
    && forall x :: x in done <==> ReachedFrom(e, starts, x)
  }

  lemma AllExplored(e: Engine, starts: set<int>, blocks: map<int, AsmBlock>, done: set<int>)
    requires Explored(e, starts, blocks, done, {})
    ensures DstsIn(blocks, done) && forall x :: x in done <==> ReachedFrom(e, starts, x)
  {
    hide Tiled, DstsIn, Universe, Run;
    assert done + {} == done;
    forall x | ReachedFrom(e, starts, x)
      ensures x in done
    {
      var s :| s in starts && Reaches(e, s, x);
      var p :| Run(e, p, s, x);
      RunEnds(e, p, s, x);
      RunDone(e, blocks, done, p, |p| - 1);
    }
  }

  lemma RunEnds(e: Engine, p: seq<int>, a: int, b: int)
    requires Run(e, p, a, b)
    ensures |p| > 0 && p[0] == a && p[|p| - 1] == b && Run(e, p, p[0], p[|p| - 1])
  {}

  lemma MoreStarts(e: Engine, starts: set<int>, blocks: map<int, AsmBlock>, edges: Edges, pendings: Pendings, done: set<int>, s: int)
    requires Disassembled(e, starts, blocks, edges, pendings, done)
    ensures Explored(e, starts + {s}, blocks, done, {s})
  {
    hide Tiled, Synced, Reaches, Universe, DstsIn;
    forall x | x in done + {s}
      ensures ReachedFrom(e, starts + {s}, x)
    {
      MoreReached(e, starts, s, x);
    }
    forall t | t in starts
      ensures t in done
    {
      ReachesSelf(e, t);
      assert ReachedFrom(e, starts, t);
    }
    TiledHeads(e, blocks, done);
    MoreDsts(blocks, blocks.Keys, done + {s});
  }

  lemma MoreReached(e: Engine, starts: set<int>, s: int, x: int)
    requires ReachedFrom(e, starts, x) || x == s
    ensures ReachedFrom(e, starts + {s}, x)
  {
    ReachesSelf(e, s);
    if t :| t in starts && Reaches(e, t, x) {
      assert t in starts + {s};
    } else {
      assert s in starts + {s};
    }
  }

  lemma MoreDsts(blocks: map<int, AsmBlock>, s: set<int>, s': set<int>)
    requires DstsIn(blocks, s) && s <= s'
    ensures DstsIn(blocks, s')
  {}

  lemma TiledHeads(e: Engine, blocks: map<int, AsmBlock>, done: set<int>)
    requires Tiled(e, blocks, done)
    ensures blocks.Keys <= done
  {
    forall n | n in blocks.Keys
      ensures n in done
    {
      assert n in blocks;
    }
  }

  method Listed(s: set<int>) returns (r: seq<int>)
    ensures (set x | x in r) == s
  {
    r := [];
    var todo := s;
    while todo != {}
      invariant todo <= s && (set x | x in r) == s - todo
      decreases |todo|
    {
      var x, rest := Pop(todo);
      ghost var r0 := r;
      r, todo := r + [x], rest;
      assert (set y | y in r) == (set y | y in r0) + {x};
    }
  }

  /** Decodes blocks from the worklist until it is empty. */
  method DisAll(e: Engine, offset: int, cfg: AsmCfg, jobDone: set<int>, ghost starts: set<int>) returns (jobDone': set<int>)
    requires Decodes(e) && Explored(e, starts, cfg.blocks, jobDone, {offset}) && offset in starts
    requires Synced(cfg.blocks, cfg.edges, cfg.pendings) && HeadsNeeded(e, starts, cfg.blocks.Keys)
    modifies cfg
    ensures Explored(e, starts, cfg.blocks, jobDone', {}) && Synced(cfg.blocks, cfg.edges, cfg.pendings)
    ensures HeadsNeeded(e, starts, cfg.blocks.Keys)
    ensures offset !in jobDone ==> offset in cfg.blocks
  {
    hide Explored, Synced, Loose, NewBlock, Maximal, HeadsNeeded;
    var todo := [offset];
    jobDone' := jobDone;
    assert (set x | x in todo) == {offset};
    TodoStarts(e, starts, jobDone, offset);
    while todo != []
      invariant Explored(e, starts, cfg.blocks, jobDone', set x | x in todo)
      invariant Synced(cfg.blocks, cfg.edges, cfg.pendings)
      invariant HeadsNeeded(e, starts, cfg.blocks.Keys) && HeadsNeeded(e, starts, (set x | x in todo) - jobDone')
      invariant offset !in jobDone ==> offset in cfg.blocks || (todo == [offset] && jobDone' == jobDone)
      decreases Universe(e) + starts - jobDone', |todo|
    {
      var target := todo[0];
      ghost var all := set x | x in todo;
      assert target in all;
      TodoKnown(e, starts, cfg.blocks, jobDone', all);
      todo := todo[1..];
      assert (set x | x in todo) + {target} == all;
      if target in jobDone' {
        SkipDone(e, starts, cfg.blocks, jobDone', (set x | x in todo), target);
        assert (set x | x in todo) - jobDone' == all - jobDone';
        continue;
      }
      var b, nexts, done := DisBlock(e, target, jobDone');
      ExploredStep(e, starts, cfg.blocks, jobDone', (set x | x in todo), target, b);
      var more := Listed(nexts);
      assert (set x | x in todo + more) == (set x | x in todo) + b.bto.Keys;
      SyncedLoose(cfg.blocks, cfg.edges, cfg.pendings);
      NeededStep(e, starts, cfg.blocks, jobDone', (set x | x in todo), target, b);
      todo, jobDone' := todo + more, done;
      var _ := cfg.AddBlock(target, b);
    }
    assert (set x | x in todo) == {};
  }

  lemma TodoStarts(e: Engine, starts: set<int>, done: set<int>, offset: int)
    requires offset in starts
    ensures HeadsNeeded(e, starts, {offset} - done)
  {}

  lemma NeededStep(e: Engine, starts: set<int>, blocks: map<int, AsmBlock>, done: set<int>, todo: set<int>, n: int, b: AsmBlock)
    requires Explored(e, starts, blocks, done, todo + {n}) && NewBlock(e, done, n, b)
    requires var done' := done + Lines(b) + {n}; Maximal(e, b.lines, done')
    requires HeadsNeeded(e, starts, blocks.Keys) && HeadsNeeded(e, starts, (todo + {n}) - done)
    ensures HeadsNeeded(e, starts, blocks[n := b].Keys)
    ensures HeadsNeeded(e, starts, (todo + b.bto.Keys) - (done + Lines(b) + {n}))
  {
    hide Tiled, BlockOk, DstsIn, Universe, Maximal, Forced, ReachedFrom;
    var done' := done + Lines(b) + {n};
    assert n in (todo + {n}) - done;
    assert ReachedFrom(e, starts, n);
    forall d | d in b.bto
      ensures d in done' || Forced(e, starts, d)
    {
      NextsNeeded(e, starts, n, b, done', d);
    }
  }

  lemma TodoKnown(e: Engine, starts: set<int>, blocks: map<int, AsmBlock>, done: set<int>, todo: set<int>)
    requires Explored(e, starts, blocks, done, todo)
    ensures todo <= Universe(e) + starts
  {}

  lemma SkipDone(e: Engine, starts: set<int>, blocks: map<int, AsmBlock>, done: set<int>, todo: set<int>, n: int)
    requires Explored(e, starts, blocks, done, todo + {n}) && n in done
    ensures Explored(e, starts, blocks, done, todo)
  {
    hide Tiled, Universe, AllReached;
    assert done + (todo + {n}) == done + todo;
  }

  /**
   Disassembly, alone or continuing an earlier one: terminates, and the blocks then hold exactly
   the offsets reached from the starts, each once, with every destination heading a block, no block
   beginning anywhere else, and the graph saying what the blocks say.
   */
  method DisMultiblock(e: Engine, offset: int, cfg: AsmCfg, jobDone: set<int>, ghost starts: set<int>)
    returns (jobDone': set<int>)
    requires Decodes(e) && Disassembled(e, starts, cfg.blocks, cfg.edges, cfg.pendings, jobDone)
    modifies cfg
    ensures Disassembled(e, starts + {offset}, cfg.blocks, cfg.edges, cfg.pendings, jobDone')
    ensures offset !in jobDone ==> offset in cfg.blocks
  {
    hide Tiled, Synced, DstsHead, ReachedFrom, Explored, HeadsNeeded;
    MoreStarts(e, starts, cfg.blocks, cfg.edges, cfg.pendings, jobDone, offset);
    MoreNeeded(e, starts, offset, cfg.blocks.Keys);
    ghost var starts' := starts + {offset};
    jobDone' := DisAll(e, offset, cfg, jobDone, starts');
    AllExplored(e, starts', cfg.blocks, jobDone');
    ExploredTiled(e, starts', cfg.blocks, jobDone');
    ghost var heads, cuts := cfg.blocks.Keys, cfg.pendings.Keys;
    CutsNeeded(e, starts', cfg.blocks, cfg.edges, cfg.pendings, jobDone');
    ApplySplitting(e, cfg, jobDone');
    FewerHeads(e, starts', cfg.blocks.Keys, heads + cuts);
  }

  lemma FewerHeads(e: Engine, starts: set<int>, heads: set<int>, heads': set<int>)
    requires HeadsNeeded(e, starts, heads') && heads <= heads'
    ensures HeadsNeeded(e, starts, heads)
  {
    hide Forced;
  }

  lemma CutsNeeded(e: Engine, starts: set<int>, blocks: map<int, AsmBlock>, edges: Edges, pendings: Pendings, done: set<int>)
    requires Tiled(e, blocks, done) && Synced(blocks, edges, pendings) && DstsIn(blocks, done)
    requires HeadsNeeded(e, starts, blocks.Keys) && forall x :: x in done <==> ReachedFrom(e, starts, x)
    ensures HeadsNeeded(e, starts, blocks.Keys + pendings.Keys)
  {
    hide Tiled, Synced, DstsIn, Forced, ReachedFrom;
    forall d | d in pendings
      ensures Forced(e, starts, d)
    {
      PendingForced(e, starts, blocks, edges, pendings, done, d);
    }
  }

  lemma ExploredTiled(e: Engine, starts: set<int>, blocks: map<int, AsmBlock>, done: set<int>)
    requires Explored(e, starts, blocks, done, {})
    ensures Tiled(e, blocks, done)
  {}

  /** Disassembly from scratch. */
  method Disassemble(e: Engine, offset: int) returns (cfg: AsmCfg, jobDone: set<int>)
    requires Decodes(e)
    ensures fresh(cfg) && offset in cfg.blocks
    ensures Disassembled(e, {offset}, cfg.blocks, cfg.edges, cfg.pendings, jobDone)
  {
    cfg := new AsmCfg();
    assert Disassembled(e, {}, cfg.blocks, cfg.edges, cfg.pendings, {});
    hide Disassembled;
    jobDone := DisMultiblock(e, offset, cfg, {}, {});
    assert {} + {offset} == {offset};
  }

  // ----- what the result means -----

  /** The graph lets control go from the instruction at x to the one at y. */
  ghost predicate GraphStep(blocks: map<int, AsmBlock>, edges: Edges, x: int, y: int) {
    exists n, i: nat :: LineAt(blocks, n, i, x) &&
      if i < |blocks[n].lines| - 1 then y == blocks[n].lines[i + 1] else (n, y) in edges && y in blocks
  }

  /** Reached code is decoded in one block, once; what is reached and does not decode heads a bad block. */
  lemma DecodedOnce(e: Engine, starts: set<int>, blocks: map<int, AsmBlock>, edges: Edges, pendings: Pendings, done: set<int>,
    x: int)
    requires Disassembled(e, starts, blocks, edges, pendings, done)
    ensures (exists n, i: nat :: LineAt(blocks, n, i, x)) <==> ReachedFrom(e, starts, x) && x in e.code
    ensures x in blocks && blocks[x].bad <==> ReachedFrom(e, starts, x) && x !in e.code
    ensures forall n, i: nat, n', i': nat :: LineAt(blocks, n, i, x) && LineAt(blocks, n', i', x) ==> n == n' && i == i'
  {
    hide Synced, DstsHead, ReachedFrom, Exits;
    assert x in blocks ==> BlockOk(e, x, blocks[x]);
    assert x in done ==> Placed(blocks, x);
    forall n, i: nat | LineAt(blocks, n, i, x)
      ensures x in done && x in e.code
    {
      RangeLines(e, blocks, n);
    }
  }

  /** Blocks begin exactly where they have to, and possibly at the starts. */
  lemma HeadsExact(e: Engine, starts: set<int>, blocks: map<int, AsmBlock>, edges: Edges, pendings: Pendings, done: set<int>,
    n: int)
    requires Disassembled(e, starts, blocks, edges, pendings, done)
    ensures n in blocks ==> ReachedFrom(e, starts, n) && (n in starts || Forced(e, starts, n))
    ensures ReachedFrom(e, starts, n) && Forced(e, starts, n) ==> n in blocks
  {
    hide Synced, DstsHead, Successors, Exits;
    DecodedOnce(e, starts, blocks, edges, pendings, done, n);
    forall x, y | LeadsTo(e, starts, x, n) && LeadsTo(e, starts, y, n) && (x != y || e.code[x].breakflow)
      ensures n in blocks
    {
      LedHeads(e, starts, blocks, edges, pendings, done, x, y, n);
    }
  }

  lemma LedHeads(e: Engine, starts: set<int>, blocks: map<int, AsmBlock>, edges: Edges, pendings: Pendings, done: set<int>,
    x: int, y: int, n: int)
    requires Disassembled(e, starts, blocks, edges, pendings, done)
    requires LeadsTo(e, starts, x, n) && LeadsTo(e, starts, y, n) && (x != y || e.code[x].breakflow)
    ensures n in blocks
  {
    hide Synced, Successors, Exits, ReachedFrom, HeadsNeeded, Covers;
    DecodedOnce(e, starts, blocks, edges, pendings, done, x);
    DecodedOnce(e, starts, blocks, edges, pendings, done, y);
    var b, i: nat :| LineAt(blocks, b, i, x);
    var b', i': nat :| LineAt(blocks, b', i', y);
    LedBy(e, blocks, b, i, n);
    LedBy(e, blocks, b', i', n);
    assert LineAt(blocks, b, i + 1, n) && LineAt(blocks, b', i' + 1, n) ==> x == y;
  }

  /** A successor comes next in the block, the flow going on, or heads a block. */
  lemma LedBy(e: Engine, blocks: map<int, AsmBlock>, b: int, i: nat, n: int)
    requires BlocksOk(e, blocks) && DstsHead(blocks) && b in blocks && i < |blocks[b].lines|
    requires blocks[b].lines[i] in e.code && n in Successors(e, blocks[b].lines[i])
    ensures n in blocks || (LineAt(blocks, b, i + 1, n) && !e.code[blocks[b].lines[i]].breakflow)
  {
    hide Successors, Exits;
    assert BlockOk(e, b, blocks[b]);
    SuccessorsInBlock(e, b, blocks[b], i);
    if i < |blocks[b].lines| - 1 {
      assert LineStep(e, blocks[b].lines, i);
    } else {
      assert Dst(blocks, b, n, blocks[b].bto[n]);
    }
  }

  /** The control flow of the graph is that of the code, and nothing is pending. */
  lemma SameFlow(e: Engine, starts: set<int>, blocks: map<int, AsmBlock>, edges: Edges, pendings: Pendings, done: set<int>,
    x: int, y: int)
    requires Disassembled(e, starts, blocks, edges, pendings, done)
    ensures GraphStep(blocks, edges, x, y) <==> ReachedFrom(e, starts, x) && x in e.code && y in Successors(e, x)
    ensures pendings == map[]
  {
    hide Unique, Exits, Successors, ReachedFrom;
    assert x in done && x in e.code ==> exists n, i: nat :: LineAt(blocks, n, i, x) by {
      assert x in done ==> Placed(blocks, x);
      assert x in blocks ==> BlockOk(e, x, blocks[x]);
    }
    forall n, i: nat | LineAt(blocks, n, i, x)
      ensures x in done && x in e.code
      ensures y in Successors(e, x) <==> if i < |blocks[n].lines| - 1 then y == blocks[n].lines[i + 1] else (n, y) in edges && y in blocks
    {
      LineSuccessors(e, blocks, edges, pendings, n, i, y);
    }
    NothingPending(blocks, edges, pendings);
  }

  lemma LineSuccessors(e: Engine, blocks: map<int, AsmBlock>, edges: Edges, pendings: Pendings, n: int, i: nat, y: int)
    requires BlocksOk(e, blocks) && Synced(blocks, edges, pendings) && DstsHead(blocks) && n in blocks && i < |blocks[n].lines|
    ensures blocks[n].lines[i] in e.code
    ensures y in Successors(e, blocks[n].lines[i]) <==>
      if i < |blocks[n].lines| - 1 then y == blocks[n].lines[i + 1] else (n, y) in edges && y in blocks
  {
    hide Exits, Successors, PendingsFor;
    assert BlockOk(e, n, blocks[n]);
    SuccessorsInBlock(e, n, blocks[n], i);
    assert y in blocks[n].bto ==> Dst(blocks, n, y, blocks[n].bto[y]) && HasEdge(edges, n, y, blocks[n].bto[y]);
    assert (n, y) in edges ==> HasEdge(edges, n, y, edges[(n, y)]) && Dst(blocks, n, y, edges[(n, y)]);
  }

  lemma NothingPending(blocks: map<int, AsmBlock>, edges: Edges, pendings: Pendings)
    requires Synced(blocks, edges, pendings) && DstsHead(blocks)
    ensures pendings == map[]
  {
    hide EdgesFor, EdgesInside;
    assert forall d :: d in pendings ==> Waiting(pendings, d) != {};
    forall d, w, c
      ensures (w, c) !in Waiting(pendings, d)
    {
      assert Dst(blocks, w, d, c) ==> d in blocks;
    }
    forall d
      ensures d !in pendings
    {
      assert forall p :: p in Waiting(pendings, d) ==> p == (p.0, p.1);
      assert Waiting(pendings, d) == {};
    }
    assert pendings.Keys == {};
  }
}
