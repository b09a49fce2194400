/**
 May an assignment change the value of an expression? (miasm/analysis/data_flow.py,
 State.may_interfer; miasm/ir/symbexec.py, get_expr_base_offset)
 */
module Aliasing {
  import opened Bits
  import opened Intervals
  import opened ModularRanges
  import opened Ir
  import opened SubExprs
  import opened Operators

  // ----- the bytes of an access -----

  /** p is one of the bytes of an access of that many bytes at offset off, addresses wrapping on n bits. */
  ghost predicate IsByte(n: nat, off: nat, bytes: nat, p: int) {
    exists i: nat :: i < bytes && ByteAt(n, off, i, p)
  }

  ghost predicate ByteAt(n: nat, off: nat, i: nat, p: int) {
    p == Wrap(off + i, n)
  }

  /** Two accesses share a byte. */
  ghost predicate Share(n: nat, off: nat, bytes: nat, off': nat, bytes': nat) {
    exists p :: IsByte(n, off, bytes, p) && IsByte(n, off', bytes', p)
  }

  /** The set holds the bytes, and goes past the address space only when it holds all of it. */
  ghost predicate ByteSet(n: nat, off: nat, bytes: nat, r: seq<Range>) {
    && Canonical(r)
    && (forall p :: 0 <= p <= Mask(n) ==> (In(r, p) <==> IsByte(n, off, bytes, p)))
    && (forall p :: In(r, p) ==> p >= 0 && (p > Mask(n) ==> bytes > Pow2(n)))
  }

  lemma ByteInRange(n: nat, off: nat, bytes: nat, p: int)
    requires off <= Mask(n) && off <= p < off + bytes && p <= Mask(n)
    ensures IsByte(n, off, bytes, p)
  {
    WrapSmall(p, n);
    var i: nat := p - off;
    assert i < bytes && ByteAt(n, off, i, p);
  }

  lemma ByteWrapped(n: nat, off: nat, bytes: nat, p: int)
    requires off <= Mask(n) && 0 <= p && p + Pow2(n) < off + bytes && p <= Mask(n)
    ensures IsByte(n, off, bytes, p)
  {
    WrapOnce(p + Pow2(n), n);
    var i: nat := p + Pow2(n) - off;
    assert i < bytes && ByteAt(n, off, i, p);
  }

  /** An access larger than the address space touches every byte. */
  lemma AllBytes(n: nat, off: nat, bytes: nat, p: int)
    requires off <= Mask(n) && bytes >= Pow2(n) && 0 <= p <= Mask(n)
    ensures IsByte(n, off, bytes, p)
  {
    if p >= off { ByteInRange(n, off, bytes, p); } else { ByteWrapped(n, off, bytes, p); }
  }

  lemma ByteBounds(n: nat, off: nat, bytes: nat, p: int)
    requires IsByte(n, off, bytes, p) && off <= Mask(n) && bytes <= Pow2(n)
    ensures 0 <= p <= Mask(n) && (off <= p < off + bytes || p + Pow2(n) < off + bytes)
  {
    var i: nat :| i < bytes && ByteAt(n, off, i, p);
    WrapOnce(off + i, n);
  }

  /** The bytes of an access as a set of ranges: one range, or two when it wraps around. */
  method BytesOf(n: nat, off: nat, bytes: nat) returns (r: seq<Range>)
    requires off <= Mask(n)
    ensures ByteSet(n, off, bytes, r)
  {
    hide In, Canonical, Wrap, Pow2;
    var m := Mask(n);
    if off + bytes <= m + 1 {
      r := Make([(off, off + bytes - 1)]);
      forall p ensures In(r, p) <==> off <= p <= off + bytes - 1 { InOne((off, off + bytes - 1), p); CoversBounds((off, off + bytes - 1), p); }
    } else {
      var first := Make([(off, m)]);
      var second := Make([(0, bytes - (m + 1 - off) - 1)]);
      forall p ensures In(first, p) <==> off <= p <= m { InOne((off, m), p); CoversBounds((off, m), p); }
      forall p ensures In(second, p) <==> 0 <= p <= off + bytes - m - 2 {
        InOne((0, bytes - (m + 1 - off) - 1), p);
        CoversBounds((0, bytes - (m + 1 - off) - 1), p);
      }
      r := Union(first, second);
    }
    forall p | 0 <= p <= m
      ensures In(r, p) <==> IsByte(n, off, bytes, p)
    {
      if bytes >= Pow2(n) {
        AllBytes(n, off, bytes, p);
      } else {
        if IsByte(n, off, bytes, p) { ByteBounds(n, off, bytes, p); }
        if In(r, p) {
          if off <= p { ByteInRange(n, off, bytes, p); } else { ByteWrapped(n, off, bytes, p); }
        }
      }
    }
  }

  /** Do two accesses on the same base share a byte? */
  method Overlap(n: nat, off: nat, bytes: nat, off': nat, bytes': nat) returns (r: bool)
    requires off <= Mask(n) && off' <= Mask(n)
    ensures r <==> Share(n, off, bytes, off', bytes')
  {
    hide In, Canonical, IsByte;
    var a := BytesOf(n, off, bytes);
    var b := BytesOf(n, off', bytes');
    var both := Intersection(a, b);
    r := both != [];
    OverlapPoints(n, off, bytes, off', bytes', a, b, both);
  }

  lemma OverlapPoints(
    n: nat, off: nat, bytes: nat, off': nat, bytes': nat, a: seq<Range>, b: seq<Range>, both: seq<Range>)
    requires off <= Mask(n) && off' <= Mask(n) && ByteSet(n, off, bytes, a) && ByteSet(n, off', bytes', b)
    requires Canonical(both) && forall p :: In(both, p) <==> In(a, p) && In(b, p)
    ensures both != [] <==> Share(n, off, bytes, off', bytes')
  {
    hide In, IsByte, Canonical;
    if both != [] {
      HullBounds(both);
      var p := HullOf(both).start;
      assert In(a, p) && In(b, p);
      if p > Mask(n) {
        AllBytes(n, off, bytes, 0);
        AllBytes(n, off', bytes', 0);
      }
    }
    if p :| IsByte(n, off, bytes, p) && IsByte(n, off', bytes', p) {
      ByteFits(n, off, bytes, p);
      assert In(both, p);
      SomePoint(both, p);
    }
  }

  lemma ByteFits(n: nat, off: nat, bytes: nat, p: int)
    requires IsByte(n, off, bytes, p)
    ensures 0 <= p <= Mask(n)
  {}

  lemma SomePoint(s: seq<Range>, p: int)
    requires In(s, p)
    ensures s != []
  {}

  // ----- moving the base -----

  lemma {:induction false} LowAdd(x: nat, y: nat, n: nat)
    ensures Low(x + y, n) == Low(Low(x, n) + y, n)
  {
    Split(x, n);
    LowShlAdd(Shr(x, n), Low(x, n) + y, n);
  }

  lemma {:induction false} LowShlAdd(h: nat, z: nat, n: nat)
    ensures Low(Shl(h, n) + z, n) == Low(z, n)
  {
    if n > 0 {
      assert (Shl(h, n) + z) / 2 == Shl(h, n - 1) + z / 2;
      LowShlAdd(h, z / 2, n - 1);
    }
  }

  lemma WrapAdd(b: nat, off: nat, i: nat, n: nat)
    ensures Wrap(Wrap(b + off, n) + i, n) == Wrap(b + Wrap(off + i, n), n)
  {
    hide Low;
    LowAdd(b + off, i, n);
    LowAdd(off + i, b, n);
    assert (b + off) + i == (off + i) + b;
  }

  lemma WrapInjective(b: nat, p: nat, q: nat, n: nat)
    requires p <= Mask(n) && q <= Mask(n) && Wrap(b + p, n) == Wrap(b + q, n)
    ensures p == q
  {
    LowAdd(b, p, n);
    LowAdd(b, q, n);
    Split(b, n);
    WrapOnce(Low(b, n) + p, n);
    WrapOnce(Low(b, n) + q, n);
  }

  /** A byte of an access at offset off, seen from base b. */
  lemma ByteMoved(n: nat, b: nat, off: nat, bytes: nat, p: nat)
    requires p <= Mask(n)
    ensures IsByte(n, off, bytes, p) <==> IsByte(n, Wrap(b + off, n), bytes, Wrap(b + p, n))
  {
    hide Wrap;
    if IsByte(n, off, bytes, p) {
      var i: nat :| i < bytes && ByteAt(n, off, i, p);
      WrapAdd(b, off, i, n);
      assert ByteAt(n, Wrap(b + off, n), i, Wrap(b + p, n));
    }
    var a, p' := Wrap(b + off, n), Wrap(b + p, n);
    if i: nat :| i < bytes && ByteAt(n, a, i, p') {
      WrapAdd(b, off, i, n);
      WrapInjective(b, p, Wrap(off + i, n), n);
      assert ByteAt(n, off, i, p);
    }
  }

  /** Every byte seen from base b is the image of some byte. */
  lemma ByteImage(n: nat, b: nat, off: nat, bytes: nat, p: int) returns (q: nat)
    requires IsByte(n, Wrap(b + off, n), bytes, p)
    ensures q <= Mask(n) && p == Wrap(b + q, n) && IsByte(n, off, bytes, q)
  {
    var i: nat :| i < bytes && ByteAt(n, Wrap(b + off, n), i, p);
    q := Wrap(off + i, n);
    WrapAdd(b, off, i, n);
    assert ByteAt(n, off, i, q);
  }

  /** Two accesses share a byte whatever their common base is, or never do. */
  lemma ShareMoved(n: nat, b: nat, off: nat, bytes: nat, off': nat, bytes': nat)
    ensures Share(n, off, bytes, off', bytes') <==> Share(n, Wrap(b + off, n), bytes, Wrap(b + off', n), bytes')
  {
    hide Wrap, IsByte;
    if p :| IsByte(n, off, bytes, p) && IsByte(n, off', bytes', p) {
      ByteFits(n, off, bytes, p);
      ByteMoved(n, b, off, bytes, p);
      ByteMoved(n, b, off', bytes', p);
    }
    var a, a' := Wrap(b + off, n), Wrap(b + off', n);
    if p :| IsByte(n, a, bytes, p) && IsByte(n, a', bytes', p) {
      var q := ByteImage(n, b, off, bytes, p);
      ByteMoved(n, b, off', bytes', q);
    }
  }

  // ----- base and offset -----

  const INTBASE := "__INTERNAL_INTBASE__"

  /** A pointer as a symbolic base and a constant offset. */
  function BaseOffset(e: Expr): (r: (Expr, nat))
    requires !(e.Op? && e.op == "+" && e.args == [])
  {
    if e.Int? then (Id(Plain(Var(INTBASE, e.size))), e.value)
    else if !(e.Op? && e.op == "+") then (e, 0)
    else if e.args[|e.args| - 1].Int? then
      var args := e.args[..|e.args| - 1];
      (if |args| == 1 then args[0] else Op("+", args, e.size), e.args[|e.args| - 1].value)
    else (e, 0)
  }

  /** ptr is the sum of the base and the constant: a constant alone stands on the reserved name. */
  ghost predicate StandsOn(ptr: Expr, base: Expr, off: nat) {
    || (ptr.Int? && base == Id(Plain(Var("__INTERNAL_INTBASE__", ptr.size))) && off == ptr.value)
    || (exists size :: IsSumOf(ptr, base, Int(off, size)))
    || (!ptr.Int? && base == ptr && off == 0 && forall b, c: Expr :: c.Int? ==> !IsSumOf(ptr, b, c))
  }

  /** The last term of the sum is c, the others make up the base. */
  ghost predicate IsSumOf(ptr: Expr, base: Expr, c: Expr) {
    || (ptr.Op? && ptr.op == "+" && ptr.args == [base, c])
    || (ptr.Op? && ptr.op == "+" && base.Op? && base.op == "+" && base.size == ptr.size && |base.args| != 1 && ptr.args == base.args + [c])
  }

  lemma BaseOffsetStands(ptr: Expr, base: Expr, off: nat)
    requires !(ptr.Op? && ptr.op == "+" && ptr.args == [])
    ensures BaseOffset(ptr) == (base, off) <==> StandsOn(ptr, base, off)
  {
    if ptr.Op? && ptr.op == "+" {
      var k := |ptr.args| - 1;
      var last, rest := ptr.args[k], ptr.args[..k];
      assert ptr.args == rest + [last];
      var b := if |rest| == 1 then rest[0] else Op("+", rest, ptr.size);
      assert IsSumOf(ptr, b, last);
      forall b', c | IsSumOf(ptr, b', c)
        ensures c == last && b' == b
      {
        if ptr.args == [b', c] {
          assert rest == [b'];
        } else {
          assert b'.args == rest;
        }
      }
    }
  }

  /** A well-formed pointer that does not use the reserved name. */
  ghost predicate Pointer(e: Expr) {
    && WellFormed(e) && (e.Op? && e.op == "+" ==> |e.args| >= 2)
    && (forall id :: id in Ids(e) ==> id.v.name != INTBASE)
  }

  lemma PointerParts(e: Expr)
    requires Pointer(e)
    ensures Size(BaseOffset(e).0) == Size(e) && BaseOffset(e).1 <= Mask(Size(e)) && Size(e) > 0
  {
    if e.Op? && e.op == "+" {
      var last := e.args[|e.args| - 1];
      assert WellFormed(last) && Size(last) == e.size && WellFormed(e.args[0]) && Size(e.args[0]) == e.size;
    }
    ZeroFits(Size(e));
  }

  lemma ZeroFits(n: nat)
    ensures 0 <= Mask(n)
  {}

  /** The value of the base; constants have base zero. */
  function BaseValue<M>(m: Machine<M>, e: Expr, s: State<M>): (r: int)
    requires !(e.Op? && e.op == "+" && e.args == [])
  {
    if e.Int? then 0 else Eval(m, BaseOffset(e).0, s)
  }

  /** A pointer is its base plus its offset, on the address size. */
  lemma PointerValue<M(!new)>(m: Machine<M>, e: Expr, s: State<M>)
    requires Pointer(e) && Standard(m) && WellSized(s)
    ensures BaseValue(m, e, s) >= 0 && Size(e) > 0
    ensures Eval(m, e, s) == Wrap(BaseValue(m, e, s) + BaseOffset(e).1, Size(e))
  {
    hide Standard, WellSized, Concat, Wrap, Fold, HandlerOf, WellFormed, IsHandled, IsNary;
    PointerParts(e);
    EvalFits(m, e, s);
    if e.Op? && e.op == "+" && e.args[|e.args| - 1].Int? {
      SumValue(m, e, s);
    } else {
      WrapSmall(Eval(m, e, s), Size(e));
    }
  }

  lemma SumValue<M(!new)>(m: Machine<M>, e: Expr, s: State<M>)
    requires Pointer(e) && Standard(m) && WellSized(s) && e.Op? && e.op == "+" && e.args[|e.args| - 1].Int?
    ensures BaseValue(m, e, s) >= 0
    ensures Eval(m, e, s) == Wrap(BaseValue(m, e, s) + BaseOffset(e).1, e.size)
  {
    hide Standard, HandledOps, WellSized, Concat, Wrap, WellFormed, Fold, IsNary;
    var n, args := e.size, e.args;
    var vs := EvalAll(m, args, s);
    var k := |args| - 1;
    SumArgs(m, e, s);
    StandardHandles(m);
    SumFolds(m, n, vs, Sizes(args));
    if k > 1 {
      var vs' := EvalAll(m, args[..k], s);
      assert vs' == vs[..k];
      SumFolds(m, n, vs', Sizes(args[..k]));
    } else {
      OneTerm(n, vs[..k], vs[0]);
    }
  }

  lemma OneTerm(n: nat, vs: seq<int>, v: int)
    requires n > 0 && |vs| == 1 && vs[0] == v
    ensures Fold(Bin(Add), n, vs) == v
  {}

  /** A sum of several terms is the sum of the others and the last one. */
  lemma SumFolds<M(!new)>(m: Machine<M>, n: nat, vs: seq<int>, ss: seq<int>)
    requires HandledOps(m) && n > 0 && |vs| > 1 && AllSized(vs, n)
    ensures m.op("+", vs, ss, n) == Fold(Bin(Add), n, vs)
    ensures Fold(Bin(Add), n, vs[..|vs| - 1]) >= 0
    ensures Fold(Bin(Add), n, vs) == Wrap(Fold(Bin(Add), n, vs[..|vs| - 1]) + vs[|vs| - 1], n)
  {
    hide HandledOps, Wrap;
    StandardOps(m, "+", vs, ss, n);
    assert HandlerOf("+") == Bin(Add);
    FoldFits(Bin(Add), n, vs[..|vs| - 1]);
  }

  lemma SumArgs<M(!new)>(m: Machine<M>, e: Expr, s: State<M>)
    requires Pointer(e) && Standard(m) && WellSized(s) && e.Op? && e.op == "+"
    ensures e.size > 0 && forall i :: 0 <= i < |e.args| ==> 0 <= Eval(m, e.args[i], s) <= Mask(e.size)
  {
    hide Standard, WellSized;
    forall i | 0 <= i < |e.args|
      ensures 0 <= Eval(m, e.args[i], s) <= Mask(e.size)
    {
      assert WellFormed(e.args[i]) && Size(e.args[i]) == e.size;
      EvalFits(m, e.args[i], s);
    }
  }

  /** Equal bases have equal values. */
  lemma SameBase<M(!new)>(m: Machine<M>, e: Expr, e': Expr, s: State<M>)
    requires Pointer(e) && Pointer(e') && BaseOffset(e).0 == BaseOffset(e').0
    ensures BaseValue(m, e, s) == BaseValue(m, e', s) && Size(e) == Size(e')
  {
    hide WellFormed;
    PointerParts(e);
    PointerParts(e');
    if !e.Int? { BaseNotReserved(e); }
    if !e'.Int? { BaseNotReserved(e'); }
  }

  lemma BaseNotReserved(e: Expr)
    requires Pointer(e) && !e.Int?
    ensures forall n :: BaseOffset(e).0 != Id(Plain(Var(INTBASE, n)))
  {
    hide WellFormed;
    var b := BaseOffset(e).0;
    if b.Id? {
      if e.Op? { IdsAllMember(e.args, 0); }
      assert b.id in Ids(e);
    }
  }

  // ----- the test -----

  /** A write to d may change the value read at r. */
  ghost predicate Hits(d: Expr, r: Expr)
    requires d.Mem? ==> Pointer(d.ptr)
    requires r.Mem? ==> Pointer(r.ptr)
  {
    || Occurs(d, r)
    || (d.Mem? && r.Mem?
        && var (b, off), (b', off') := BaseOffset(d.ptr), BaseOffset(r.ptr);
           b != b' || Share(Size(d.ptr), off, d.size / 8, off', r.size / 8))
  }

  /** What the test looks for: the destination inside the read, cells on different bases, or cells on one
      base that share a byte. */
  lemma HitsMeans(d: Expr, r: Expr)
    requires (d.Mem? ==> Pointer(d.ptr)) && (r.Mem? ==> Pointer(r.ptr))
    ensures Hits(d, r) <==>
      || PartOf(d, r)
      || (d.Mem? && r.Mem? && forall base, off: nat, off': nat :: StandsOn(d.ptr, base, off) && StandsOn(r.ptr, base, off') ==>
            Share(Size(d.ptr), off, d.size / 8, off', r.size / 8))
  {
    hide Share, Occurs, PartOf, StandsOn, BaseOffset, WellFormed;
    OccursParts(d, r);
    if d.Mem? && r.Mem? {
      forall base, off: nat
        ensures BaseOffset(d.ptr) == (base, off) <==> StandsOn(d.ptr, base, off)
        ensures BaseOffset(r.ptr) == (base, off) <==> StandsOn(r.ptr, base, off)
      {
        BaseOffsetStands(d.ptr, base, off);
        BaseOffsetStands(r.ptr, base, off);
      }
      var (b, off) := BaseOffset(d.ptr);
      var (b', off') := BaseOffset(r.ptr);
      assert StandsOn(d.ptr, b, off) && StandsOn(r.ptr, b', off');
    }
  }

  ghost predicate PointersOk(s: set<Expr>) {
    forall x :: x in s && x.Mem? ==> Pointer(x.ptr)
  }

  ghost predicate Interferes(dsts: set<Expr>, src: Expr)
    requires PointersOk(dsts) && PointersOk(GetReads(src))
  {
    exists r, d :: r in GetReads(src) && d in dsts && Hits(d, r)
  }

  method HitsTest(d: Expr, r: Expr) returns (hit: bool)
    requires (d.Mem? ==> Pointer(d.ptr)) && (r.Mem? ==> Pointer(r.ptr))
    ensures hit <==> Hits(d, r)
  {
    hide Share, Occurs, WellFormed;
    if Occurs(d, r) {
      return true;
    }
    if d.Mem? && r.Mem? {
      PointerParts(d.ptr);
      PointerParts(r.ptr);
      var (base, off) := BaseOffset(d.ptr);
      var (base', off') := BaseOffset(r.ptr);
      if base != base' {
        return true;
      }
      hit := Overlap(Size(base), off, d.size / 8, off', r.size / 8);
      return;
    }
    return false;
  }

  method MayInterfer(dsts: set<Expr>, src: Expr) returns (r: bool)
    requires PointersOk(dsts) && PointersOk(GetReads(src))
    ensures r <==> Interferes(dsts, src)
  {
    hide Hits, GetReads;
    var left := GetReads(src);
    while left != {}
      invariant left <= GetReads(src)
      invariant forall x, d :: x in GetReads(src) && x !in left && d in dsts ==> !Hits(d, x)
      decreases left
    {
      var x :| x in left;
      left := left - {x};
      var todo := dsts;
      while todo != {}
        invariant todo <= dsts
        invariant forall d :: d in dsts && d !in todo ==> !Hits(d, x)
        decreases todo
      {
        var d :| d in todo;
        todo := todo - {d};
        var hit := HitsTest(d, x);
        if hit {
          return true;
        }
      }
    }
    return false;
  }

  // ----- what the answer means -----

  /** Memory made of bytes: a load depends on its bytes, a store changes the bytes it covers only. */
  ghost predicate ByteMemory<M(!new)>(m: Machine<M>, byte: (M, int) -> int, n: nat) {
    LoadsBytes(m, byte, n) && StoresBytes(m, byte, n)
  }

  ghost predicate LoadsBytes<M(!new)>(m: Machine<M>, byte: (M, int) -> int, n: nat) {
    forall mem, mem', a: nat, size: nat :: SameBytes(byte, n, a, size, mem, mem') ==> m.load(mem, a, size) == m.load(mem', a, size)
  }

  ghost predicate SameBytes<M>(byte: (M, int) -> int, n: nat, a: nat, size: nat, mem: M, mem': M) {
    forall p :: IsByte(n, a, size / 8, p) ==> byte(mem, p) == byte(mem', p)
  }

  ghost predicate StoresBytes<M(!new)>(m: Machine<M>, byte: (M, int) -> int, n: nat) {
    forall mem, w: set<Write>, p :: (forall x :: x in w ==> Misses(n, x, p)) ==> byte(m.store(mem, w), p) == byte(mem, p)
  }

  ghost predicate Misses(n: nat, w: Write, p: int) {
    w.addr >= 0 && !IsByte(n, w.addr, w.size / 8, p)
  }

  /** The cells written use addresses of n bits. */
  ghost predicate WritesOk(n: nat, dsts: set<Expr>) {
    PointersOk(dsts) && forall d :: d in dsts && d.Mem? ==> Size(d.ptr) == n
  }

  /** r, when a cell, uses addresses of n bits, and no destination hits it. */
  ghost predicate Safe(n: nat, dsts: set<Expr>, r: Expr)
    requires WritesOk(n, dsts)
  {
    && (r.Mem? ==> Pointer(r.ptr) && Size(r.ptr) == n)
    && forall d :: d in dsts ==> !Hits(d, r)
  }

  ghost predicate AllSafe(n: nat, dsts: set<Expr>, rs: set<Expr>)
    requires WritesOk(n, dsts)
  {
    forall r :: r in rs ==> Safe(n, dsts, r)
  }

  /** No part of the expression is a cell. */
  ghost predicate NoMemory(e: Expr) {
    forall x :: PartOf(x, e) ==> !x.Mem?
  }

  /** Every cell written or read uses addresses of n bits, and the cells read have pointers
      that read no memory. */
  ghost predicate SimpleReads(n: nat, dsts: set<Expr>, src: Expr) {
    && WritesOk(n, dsts) && PointersOk(GetReads(src))
    && (forall r :: r in GetReads(src) && r.Mem? ==> Size(r.ptr) == n && NoMemory(r.ptr))
  }

  /** Two cells on the same base share a byte in the test exactly when they do in every state. */
  lemma SameBaseShare<M(!new)>(m: Machine<M>, d: Expr, r: Expr, s: State<M>)
    requires d.Mem? && r.Mem? && Pointer(d.ptr) && Pointer(r.ptr) && Standard(m) && WellSized(s)
    requires BaseOffset(d.ptr).0 == BaseOffset(r.ptr).0
    ensures Size(d.ptr) > 0 && Eval(m, d.ptr, s) >= 0 && Eval(m, r.ptr, s) >= 0
    ensures Share(Size(d.ptr), BaseOffset(d.ptr).1, d.size / 8, BaseOffset(r.ptr).1, r.size / 8) <==>
      Share(Size(d.ptr), Eval(m, d.ptr, s), d.size / 8, Eval(m, r.ptr, s), r.size / 8)
  {
    hide Standard, WellSized, Share, WellFormed, Eval, Wrap;
    PointerValue(m, d.ptr, s);
    PointerValue(m, r.ptr, s);
    SameBase(m, d.ptr, r.ptr, s);
    ShareMoved(Size(d.ptr), BaseValue(m, d.ptr, s), BaseOffset(d.ptr).1, d.size / 8, BaseOffset(r.ptr).1, r.size / 8);
  }

  /** A cell no destination hits keeps its bytes. */
  lemma CellUnchanged<M(!new)>(
    m: Machine<M>, byte: (M, int) -> int, n: nat, a: AssignBlk, r: Expr, s: State<M>)
    requires Standard(m) && WellSized(s) && ByteMemory(m, byte, n) && WritesOk(n, a.Keys) && WellFormedAssign(a)
    requires r.Mem? && Safe(n, a.Keys, r)
    ensures Eval(m, r.ptr, s) >= 0
    ensures m.load(Exec(m, a, s).mem, Eval(m, r.ptr, s), r.size) == m.load(s.mem, Eval(m, r.ptr, s), r.size)
  {
    hide Standard, WellSized, Pointer, IsByte, Occurs;
    PointerValue(m, r.ptr, s);
    var addr := Eval(m, r.ptr, s);
    assert Pointer(r.ptr) && addr >= 0 by { PointerPositive(m, r.ptr, s); }
    var w := Writes(m, a, s);
    forall p, x | IsByte(n, addr, r.size / 8, p) && x in w
      ensures Misses(n, x, p)
    {
      var d :| d in a && d.Mem? && d != a[d] && x == Write(Eval(m, d.ptr, s), d.size, Eval(m, a[d], s));
      assert d in a.Keys;
      assert !Hits(d, r);
      SameBaseShare(m, d, r, s);
    }
    hide Writes;
    assert SameBytes(byte, n, addr, r.size, Exec(m, a, s).mem, s.mem);
  }

  lemma PointerPositive<M(!new)>(m: Machine<M>, e: Expr, s: State<M>)
    requires Pointer(e) && Standard(m) && WellSized(s)
    ensures Eval(m, e, s) >= 0
  {
    hide Standard, WellSized;
    EvalFits(m, e, s);
  }

  /** Assignments that hit nothing an expression reads, pointers included, leave its value alone. */
  lemma {:induction false} SafeUnchanged<M(!new)>(
    m: Machine<M>, byte: (M, int) -> int, n: nat, a: AssignBlk, e: Expr, s: State<M>)
    requires Standard(m) && WellSized(s) && ByteMemory(m, byte, n) && WritesOk(n, a.Keys) && WellFormedAssign(a)
    requires AllSafe(n, a.Keys, GetR(e))
    ensures Eval(m, e, Exec(m, a, s)) == Eval(m, e, s)
    decreases e, 1
  {
    hide Standard, WellSized, ByteMemory, WritesOk, Safe, WellFormedAssign, Exec;
    match e
    case Int(_, _) =>
    case LocRef(_, _) =>
    case Id(id) =>
      assert Safe(n, a.Keys, e);
      ExecVariable(m, a, s, id);
      SafeVariable(n, a.Keys, id);
    case Mem(ptr, size) =>
      SafeUnchanged(m, byte, n, a, ptr, s);
      assert Safe(n, a.Keys, e);
      CellUnchanged(m, byte, n, a, e, s);
    case Slice(arg, _, _) => SafeUnchanged(m, byte, n, a, arg, s);
    case Cond(cond, src1, src2) =>
      SafeUnchanged(m, byte, n, a, cond, s);
      SafeUnchanged(m, byte, n, a, src1, s);
      SafeUnchanged(m, byte, n, a, src2, s);
    case Op(_, args, _) => SafeAllUnchanged(m, byte, n, a, args, s);
    case Compose(args) => SafeAllUnchanged(m, byte, n, a, args, s);
  }

  lemma {:induction false} SafeAllUnchanged<M(!new)>(
    m: Machine<M>, byte: (M, int) -> int, n: nat, a: AssignBlk, args: seq<Expr>, s: State<M>)
    requires Standard(m) && WellSized(s) && ByteMemory(m, byte, n) && WritesOk(n, a.Keys) && WellFormedAssign(a)
    requires AllSafe(n, a.Keys, GetRAll(args))
    ensures EvalAll(m, args, Exec(m, a, s)) == EvalAll(m, args, s)
    decreases args, 0
  {
    hide Standard, WellSized, ByteMemory, WritesOk, Safe, WellFormedAssign, Exec;
    if args != [] {
      SafeUnchanged(m, byte, n, a, args[0], s);
      SafeAllUnchanged(m, byte, n, a, args[1..], s);
    }
  }

  lemma SafeVariable(n: nat, dsts: set<Expr>, id: Ident)
    requires WritesOk(n, dsts) && Safe(n, dsts, Id(id))
    ensures Id(id) !in dsts
  {
    assert Occurs(Id(id), Id(id));
    assert Hits(Id(id), Id(id));
  }

  /** Below a safe cell whose pointer reads no memory there are variables only, and they are safe. */
  lemma PointerSafe(n: nat, dsts: set<Expr>, e: Expr)
    requires WritesOk(n, dsts) && NoMemory(e) && forall id :: id in Ids(e) ==> Id(id) !in dsts
    ensures AllSafe(n, dsts, GetR(e))
  {
    hide WritesOk, PartOf, GetR, Safe;
    forall x | x in GetR(e)
      ensures Safe(n, dsts, x)
    {
      ReadParts(x, e);
      IdParts(x.id, e);
      VariableSafe(n, dsts, x.id);
    }
  }

  lemma VariableSafe(n: nat, dsts: set<Expr>, id: Ident)
    requires WritesOk(n, dsts) && Id(id) !in dsts
    ensures Safe(n, dsts, Id(id))
  {
    forall d | d in dsts
      ensures !Hits(d, Id(id))
    {
      assert Occurs(d, Id(id)) <==> d == Id(id);
    }
  }

  /** The cells read directly are safe, so everything read is. */
  lemma {:induction false} SimpleSafe(n: nat, dsts: set<Expr>, e: Expr)
    requires WritesOk(n, dsts) && AllSafe(n, dsts, GetReads(e))
    requires forall r :: r in GetReads(e) && r.Mem? ==> NoMemory(r.ptr)
    ensures AllSafe(n, dsts, GetR(e))
    decreases e, 1
  {
    hide WritesOk, Safe, NoMemory;
    match e
    case Int(_, _) =>
    case LocRef(_, _) =>
    case Id(id) =>
    case Mem(ptr, _) => CellSafe(n, dsts, e);
    case Slice(arg, _, _) => SimpleSafe(n, dsts, arg);
    case Cond(cond, src1, src2) =>
      SimpleSafe(n, dsts, cond);
      SimpleSafe(n, dsts, src1);
      SimpleSafe(n, dsts, src2);
    case Op(_, args, _) => SimpleAllSafe(n, dsts, args);
    case Compose(args) => SimpleAllSafe(n, dsts, args);
  }

  lemma {:induction false} SimpleAllSafe(n: nat, dsts: set<Expr>, args: seq<Expr>)
    requires WritesOk(n, dsts) && AllSafe(n, dsts, GetReadsAll(args))
    requires forall r :: r in GetReadsAll(args) && r.Mem? ==> NoMemory(r.ptr)
    ensures AllSafe(n, dsts, GetRAll(args))
    decreases args, 0
  {
    hide WritesOk, Safe, NoMemory;
    if args != [] {
      SimpleSafe(n, dsts, args[0]);
      SimpleAllSafe(n, dsts, args[1..]);
    }
  }

  lemma CellSafe(n: nat, dsts: set<Expr>, r: Expr)
    requires WritesOk(n, dsts) && r.Mem? && NoMemory(r.ptr) && Safe(n, dsts, r)
    ensures AllSafe(n, dsts, {r} + GetR(r.ptr))
  {
    hide NoMemory, GetR, Occurs, PartOf;
    assert forall d :: d in dsts ==> !Occurs(d, r);
    forall id | id in Ids(r.ptr)
      ensures Id(id) !in dsts
    {
      IdParts(id, r);
      OccursParts(Id(id), r);
    }
    PointerSafe(n, dsts, r.ptr);
  }

  /** When the test says no, the assignments leave the value of the expression alone, provided
      its pointers read no memory. */
  lemma NoInterference<M(!new)>(m: Machine<M>, byte: (M, int) -> int, n: nat, a: AssignBlk, src: Expr, s: State<M>)
    requires Standard(m) && WellSized(s) && ByteMemory(m, byte, n) && SimpleReads(n, a.Keys, src)
    requires !Interferes(a.Keys, src) && WellFormedAssign(a)
    ensures Eval(m, src, Exec(m, a, s)) == Eval(m, src, s)
  {
    hide Standard, WellSized, ByteMemory, Exec, WellFormedAssign, Eval, Hits;
    forall r | r in GetReads(src)
      ensures Safe(n, a.Keys, r)
    {
    }
    SimpleSafe(n, a.Keys, src);
    SafeUnchanged(m, byte, n, a, src, s);
  }

  // ----- pointers that read memory -----

  const EBX := Id(Plain(Var("EBX", 8)))

  /** The cell at the address held by a cell, and the cell that follows it. */
  const INDIRECT := Mem(Mem(EBX, 8), 8)
  const FOLLOWING := Mem(Op("+", [Mem(EBX, 8), Int(1, 8)], 8), 8)

  lemma ByteValues()
    ensures Pow2(8) == 256 && Mask(8) == 255
    ensures forall v :: 0 <= v <= 255 ==> Wrap(v, 8) == v
  {
    assert Pow2(4) == 16;
    assert Pow2(8) == 2 * (2 * (2 * (2 * Pow2(4))));
    forall v | 0 <= v <= 255
      ensures Wrap(v, 8) == v
    {
      WrapSmall(v, 8);
    }
  }

  /** The two cells are found not to interfere: same base, different offsets. */
  lemma IndirectNotFound()
    ensures PointersOk({FOLLOWING}) && PointersOk(GetReads(INDIRECT)) && !Interferes({FOLLOWING}, INDIRECT)
  {
    ByteValues();
    var base := Mem(EBX, 8);
    var args := [base, Int(1, 8)];
    assert HandlerOf("+") == Bin(Add);
    assert IdsAll(args) == Ids(base) + IdsAll(args[1..]) && args[1..] == [Int(1, 8)] && IdsAll([Int(1, 8)]) == {};
    assert Ids(base) == {EBX.id} && Ids(FOLLOWING.ptr) == IdsAll(args) == {EBX.id};
    assert Pointer(base) && Pointer(FOLLOWING.ptr);
    assert args[..1] == [base];
    assert BaseOffset(FOLLOWING.ptr) == (base, 1) && BaseOffset(base) == (base, 0);
    assert !Occurs(FOLLOWING, INDIRECT);
    forall p
      ensures !(IsByte(8, 1, 1, p) && IsByte(8, 0, 1, p))
    {
      if IsByte(8, 1, 1, p) {
        var i: nat :| i < 1 && ByteAt(8, 1, i, p);
      }
      if IsByte(8, 0, 1, p) {
        var i: nat :| i < 1 && ByteAt(8, 0, i, p);
      }
    }
    assert !Share(8, 1, 1, 0, 1);
    assert !Hits(FOLLOWING, INDIRECT);
  }

  function OneByteMachine(): (m: Machine<int -> int>) {
    StandardMachine(
      (mem: int -> int, a: int, size: nat) => if a >= 0 && size >= 8 then Wrap(mem(Wrap(a, 8)), size) else 0,
      (mem: int -> int, w: set<Write>) => (p => if 0 <= p <= 255 && Write(p, 8, 7) in w then 7 else mem(p)))
  }

  const BYTE: (int -> int, int) -> int := (mem: int -> int, p: int) => mem(p)

  lemma OneByteStandard()
    ensures Standard(OneByteMachine())
  {
    hide Standard;
    var m := OneByteMachine();
    forall mem: int -> int, a: int, size: nat
      ensures 0 <= m.load(mem, a, size) <= Mask(size)
    {
      assert m.load(mem, a, size) == if a >= 0 && size >= 8 then Wrap(mem(Wrap(a, 8)), size) else 0;
    }
    StandardExists(m.load, m.store);
  }

  lemma OneByteMemory()
    ensures ByteMemory(OneByteMachine(), BYTE, 8)
  {
    OneByteLoads();
    OneByteStores();
  }

  lemma OneByteLoads()
    ensures LoadsBytes(OneByteMachine(), BYTE, 8)
  {
    forall mem: int -> int, mem': int -> int, a: nat, size: nat | SameBytes(BYTE, 8, a, size, mem, mem')
      ensures OneByteMachine().load(mem, a, size) == OneByteMachine().load(mem', a, size)
    {
      if size >= 8 {
        assert ByteAt(8, a, 0, Wrap(a, 8));
        assert IsByte(8, a, size / 8, Wrap(a, 8));
        assert BYTE(mem, Wrap(a, 8)) == mem(Wrap(a, 8)) && BYTE(mem', Wrap(a, 8)) == mem'(Wrap(a, 8));
      }
    }
  }

  lemma OneByteStores()
    ensures StoresBytes(OneByteMachine(), BYTE, 8)
  {
    ByteValues();
    forall mem: int -> int, w: set<Write>, p | forall x :: x in w ==> Misses(8, x, p)
      ensures BYTE(OneByteMachine().store(mem, w), p) == BYTE(mem, p)
    {
      if 0 <= p <= 255 {
        assert ByteAt(8, p, 0, p);
        assert IsByte(8, p, 1, p);
        assert !Misses(8, Write(p, 8, 7), p);
      }
    }
  }

  lemma ByteOverflow<M(!new)>(m: Machine<M>, ss: seq<int>)
    requires Standard(m)
    ensures m.op("+", [255, 1], ss, 8) == 0
  {
    ByteValues();
    StandardHandles(m);
    assert Means("+", 8, 255, 1, m.op("+", [255, 1], ss, 8));
  }

  /** Yet writing one changes the other: through a pointer that reads memory the write may reach
      the cell holding the address, so the condition of NoInterference cannot be dropped. */
  lemma IndirectChanges()
    ensures var m := OneByteMachine();
      var s := State((id: Ident) => 0, (p: int) => if p == 0 then 255 else if p == 255 then 1 else 2);
      && Standard(m) && ByteMemory(m, BYTE, 8) && WellSized(s)
      && Eval(m, INDIRECT, Exec(m, map[FOLLOWING := Int(7, 8)], s)) != Eval(m, INDIRECT, s)
  {
    hide Standard, ByteMemory, StandardOp, Wrap, Pow2;
    OneByteStandard();
    OneByteMemory();
    ByteValues();
    var m := OneByteMachine();
    var s := State((id: Ident) => 0, (p: int) => if p == 0 then 255 else if p == 255 then 1 else 2);
    var a := map[FOLLOWING := Int(7, 8)];
    assert Eval(m, Mem(EBX, 8), s) == 255;
    assert Eval(m, INDIRECT, s) == 1;
    var args := [Mem(EBX, 8), Int(1, 8)];
    assert EvalAll(m, args, s) == [255, 1];
    ByteOverflow(m, Sizes(args));
    assert Eval(m, FOLLOWING.ptr, s) == 0;
    assert Writes(m, a, s) == {Write(0, 8, 7)};
    var t := Exec(m, a, s);
    assert t.mem(0) == 7 && t.mem(7) == 2;
    assert Eval(m, Mem(EBX, 8), t) == 7;
  }
}
