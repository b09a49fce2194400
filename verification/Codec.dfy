/**
 Packing instruction fields into bytes (bitobj and encodefields, miasm/core/cpu.py) and reading
 bits back from a stream (miasm/core/bin_stream.py). Reading at the place where a field was
 packed gives its value, for every width and alignment.
 */
module Codec {
  import opened Bits
  import opened BitStrings

  datatype Option<T> = None | Some(value: T)

  /** A field to encode: its value, if it has one, and its width. */
  datatype Field = Field(value: Option<nat>, l: nat)

  // ----- packing -----

  class BitObj {
    var bits: seq<bool>

    constructor ()
      ensures bits == []
    {
      bits := [];
    }

    /** The object made from bytes; leading zero bytes are lost. */
    constructor FromBytes(s: seq<nat>)
      requires AreBytes(s)
      ensures bits == ByteBits(s) <==> |s| <= 1 || s[0] != 0
      ensures s != [] ==> ValueOf(bits) == ValueOf(ByteBits(s))
    {
      var r: seq<bool> := [];
      if s != [] {
        r := Bin(ValueOf(ByteBits(s)));
        if |r| % 8 != 0 {
          r := Zeros(8 - |r| % 8) + r;
        }
        FromBytesKeeps(s);
      }
      bits := r;
    }

    /** Appends a value in n bits; a value too wide for them takes as many as it needs. */
    method PutBits(b: nat, n: nat)
      modifies this
      ensures bits == old(bits) + Put(b, n)
      ensures b < Pow2(n) ==> bits == old(bits) + BitsOf(b, n)
      ensures n > 0 ==> ValueOf(bits[|old(bits)|..]) == b
    {
      if n > 0 { PutMeans(b, n); }
      if b < Pow2(n) && n > 0 { BinPadded(b, n); }
      if n == 0 { return; }
      var digits := Bin(b);
      if |digits| < n { digits := Zeros(n - |digits|) + digits; }
      bits := bits + digits;
      assert bits[|old(bits)|..] == digits;
    }

    /** The bytes holding the bits; fails unless there are some, a whole number of bytes. */
    method ToString() returns (r: Option<seq<nat>>)
      ensures r.None? <==> bits == [] || |bits| % 8 != 0
      ensures r.Some? ==> AreBytes(r.value) && ByteBits(r.value) == bits
    {
      if |bits| % 8 != 0 || bits == [] { return None; }
      var b := ValueOf(bits);
      var digits := PadHex(Hex(b), |bits| / 4);
      ToStringBits(bits);
      r := Some(DecodeHex(digits));
    }
  }

  function Put(b: nat, n: nat): (r: seq<bool>) {
    if n == 0 then [] else PadBits(Bin(b), n)
  }

  /** Put writes the value, in the width when it fits and else in as many bits as it needs. */
  lemma PutMeans(b: nat, n: nat)
    requires n > 0
    ensures ValueOf(Put(b, n)) == b && |Put(b, n)| >= n && (|Put(b, n)| > n ==> b >= Pow2(|Put(b, n)| - 1))
  {
    hide ValueOf, Zeros, Bin, Pow2;
    var digits := Bin(b);
    SmallSize(b + 1);
    BinLength(b, b + 1);
    if |digits| < n { ZerosValue(n - |digits|, digits); } else { BinShort(b); }
  }

  /** The digits bin() writes are no more than needed. */
  lemma {:induction false} BinShort(v: nat)
    ensures |Bin(v)| > 1 ==> v >= Pow2(|Bin(v)| - 1)
  {
    if v >= 2 { BinShort(v / 2); }
  }

  lemma ToStringBits(bits: seq<bool>)
    requires bits != [] && |bits| % 8 == 0
    ensures var digits := PadHex(Hex(ValueOf(bits)), |bits| / 4);
      |digits| % 2 == 0 && AreBytes(DecodeHex(digits)) && ByteBits(DecodeHex(digits)) == bits
  {
    hide *;
    var n := |bits| / 4;
    BitsOfValue(bits);
    HexBits(ValueOf(bits), n);
    DecodedBits(PadHex(Hex(ValueOf(bits)), n));
  }

  /** What making an object from bytes keeps of their bits. */
  lemma FromBytesKeeps(s: seq<nat>)
    requires AreBytes(s) && s != []
    ensures var r := Bin(ValueOf(ByteBits(s)));
      var r' := if |r| % 8 != 0 then Zeros(8 - |r| % 8) + r else r;
      ValueOf(r') == ValueOf(ByteBits(s)) && (r' == ByteBits(s) <==> |s| == 1 || s[0] != 0)
  {
    hide *;
    var all := ByteBits(s);
    var v := ValueOf(all);
    var r := Bin(v);
    var r' := if |r| % 8 != 0 then Zeros(8 - |r| % 8) + r else r;
    BitsOfValue(all);
    BinLength(v, |all|);
    ZerosValue(|r'| - |r|, r);
    var low := |all| - 8;
    FirstByte(s);
    Split(v, low);
    ShlZero(low);
    if s[0] == 0 && |s| > 1 {
      BinLength(v, low);
    } else {
      if s[0] != 0 {
        ShlMono(1, s[0], low);
        ShlPow(low);
        BinLong(v, low);
      }
      BitsOfValue(r');
    }
  }

  lemma {:induction false} ZerosValue(n: nat, bits: seq<bool>)
    ensures ValueOf(Zeros(n) + bits) == ValueOf(bits)
    decreases n
  {
    ValueSplit(Zeros(n), bits);
    BitsOfZero(n);
    ValueBitsOf(0, n);
    NoBitsLow(n);
    ShlZero(|bits|);
  }

  lemma {:induction false} NoBitsLow(n: nat)
    ensures Low(0, n) == 0
  {
    if n > 0 { NoBitsLow(n - 1); }
  }

  lemma {:induction false} BinLong(v: nat, n: nat)
    requires v >= Pow2(n)
    ensures |Bin(v)| > n
  {
    if n > 0 { BinLong(v / 2, n - 1); }
  }

  /** The high part of the value of bytes is their first byte. */
  lemma FirstByte(s: seq<nat>)
    requires AreBytes(s) && s != []
    ensures Shr(ValueOf(ByteBits(s)), 8 * |s| - 8) == s[0]
  {
    hide ByteBits, ValueOf, Shr;
    var all := ByteBits(s);
    ValueParts(all, 8);
    BytesAt(s, 0);
    assert all[..8] == all[0..8];
    ByteValue(s[0]);
  }

  lemma ByteValue(b: nat)
    requires b < 256
    ensures ValueOf(BitsOf(b, 8)) == b
  {
    hide ValueOf, BitsOf, Low;
    ValueBitsOf(b, 8);
    PowSixteen(0);
    PowSixteen(4);
    BelowPower(b, 8);
  }

  /** The bits of the fields that have a value, one after the other. */
  function Packed(fields: seq<Field>): (r: seq<bool>) {
    if fields == [] then []
    else
      var f := fields[|fields| - 1];
      Packed(fields[..|fields| - 1]) + if f.value.None? then [] else Put(f.value.value, f.l)
  }

  method EncodeFields(fields: seq<Field>) returns (r: Option<seq<nat>>)
    ensures r.None? <==> Packed(fields) == [] || |Packed(fields)| % 8 != 0
    ensures r.Some? ==> AreBytes(r.value) && ByteBits(r.value) == Packed(fields)
  {
    hide Put, AreBytes, ByteBits, BitsOf;
    var bits := new BitObj();
    var i := 0;
    while i < |fields|
      invariant i <= |fields| && bits.bits == Packed(fields[..i]) && fresh(bits)
    {
      assert fields[..i + 1][..i] == fields[..i];
      if fields[i].value.Some? {
        bits.PutBits(fields[i].value.value, fields[i].l);
      }
      i := i + 1;
    }
    assert fields[..i] == fields;
    r := bits.ToString();
  }

  // ----- reading -----

  /** Bits n from the bit offset start, or nothing when they are not all there. */
  function ReadBits(bin: seq<nat>, offset: int, base: int, start: int, n: nat): (r: Option<nat>) {
    if n == 0 then Some(0)
    else if n > 8 * (|bin| - (offset - base)) || start / 8 < base || (start + n + 7) / 8 > base + |bin| then None
    else Some(ValueOf(ByteBits(bin)[start - 8 * base..start - 8 * base + n]))
  }

  function RawBytes(bin: seq<nat>, base: int, start: int, l: nat): (r: Option<seq<nat>>) {
    if start + l - base > |bin| || start - base < 0 then None else Some(bin[start - base..start - base + l])
  }

  class BinStream {
    const bin: seq<nat>
    const baseAddress: int
    var offset: int
    var cache: map<(int, nat), seq<nat>>
    var atomicMode: bool

    /** The cache holds what reading would give. */
    ghost predicate Valid()
      reads this
    {
      AreBytes(bin) && forall k :: k in cache ==> RawBytes(bin, baseAddress, k.0, k.1) == Some(cache[k])
    }

    constructor (inputStr: seq<nat>, start: int, base: int)
      requires AreBytes(inputStr)
      ensures Valid() && bin == inputStr && offset == start && baseAddress == base && !atomicMode
    {
      bin, offset, baseAddress := inputStr, start, base;
      cache, atomicMode := map[], false;
    }

    method EnterAtomicMode()
      requires !atomicMode && Valid()
      modifies this`atomicMode, this`cache
      ensures atomicMode && Valid()
    {
      atomicMode, cache := true, map[];
    }

    method LeaveAtomicMode()
      requires atomicMode && Valid()
      modifies this`atomicMode, this`cache
      ensures !atomicMode && Valid()
    {
      atomicMode, cache := false, map[];
    }

    /** The cache never shows. */
    method GetBytes(start: int, l: nat) returns (r: Option<seq<nat>>)
      requires Valid()
      modifies this`cache
      ensures Valid() && r == RawBytes(bin, baseAddress, start, l)
      ensures cache == if atomicMode && r.Some? then old(cache)[(start, l) := r.value] else old(cache)
    {
      if atomicMode && (start, l) in cache {
        assert (start, l).0 == start;
        return Some(cache[(start, l)]);
      }
      r := RawBytes(bin, baseAddress, start, l);
      if atomicMode && r.Some? {
        cache := cache[(start, l) := r.value];
      }
    }

    method GetBits(start: int, n: nat) returns (r: Option<nat>)
      requires Valid()
      modifies this`cache
      ensures Valid() && r == ReadBits(bin, offset, baseAddress, start, n)
    {
      hide ValueOf, ByteBits;
      if n == 0 { return Some(0); }
      if n > (|bin| - (offset - baseAddress)) * 8 { return None; }
      var byteStart, byteStop := start / 8, (start + n + 7) / 8;
      var temp := GetBytes(byteStart, byteStop - byteStart);
      if temp.None? { return None; }
      BytesBits(bin, byteStart - baseAddress, byteStop - baseAddress, start - 8 * baseAddress, n);
      var out := BitLoop(temp.value, start % 8, n);
      r := Some(out);
    }
  }

  lemma BytesBits(bin: seq<nat>, i: nat, j: nat, start: nat, n: nat)
    requires AreBytes(bin) && i == start / 8 && j == (start + n + 7) / 8 && j <= |bin|
    ensures start % 8 + n <= 8 * |bin[i..j]| && start + n <= 8 * |bin| && AreBytes(bin[i..j])
    ensures ByteBits(bin[i..j])[start % 8..start % 8 + n] == ByteBits(bin)[start..start + n]
  {
    hide ByteBits;
    BytesSlice(bin, i, j);
    assert 8 * i + start % 8 == start && start + n <= 8 * j;
    SubSlice(ByteBits(bin), 8 * i, 8 * j, start % 8, n);
  }

  /** At most a byte at a time, masked and shifted into place. */
  method BitLoop(temp: seq<nat>, start0: nat, n0: nat) returns (out: nat)
    requires AreBytes(temp) && start0 + n0 <= 8 * |temp|
    ensures out == ValueOf(ByteBits(temp)[start0..start0 + n0])
  {
    hide ValueOf, ByteBits, Or, And, Shl, Shr;
    var start, n := start0, n0;
    out := 0;
    NoValue();
    ghost var all := ByteBits(temp);
    assert all[start0..start] == [];
    while n != 0
      invariant start0 <= start && start + n == start0 + n0 && out == ValueOf(all[start0..start])
      decreases n
    {
      var newBits := temp[start / 8];
      var toKeep := 8 - start % 8;
      ShlPow(toKeep);
      var mask := Shl(1, toKeep) - 1;
      newBits := And(newBits, mask);
      var curLen := if toKeep <= n then toKeep else n;
      newBits := Shr(newBits, toKeep - curLen);
      BitStep(temp, start0, start, curLen, out);
      out := Shl(out, curLen);
      out := Or(out, newBits);
      n, start := n - curLen, start + curLen;
    }
  }

  lemma NoValue()
    ensures ValueOf([]) == 0
  {}

  lemma BitStep(temp: seq<nat>, start0: nat, start: nat, len: nat, out: nat)
    requires AreBytes(temp) && start0 <= start && 0 < len <= 8 - start % 8 && start < 8 * |temp|
    requires out == ValueOf(ByteBits(temp)[start0..start])
    ensures start + len <= 8 * |temp|
    ensures Or(Shl(out, len), Shr(And(temp[start / 8], Pow2(8 - start % 8) - 1), 8 - start % 8 - len))
      == ValueOf(ByteBits(temp)[start0..start + len])
  {
    hide *;
    var all, keep := ByteBits(temp), 8 - start % 8;
    var byte := temp[start / 8];
    var more := all[start..start + len];
    assert all[start0..start + len] == all[start0..start] + more;
    ValueSplit(all[start0..start], more);
    AndMask(byte, keep);
    InByte(temp, start, len);
    BitsOfValue(more);
    OrJoin(out, ValueOf(more), len);
  }

  lemma InByte(temp: seq<nat>, start: nat, len: nat)
    requires AreBytes(temp) && 0 < len <= 8 - start % 8 && start < 8 * |temp|
    ensures start + len <= 8 * |temp|
    ensures ValueOf(ByteBits(temp)[start..start + len]) == Shr(Low(temp[start / 8], 8 - start % 8), 8 - start % 8 - len)
  {
    hide ValueOf, ByteBits, BitsOf, Low, Shr;
    var k, i := start / 8, start % 8;
    var all, bits := ByteBits(temp), BitsOf(temp[k], 8);
    BytesAt(temp, k);
    SubSlice(all, 8 * k, 8 * k + 8, i, len);
    assert start == 8 * k + i;
    assert bits[i..i + len] == bits[i..][..len];
    ByteValue(temp[k]);
    ValueParts(bits, i);
    ValueParts(bits[i..], len);
  }

  lemma SubSlice(s: seq<bool>, a: nat, b: nat, i: nat, len: nat)
    requires a + i + len <= b <= |s|
    ensures s[a..b][i..i + len] == s[a + i..a + i + len]
  {
    var t := s[a..b];
    assert forall k :: 0 <= k < |t| ==> t[k] == s[a + k];
    var u, w := t[i..i + len], s[a + i..a + i + len];
    forall k | 0 <= k < len
      ensures u[k] == w[k]
    {
      assert u[k] == t[i + k];
    }
  }

  // ----- the round trip -----

  /** Every field has a value that fits its width. */
  ghost predicate InRange(fields: seq<Field>) {
    forall i :: 0 <= i < |fields| ==> fields[i].value.Some? && fields[i].value.value < Pow2(fields[i].l)
  }

  function Width(fields: seq<Field>): (r: nat) {
    if fields == [] then 0 else Width(fields[..|fields| - 1]) + fields[|fields| - 1].l
  }

  lemma PutFits(b: nat, n: nat)
    requires b < Pow2(n)
    ensures Put(b, n) == BitsOf(b, n)
  {
    if n > 0 { BinPadded(b, n); }
  }

  lemma {:induction false} PackedWidth(fields: seq<Field>)
    requires InRange(fields)
    ensures |Packed(fields)| == Width(fields)
  {
    if fields != [] {
      var f := fields[|fields| - 1];
      PackedWidth(fields[..|fields| - 1]);
      PutFits(f.value.value, f.l);
    }
  }

  lemma {:induction false} PackedAt(fields: seq<Field>, i: nat)
    requires InRange(fields) && i < |fields|
    ensures Width(fields[..i]) + fields[i].l <= |Packed(fields)|
    ensures Packed(fields)[Width(fields[..i])..Width(fields[..i]) + fields[i].l] == BitsOf(fields[i].value.value, fields[i].l)
  {
    hide Put, BitsOf;
    var rest, f := fields[..|fields| - 1], fields[|fields| - 1];
    PackedWidth(rest);
    PutFits(f.value.value, f.l);
    if i == |fields| - 1 {
      assert fields[..i] == rest;
    } else {
      assert fields[..i] == rest[..i];
      PackedAt(rest, i);
    }
  }

  /**
   Reading back a packed field gives its value, unless the stream's own position leaves fewer
   bits than the field has; a stream at its start always gives it.
   */
  lemma RoundTrip(fields: seq<Field>, bytes: seq<nat>, offset: int, base: int, i: nat)
    requires InRange(fields) && i < |fields| && ByteBits(bytes) == Packed(fields)
    ensures var r := ReadBits(bytes, offset, base, 8 * base + Width(fields[..i]), fields[i].l);
      && (r == fields[i].value <==> fields[i].l == 0 || fields[i].l <= 8 * (|bytes| - (offset - base)))
      && (offset <= base ==> r == fields[i].value)
  {
    hide ByteBits, BitsOf, Packed, ValueOf;
    var v, l := fields[i].value.value, fields[i].l;
    PackedAt(fields, i);
    ValueBitsOf(v, l);
    BelowPower(v, l);
  }
}
