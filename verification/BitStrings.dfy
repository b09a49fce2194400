/** Strings of bits, most significant first, and the numbers, digits and bytes they stand for. */
module BitStrings {
  import opened Bits

  function ValueOf(bits: seq<bool>): (r: nat) {
    if bits == [] then 0 else 2 * ValueOf(bits[..|bits| - 1]) + if bits[|bits| - 1] then 1 else 0
  }

  /** The n low bits of v. */
  function BitsOf(v: nat, n: nat): (r: seq<bool>)
    ensures |r| == n
  {
    if n == 0 then [] else BitsOf(v / 2, n - 1) + [v % 2 == 1]
  }

  function Zeros(n: nat): (r: seq<bool>)
    ensures |r| == n
  {
    seq(n, i => false)
  }

  lemma {:induction false} ValueBitsOf(v: nat, n: nat)
    ensures ValueOf(BitsOf(v, n)) == Low(v, n)
  {
    if n > 0 {
      ValueBitsOf(v / 2, n - 1);
      assert BitsOf(v, n)[..n - 1] == BitsOf(v / 2, n - 1);
    }
  }

  lemma {:induction false} BitsOfValue(bits: seq<bool>)
    ensures BitsOf(ValueOf(bits), |bits|) == bits && ValueOf(bits) < Pow2(|bits|)
  {
    if bits != [] { BitsOfValue(bits[..|bits| - 1]); }
  }

  lemma {:induction false} ValueSplit(a: seq<bool>, b: seq<bool>)
    ensures ValueOf(a + b) == Shl(ValueOf(a), |b|) + ValueOf(b)
  {
    if b == [] {
      assert a + b == a;
    } else {
      ValueSplit(a, b[..|b| - 1]);
      assert (a + b)[..|a + b| - 1] == a + b[..|b| - 1];
    }
  }

  /** Cutting a string of bits is shifting and masking its value. */
  lemma ValueParts(bits: seq<bool>, k: nat)
    requires k <= |bits|
    ensures ValueOf(bits[..k]) == Shr(ValueOf(bits), |bits| - k) && ValueOf(bits[k..]) == Low(ValueOf(bits), |bits| - k)
  {
    hide *;
    assert bits == bits[..k] + bits[k..];
    ValueSplit(bits[..k], bits[k..]);
    BitsOfValue(bits[k..]);
    ShlOf(ValueOf(bits[..k]), ValueOf(bits[k..]), |bits| - k);
  }

  lemma {:induction false} BitsOfZero(n: nat)
    ensures BitsOf(0, n) == Zeros(n)
  {
    if n > 0 { BitsOfZero(n - 1); }
  }

  /** Splitting a number splits its bits. */
  lemma {:induction false} BitsOfParts(v: nat, n: nat, k: nat)
    ensures BitsOf(v, n + k) == BitsOf(Shr(v, k), n) + BitsOf(v, k)
  {
    if k > 0 { BitsOfParts(v / 2, n, k - 1); }
  }

  lemma {:induction false} BitsOfLow(v: nat, k: nat)
    ensures BitsOf(Low(v, k), k) == BitsOf(v, k)
  {
    if k > 0 { BitsOfLow(v / 2, k - 1); }
  }

  // ----- binary and hexadecimal numerals -----

  /** The digits bin() writes. */
  function Bin(v: nat): (r: seq<bool>)
    ensures r != []
  {
    if v < 2 then [v == 1] else Bin(v / 2) + [v % 2 == 1]
  }

  function PadBits(bits: seq<bool>, n: nat): (r: seq<bool>) {
    if |bits| < n then Zeros(n - |bits|) + bits else bits
  }

  lemma {:induction false} BinPadded(v: nat, n: nat)
    requires n > 0 && v < Pow2(n)
    ensures PadBits(Bin(v), n) == BitsOf(v, n)
  {
    if v < 2 {
      BitsOfZero(n - 1);
      assert v / 2 == 0;
    } else {
      assert n > 1;
      BinPadded(v / 2, n - 1);
    }
  }

  lemma {:induction false} BinLength(v: nat, n: nat)
    requires n > 0 && v < Pow2(n)
    ensures |Bin(v)| <= n && ValueOf(Bin(v)) == v
  {
    if v >= 2 {
      assert n > 1;
      BinLength(v / 2, n - 1);
      assert Bin(v)[..|Bin(v)| - 1] == Bin(v / 2);
    }
  }

  /** The digits "%X" writes. */
  function Hex(v: nat): (r: seq<nat>)
    ensures r != [] && forall i :: 0 <= i < |r| ==> r[i] < 16
  {
    if v < 16 then [v] else Hex(v / 16) + [v % 16]
  }

  function PadHex(ds: seq<nat>, n: nat): (r: seq<nat>) {
    if |ds| < n then seq(n - |ds|, i => 0) + ds else ds
  }

  /** The bits of hexadecimal digits. */
  function NibbleBits(ds: seq<nat>): (r: seq<bool>)
    ensures |r| == 4 * |ds|
  {
    if ds == [] then [] else NibbleBits(ds[..|ds| - 1]) + BitsOf(ds[|ds| - 1], 4)
  }

  lemma Sixteenth(v: nat)
    ensures Shr(v, 4) == v / 16 && Low(v, 4) == v % 16
  {
    assert Shr(v, 4) == Shr(v / 2, 3) == Shr(v / 2 / 2, 2) == Shr(v / 2 / 2 / 2, 1) == v / 2 / 2 / 2 / 2;
    Split(v, 4);
    var h := Shr(v, 4);
    assert Shl(h, 4) == 2 * Shl(h, 3) && Shl(h, 3) == 2 * Shl(h, 2) && Shl(h, 2) == 2 * Shl(h, 1) && Shl(h, 1) == 2 * h;
    assert Pow2(4) == 2 * Pow2(3) && Pow2(3) == 2 * Pow2(2) && Pow2(2) == 2 * Pow2(1) && Pow2(1) == 2;
  }

  lemma {:induction false} ZeroNibbles(n: nat)
    ensures NibbleBits(seq(n, i => 0)) == Zeros(4 * n)
  {
    if n > 0 {
      var s: seq<nat> := seq(n, i => 0);
      var t: seq<nat> := seq(n - 1, i => 0);
      assert s[..n - 1] == t;
      ZeroNibbles(n - 1);
      BitsOfZero(4);
    }
  }

  lemma NibbleLast(ds: seq<nat>, d: nat)
    ensures NibbleBits(ds + [d]) == NibbleBits(ds) + BitsOf(d, 4)
  {
    assert (ds + [d])[..|ds|] == ds;
  }

  lemma FourMore(v: nat, m: nat)
    ensures BitsOf(v, m + 4) == BitsOf(v / 16, m) + BitsOf(v % 16, 4)
  {
    hide *;
    Sixteenth(v);
    BitsOfParts(v, m, 4);
    BitsOfLow(v, 4);
  }

  /** Padded hexadecimal digits carry the bits of the number. */
  lemma {:induction false} HexBits(v: nat, n: nat)
    requires n > 0 && v < Pow2(4 * n)
    ensures |PadHex(Hex(v), n)| == n && NibbleBits(PadHex(Hex(v), n)) == BitsOf(v, 4 * n)
    ensures forall i :: 0 <= i < n ==> PadHex(Hex(v), n)[i] < 16
  {
    hide BitsOf, NibbleBits, Pow2;
    FourMore(v, 4 * (n - 1));
    if v < 16 {
      var zs: seq<nat> := seq(n - 1, i => 0);
      assert PadHex(Hex(v), n) == zs + [v];
      NibbleLast(zs, v);
      ZeroNibbles(n - 1);
      BitsOfZero(4 * (n - 1));
    } else {
      PowSixteen(4 * (n - 1));
      NoPower();
      assert n > 1;
      HexBits(v / 16, n - 1);
      var ds := PadHex(Hex(v / 16), n - 1);
      HexMore(v, n);
      NibbleLast(ds, v % 16);
    }
  }

  lemma HexMore(v: nat, n: nat)
    requires n > 1 && v >= 16
    ensures PadHex(Hex(v), n) == PadHex(Hex(v / 16), n - 1) + [v % 16]
  {
    var h := Hex(v / 16);
    assert Hex(v) == h + [v % 16];
    hide Hex;
  }

  lemma NoPower()
    ensures Pow2(0) == 1
  {}

  lemma PowSixteen(m: nat)
    ensures Pow2(m + 4) == 16 * Pow2(m)
  {
    assert Pow2(m + 4) == 2 * Pow2(m + 3);
    assert Pow2(m + 3) == 2 * Pow2(m + 2);
    assert Pow2(m + 2) == 2 * Pow2(m + 1);
  }

  // ----- bytes -----

  ghost predicate AreBytes(bs: seq<nat>) {
    forall i :: 0 <= i < |bs| ==> bs[i] < 256
  }

  function ByteBits(bs: seq<nat>): (r: seq<bool>)
    ensures |r| == 8 * |bs|
  {
    if bs == [] then [] else ByteBits(bs[..|bs| - 1]) + BitsOf(bs[|bs| - 1], 8)
  }

  /** Two hexadecimal digits a byte. */
  function DecodeHex(ds: seq<nat>): (r: seq<nat>)
    requires |ds| % 2 == 0
  {
    if ds == [] then [] else DecodeHex(ds[..|ds| - 2]) + [16 * ds[|ds| - 2] + ds[|ds| - 1]]
  }

  lemma {:induction false} DecodedBits(ds: seq<nat>)
    requires |ds| % 2 == 0 && forall i :: 0 <= i < |ds| ==> ds[i] < 16
    ensures ByteBits(DecodeHex(ds)) == NibbleBits(ds) && AreBytes(DecodeHex(ds)) && 2 * |DecodeHex(ds)| == |ds|
  {
    hide BitsOf, NibbleBits, ByteBits;
    if ds != [] {
      var rest, a, b := ds[..|ds| - 2], ds[|ds| - 2], ds[|ds| - 1];
      DecodedBits(rest);
      ByteLast(DecodeHex(rest), 16 * a + b);
      FourMore(16 * a + b, 4);
      NibbleLast(rest, a);
      NibbleLast(rest + [a], b);
      assert ds == rest + [a] + [b];
    } else {
      NoBits();
    }
  }

  lemma NoBits()
    ensures ByteBits([]) == [] && NibbleBits([]) == []
  {}

  lemma ByteLast(bs: seq<nat>, b: nat)
    ensures ByteBits(bs + [b]) == ByteBits(bs) + BitsOf(b, 8)
  {
    assert (bs + [b])[..|bs|] == bs;
  }

  lemma {:induction false} BytesAt(bs: seq<nat>, k: nat)
    requires k < |bs|
    ensures ByteBits(bs)[8 * k..8 * k + 8] == BitsOf(bs[k], 8)
  {
    if k < |bs| - 1 {
      BytesAt(bs[..|bs| - 1], k);
      assert ByteBits(bs)[8 * k..8 * k + 8] == ByteBits(bs[..|bs| - 1])[8 * k..8 * k + 8];
    }
  }

  lemma {:induction false} BytesSlice(bs: seq<nat>, i: nat, j: nat)
    requires i <= j <= |bs|
    ensures ByteBits(bs[i..j]) == ByteBits(bs)[8 * i..8 * j]
  {
    hide BitsOf, ByteBits;
    if i < j {
      BytesSlice(bs, i, j - 1);
      assert bs[i..j] == bs[i..j - 1] + [bs[j - 1]];
      ByteLast(bs[i..j - 1], bs[j - 1]);
      BytesAt(bs, j - 1);
      var all := ByteBits(bs);
      assert all[8 * i..8 * j] == all[8 * i..8 * (j - 1)] + all[8 * (j - 1)..8 * j];
    }
  }
}
