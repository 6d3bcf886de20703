/** Little-endian byte sequences and the fixed-width arithmetic on them. */
module Bytes {
  type byte = x: int | 0 <= x < 256

  // ---- bytes as bit-vectors ----

  lemma RoundWord(x: bv8)
    ensures x as int < 256 && ((x as int) as bv8) == x
  {}

  lemma NextWord(x: bv8)
    ensures if x == 255 then x as int == 255 else (x + 1) as int == x as int + 1
  {}

  lemma {:induction false} WordFor(a: byte) returns (x: bv8)
    ensures x as int == a
  {
    x := 0;
    if a > 0 {
      x := WordFor(a - 1);
      NextWord(x);
      x := x + 1;
    }
  }

  /** A byte as a bit-vector is the byte. */
  lemma ByteAsWord(a: byte)
    ensures (a as bv8) as int == a
  {
    var x := WordFor(a);
    RoundWord(x);
  }

  // ---- byte sequences as numbers ----

  /** 256 to the power n: the number of values of an n-byte word. */
  function Pow256(n: nat): (p: nat)
    ensures p >= 1
  {
    if n == 0 then 1 else 256 * Pow256(n - 1)
  }

  lemma Pow256Eight()
    ensures Pow256(8) == 0x1_0000_0000_0000_0000
  {
    assert Pow256(2) == 0x10000;
    assert Pow256(4) == 0x1_0000_0000;
    assert Pow256(6) == 0x1_0000_0000_0000;
  }

  /** The unsigned value of a little-endian byte sequence. */
  function Num(bs: seq<byte>): (v: nat)
    ensures v < Pow256(|bs|)
  {
    if bs == [] then 0 else bs[0] + 256 * Num(bs[1..])
  }

  predicate AllZero(bs: seq<byte>) { forall i :: 0 <= i < |bs| ==> bs[i] == 0 }

  lemma {:induction false} NumZero(bs: seq<byte>)
    ensures Num(bs) == 0 <==> AllZero(bs)
  {
    if bs != [] {
      NumZero(bs[1..]);
      assert bs == [bs[0]] + bs[1..];
    }
  }

  /** The n low-order bytes of v, lowest first. */
  function ToBytes(v: nat, n: nat): (bs: seq<byte>)
    ensures |bs| == n
  {
    if n == 0 then [] else [v % 256] + ToBytes(v / 256, n - 1)
  }

  lemma {:induction false} ToBytesOfNum(bs: seq<byte>)
    ensures ToBytes(Num(bs), |bs|) == bs
  {
    if bs != [] {
      ToBytesOfNum(bs[1..]);
      assert Num(bs) / 256 == Num(bs[1..]);
    }
  }

  lemma {:induction false} NumOfToBytes(v: nat, n: nat)
    requires v < Pow256(n)
    ensures Num(ToBytes(v, n)) == v
  {
    if n > 0 {
      NumOfToBytes(v / 256, n - 1);
    }
  }

  /** Bytes lo..lo+n of memory, written into a byte map. */
  function Put(m: map<int, byte>, lo: int, bs: seq<byte>): (r: map<int, byte>)
  {
    map a | a in m :: if lo <= a < lo + |bs| then bs[a - lo] else m[a]
  }

  /** Every byte of lo..lo+n is present in the map. */
  predicate Mapped(m: map<int, byte>, lo: int, n: nat) {
    forall a :: lo <= a < lo + n ==> a in m
  }

  /** The n bytes at lo. */
  function Get(m: map<int, byte>, lo: int, n: nat): (bs: seq<byte>)
    requires Mapped(m, lo, n)
    ensures |bs| == n
  {
    seq(n, i requires 0 <= i < n => m[lo + i])
  }

  /** A word read as a signed value and widened to eight bytes. */
  function SignExtend(bs: seq<byte>): (v: seq<byte>)
    requires 1 <= |bs| <= 8
    ensures |v| == 8 && v[..|bs|] == bs
  {
    bs + seq<byte>(8 - |bs|, _ => if bs[|bs| - 1] >= 128 then 255 else 0)
  }

  /** The low bytes of a word replaced. */
  function Low(word: seq<byte>, bs: seq<byte>): (r: seq<byte>)
    requires |bs| <= |word|
    ensures |r| == |word| && r[..|bs|] == bs
  {
    bs + word[|bs|..]
  }
}
