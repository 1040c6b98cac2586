/** Bytes, machine words and host byte order: what src/constants.hpp and <endian.h> give the codec. */
module Bytes {

  type Byte = n: nat | n < 256

  // std::string and every buffer the programs exchange are byte sequences.
  type Str = seq<Byte>

  const TWO_16: int := 0x1_0000
  const TWO_32: int := 0x1_0000_0000
  const TWO_63: int := 0x8000_0000_0000_0000
  const TWO_64: int := 0x1_0000_0000_0000_0000

  type U16 = n: nat | n < TWO_16
  type U32 = n: nat | n < TWO_32
  type U64 = n: nat | n < TWO_64
  type I64 = n: int | -TWO_63 <= n < TWO_63

  datatype Option<+T> = None | Some(value: T)

  function Min(a: nat, b: nat): nat {
    if a <= b then a else b
  }

  /* ---- Concatenation ---- */

  lemma Front(a: Str, rest: Str)
    ensures (a + rest)[..|a|] == a && (a + rest)[|a|..] == rest
  {}

  lemma Associate(a: Str, b: Str, c: Str)
    ensures (a + b) + c == a + (b + c)
  {}

  /* ---- Big-endian words ---- */

  function Pow256(k: nat): (p: nat)
    ensures p > 0
  {
    if k == 0 then 1 else 256 * Pow256(k - 1)
  }

  lemma Pow256Values()
    ensures Pow256(2) == TWO_16 && Pow256(4) == TWO_32 && Pow256(8) == TWO_64
  {}

  // The k-byte big-endian image of v, most significant byte first.
  function BigEndian(k: nat, v: nat): (bs: Str)
    requires v < Pow256(k)
    ensures |bs| == k
  {
    if k == 0 then [] else BigEndian(k - 1, v / 256) + [v % 256]
  }

  function FromBigEndian(bs: Str): (v: nat)
    ensures v < Pow256(|bs|)
  {
    if bs == [] then 0
    else FromBigEndian(bs[..|bs| - 1]) * 256 + bs[|bs| - 1]
  }

  lemma {:induction false} BigEndianDecodes(k: nat, v: nat)
    requires v < Pow256(k)
    ensures FromBigEndian(BigEndian(k, v)) == v
  {
    if k > 0 {
      var bs := BigEndian(k, v);
      assert bs[..|bs| - 1] == BigEndian(k - 1, v / 256);
      BigEndianDecodes(k - 1, v / 256);
    }
  }

  lemma {:induction false} BigEndianEncodes(bs: Str)
    ensures BigEndian(|bs|, FromBigEndian(bs)) == bs
  {
    if bs != [] {
      var init := bs[..|bs| - 1];
      BigEndianEncodes(init);
      var v := FromBigEndian(bs);
      assert v / 256 == FromBigEndian(init) && v % 256 == bs[|bs| - 1];
      assert bs == init + [bs[|bs| - 1]];
    }
  }

  // A clear top bit keeps a word in the lower half of its range.
  lemma {:induction false} TopBitClear(bs: Str)
    requires bs != [] && bs[0] < 128
    ensures FromBigEndian(bs) < 128 * Pow256(|bs| - 1)
  {
    if |bs| == 1 {
      assert bs[..0] == [];
    } else {
      TopBitClear(bs[..|bs| - 1]);
    }
  }

  /* ---- Host byte order ---- */

  datatype Endian = Little | Big

  function Reverse(s: Str): (r: Str)
    ensures |r| == |s|
  {
    if s == [] then [] else Reverse(s[1..]) + [s[0]]
  }

  lemma {:induction false} ReverseTwice(s: Str)
    ensures Reverse(Reverse(s)) == s
  {
    if s != [] {
      ReverseTwice(s[1..]);
      ReverseAppend(Reverse(s[1..]), s[0]);
    }
  }

  lemma {:induction false} ReverseAppend(s: Str, b: Byte)
    ensures Reverse(s + [b]) == [b] + Reverse(s)
  {
    if s != [] {
      assert (s + [b])[1..] == s[1..] + [b];
      ReverseAppend(s[1..], b);
    }
  }

  // The bytes a k-byte word occupies in the memory of a host of byte order h.
  function Memory(h: Endian, k: nat, v: nat): (bs: Str)
    requires v < Pow256(k)
    ensures |bs| == k
  {
    if h.Big? then BigEndian(k, v) else Reverse(BigEndian(k, v))
  }

  function FromMemory(h: Endian, bs: Str): (v: nat)
    ensures v < Pow256(|bs|)
  {
    if h.Big? then FromBigEndian(bs) else FromBigEndian(Reverse(bs))
  }

  // htobe16/32/64 and be16/32/64toh: on a little-endian host both reverse the bytes of the word.
  function SwapToBig(h: Endian, k: nat, v: nat): (w: nat)
    requires v < Pow256(k)
    ensures w < Pow256(k)
  {
    if h.Big? then v else FromBigEndian(Reverse(BigEndian(k, v)))
  }

  // What reaches the wire does not depend on the byte order of the sender ...
  lemma SwappedMemoryIsBigEndian(h: Endian, k: nat, v: nat)
    requires v < Pow256(k)
    ensures Memory(h, k, SwapToBig(h, k, v)) == BigEndian(k, v)
  {
    if h.Little? {
      var r := Reverse(BigEndian(k, v));
      BigEndianEncodes(r);
      ReverseTwice(BigEndian(k, v));
    }
  }

  // ... and what the receiver understands does not depend on its own.
  lemma SwappedReadIsBigEndian(h: Endian, bs: Str)
    ensures SwapToBig(h, |bs|, FromMemory(h, bs)) == FromBigEndian(bs)
  {
    if h.Little? {
      BigEndianEncodes(Reverse(bs));
      ReverseTwice(bs);
    }
  }

  // Zero is zero in any byte order.
  lemma SwappedZero(h: Endian, k: nat)
    ensures SwapToBig(h, k, 0) == 0
  {
    ZeroImage(k);
    assert Reverse(BigEndian(k, 0)) == Zeros(k) by { ReverseZeros(k); }
    BigEndianDecodes(k, 0);
  }

  lemma {:induction false} ZeroImage(k: nat)
    ensures BigEndian(k, 0) == Zeros(k)
  {
    if k > 0 {
      ZeroImage(k - 1);
    }
  }

  lemma {:induction false} ReverseZeros(k: nat)
    ensures Reverse(Zeros(k)) == Zeros(k)
  {
    if k > 0 {
      assert Zeros(k)[1..] == Zeros(k - 1);
      ReverseZeros(k - 1);
    }
  }

  lemma MemoryHolds(h: Endian, k: nat, v: nat)
    requires v < Pow256(k)
    ensures FromMemory(h, Memory(h, k, v)) == v
  {
    BigEndianDecodes(k, v);
    ReverseTwice(BigEndian(k, v));
  }

  function Zeros(n: nat): (z: Str)
    ensures |z| == n
  {
    seq(n, _ => 0)
  }
}
