/** Byte strings and the bit strings they stand for. */
module Bytes {
  import opened Arith
  import opened Blocks

  // A byte as its bits, in the order in which the hash function at hand reads them.
  type Byte = s: seq<bool> | |s| == 8 witness seq(8, _ => false)

  function BitsOf(bytes: seq<Byte>): (bits: seq<bool>)
    ensures |bits| == 8 * |bytes|
  {
    seq(8 * |bytes|, z requires 0 <= z < 8 * |bytes| => bytes[z / 8][z % 8])
  }

  function Zeros(n: nat): (z: seq<bool>)
    ensures |z| == n
  {
    seq(n, _ => false)
  }

  function ZeroBytes(n: nat): seq<Byte> { seq(n, _ => seq(8, _ => false)) }

  lemma BitsAppend(a: seq<Byte>, b: seq<Byte>)
    ensures BitsOf(a + b) == BitsOf(a) + BitsOf(b)
  {
    forall z: nat | z < 8 * |a| + 8 * |b| ensures BitsOf(a + b)[z] == (BitsOf(a) + BitsOf(b))[z] {
      if z >= 8 * |a| {
        assert z / 8 == |a| + (z - 8 * |a|) / 8 && z % 8 == (z - 8 * |a|) % 8;
      }
    }
  }

  function BitBlocks(bs: seq<seq<Byte>>): (r: seq<seq<bool>>)
    ensures |r| == |bs| && forall i :: 0 <= i < |bs| ==> r[i] == BitsOf(bs[i])
  {
    seq(|bs|, i requires 0 <= i < |bs| => BitsOf(bs[i]))
  }

  lemma {:induction false} BitsOfConcat(bs: seq<seq<Byte>>)
    ensures BitsOf(Concat(bs)) == Concat(BitBlocks(bs))
  {
    if bs != [] {
      BitsOfConcat(bs[1..]);
      BitsAppend(bs[0], Concat(bs[1..]));
      assert BitBlocks(bs)[1..] == BitBlocks(bs[1..]);
    }
  }

  lemma CutBits(bs: seq<seq<Byte>>, lim: nat)
    requires lim > 0 && Whole(bs, lim)
    ensures Cut(BitsOf(Concat(bs)), 8 * lim) == BitBlocks(bs)
  {
    BitsOfConcat(bs);
    CutConcat(BitBlocks(bs), [], 8 * lim);
    assert Concat(BitBlocks(bs)) + [] == Concat(BitBlocks(bs));
  }

  lemma ZeroBytesBits(n: nat)
    ensures BitsOf(ZeroBytes(n)) == Zeros(8 * n)
  {
  }

  lemma OneByte(b: Byte)
    ensures BitsOf([b]) == b
  {
  }

  // ----- numbers as bits, highest first

  function BigEndian(v: nat, n: nat): (bits: seq<bool>)
    ensures |bits| == n
  {
    if n == 0 then [] else BigEndian(v / 2, n - 1) + [v % 2 == 1]
  }

  // The last k bytes of v, highest first.
  function Encode(v: nat, k: nat): (b: seq<Byte>)
    ensures |b| == k
  {
    if k == 0 then [] else Encode(v / 256, k - 1) + [BigEndian(v, 8)]
  }

  // Bit i of n bits is worth 2^(n - 1 - i).
  lemma {:induction false} BigEndianAt(v: nat, n: nat, i: nat)
    requires i < n
    ensures BigEndian(v, n)[i] <==> v / Pow2(n - 1 - i) % 2 == 1
  {
    if i < n - 1 {
      BigEndianAt(v / 2, n - 1, i);
      DivideTwice(v, 2, Pow2(n - 2 - i));
    }
  }

  lemma DivideTwice(v: nat, a: nat, b: nat)
    requires a > 0 && b > 0
    ensures v / a / b == v / (a * b)
  {
    var q, r := v / a / b, v / a % b;
    Quotient(v, a);
    Quotient(v / a, b);
    Spread(q, b, r, a);
    AtLeastOnce(b, r, a);
    ModUnique(v, a * b, q, r * a + v % a);
  }

  // Byte j of k bytes is worth 2^(8 * (k - 1 - j)).
  lemma {:induction false} EncodeAt(v: nat, k: nat, j: nat)
    requires j < k
    ensures Encode(v, k)[j] == BigEndian(v / Pow2(8 * (k - 1 - j)), 8)
  {
    hide BigEndian;
    if j < k - 1 {
      EncodeAt(v / 256, k - 1, j);
      var m := 8 * (k - 2 - j);
      hide Pow2;
      Times256(1);
      Pow2Add(8, m);
      DivideTwice(v, 256, Pow2(m));
    }
  }

  // High and low part of a number, written one after the other.
  lemma {:induction false} BigEndianSplit(q: nat, r: nat, a: nat, b: nat)
    requires r < Pow2(b)
    ensures BigEndian(q * Pow2(b) + r, a + b) == BigEndian(q, a) + BigEndian(r, b)
  {
    if b > 0 {
      var v, h := q * Pow2(b) + r, q * Pow2(b - 1);
      assert v == 2 * h + r;
      assert v / 2 == h + r / 2 && v % 2 == r % 2;
      BigEndianSplit(q, r / 2, a, b - 1);
      HalfBits(v, v / 2, a + b - 1);
      HalfBits(r, r / 2, b - 1);
    }
  }

  lemma HalfBits(v: nat, half: nat, n: nat)
    requires half == v / 2
    ensures BigEndian(v, n + 1) == BigEndian(half, n) + [v % 2 == 1]
  {
  }

  lemma Times256(q: nat)
    ensures Pow2(8) == 256 && q * Pow2(8) == 256 * q
  {
    assert Pow2(4) == 16;
  }

  lemma LastByte(v: nat, n: nat)
    ensures BigEndian(v, n + 8) == BigEndian(v / 256, n) + BigEndian(v, 8)
  {
    hide BigEndian, Pow2;
    Times256(v / 256);
    BigEndianSplit(v / 256, v % 256, n, 8);
    BigEndianSplit(v / 256, v % 256, 0, 8);
    NoBits(v / 256);
  }

  lemma NoBits(v: nat)
    ensures BigEndian(v, 0) == [] && BitsOf([]) == []
  {
  }

  lemma {:induction false} EncodeBits(v: nat, k: nat)
    ensures BitsOf(Encode(v, k)) == BigEndian(v, 8 * k)
  {
    hide BigEndian, BitsOf;
    if k == 0 {
      NoBits(v);
    } else {
      EncodeBits(v / 256, k - 1);
      LastByte(v, 8 * k - 8);
      BitsAppend(Encode(v / 256, k - 1), [BigEndian(v, 8)]);
      OneByte(BigEndian(v, 8));
    }
  }

  // Two words of k bytes hold one number of twice the width.
  lemma EncodeTwo(hi: nat, lo: nat, k: nat)
    requires lo < Pow2(8 * k)
    ensures BitsOf(Encode(hi, k) + Encode(lo, k)) == BigEndian(hi * Pow2(8 * k) + lo, 16 * k)
  {
    hide BigEndian, BitsOf, Pow2;
    BitsAppend(Encode(hi, k), Encode(lo, k));
    EncodeBits(hi, k);
    EncodeBits(lo, k);
    BigEndianSplit(hi, lo, 8 * k, 8 * k);
  }

  // The byte that ends a message of whole bytes and n more bits, the highest ones of ub:
  // ((ub & -z) | z) & 0xFF with z = 0x80 >> n.
  function PadByte(ub: Byte, n: nat): Byte
    requires n < 8
  {
    ub[..n] + [true] + Zeros(7 - n)
  }

  // That is so for the number q * 2^b + r that ub stands for, with b = 8 - n.
  lemma PadByteOf(q: nat, r: nat, n: nat, b: nat)
    requires n + b == 8 && b > 0 && r < Pow2(b)
    ensures Pow2(b) == 2 * Pow2(b - 1)
    ensures PadByte(BigEndian(q * Pow2(b) + r, 8), n) == BigEndian(q * Pow2(b) + Pow2(b - 1), 8)
  {
    hide BigEndian, Pow2;
    Pow2Step(b);
    BigEndianSplit(q, r, n, b);
    BigEndianSplit(q, Pow2(b - 1), n, b);
    OneAndZeros(b - 1);
    assert BigEndian(q * Pow2(b) + r, 8)[..n] == BigEndian(q, n);
  }

  lemma {:induction false} OneAndZeros(n: nat)
    ensures BigEndian(Pow2(n), n + 1) == [true] + Zeros(n)
  {
    if n > 0 {
      OneAndZeros(n - 1);
      HalfBits(Pow2(n), Pow2(n - 1), n);
      assert Zeros(n) == Zeros(n - 1) + [false];
    }
  }
}
