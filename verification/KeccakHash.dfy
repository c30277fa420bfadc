/** The streaming interface of the hash: buffering, padding, and the digest. */
module KeccakHash {
  import opened Arith
  import opened Lanes
  import opened KeccakSpec
  import opened Keccak
  import opened Blocks
  import opened Bytes
  import opened KeccakSponge

  const BUFFER_BYTES: nat := 144

  // Eight bytes as a word, lowest byte first, and back.
  function DecodeWord(b: seq<Byte>, j: nat): Lane
    requires j + 8 <= |b|
  {
    seq(64, z requires 0 <= z < 64 => b[j + z / 8][z % 8])
  }

  function EncodeWord(w: Lane): seq<Byte> {
    seq(8, t requires 0 <= t < 8 => w[8 * t..8 * t + 8])
  }

  lemma DecodeIsBits(b: seq<Byte>, i: nat)
    requires 8 * i + 8 <= |b|
    ensures DecodeWord(b, 8 * i) == BitsOf(b)[64 * i..64 * i + 64]
  {
    forall z: nat | z < 64 ensures DecodeWord(b, 8 * i)[z] == BitsOf(b)[64 * i..64 * i + 64][z] {
      assert (64 * i + z) / 8 == 8 * i + z / 8 && (64 * i + z) % 8 == z % 8;
    }
  }

  lemma EncodeIsBits(w: Lane)
    ensures BitsOf(EncodeWord(w)) == w
  {
    forall z: nat | z < 64 ensures BitsOf(EncodeWord(w))[z] == w[z] {
      assert 8 * (z / 8) + z % 8 == z;
    }
  }

  // ----- the state after whole blocks of bytes

  function Absorbed(blocks: seq<seq<Byte>>, lim: nat): State
    requires lim <= 200 && Whole(blocks, lim)
    decreases |blocks|
  {
    if blocks == [] then ZeroState()
    else
      var n := |blocks| - 1;
      Permute(XorInto(Absorbed(blocks[..n], lim), BitsOf(blocks[n])))
  }

  lemma AbsorbedSnoc(blocks: seq<seq<Byte>>, b: seq<Byte>, lim: nat)
    requires lim <= 200 && Whole(blocks, lim) && |b| == lim
    ensures Absorbed(blocks + [b], lim) == Permute(XorInto(Absorbed(blocks, lim), BitsOf(b)))
  {
    hide Permute, XorInto;
    assert (blocks + [b])[..|blocks|] == blocks;
  }

  lemma {:induction false} AbsorbedIsAbsorb(blocks: seq<seq<Byte>>, lim: nat)
    requires lim <= 200 && Whole(blocks, lim)
    ensures Absorbed(blocks, lim) == Absorb(BitBlocks(blocks), 8 * lim)
    decreases |blocks|
  {
    hide Permute, XorInto, BitsOf;
    if blocks != [] {
      var n := |blocks| - 1;
      AbsorbedIsAbsorb(blocks[..n], lim);
      assert BitBlocks(blocks)[..n] == BitBlocks(blocks[..n]);
    }
  }

  // ----- the bytes that close a message

  // (0x100 | ub) >> (8 - n)
  function EndByte(ub: Byte, n: nat): Byte
    requires n < 8
  {
    seq(8, z requires 0 <= z < 8 => if z < n then ub[z + 8 - n] else z == n)
  }

  // 0x80
  function Top(): Byte { seq(8, z => z == 7) }

  // The n bits that ub adds to the message: its highest ones.
  function LastBits(ub: Byte, n: nat): seq<bool>
    requires n < 8
  {
    ub[8 - n..]
  }

  function Tail(ub: Byte, n: nat, lim: nat, ptr: nat): seq<Byte>
    requires n < 8 && ptr < lim
  {
    var eb := EndByte(ub, n);
    if ptr == lim - 1 then
      if n == 7 then [eb] + ZeroBytes(lim - 1) + [Top()] else [eb[7 := true]]
    else
      [eb] + ZeroBytes(lim - ptr - 2) + [Top()]
  }

  lemma EndByteBits(ub: Byte, n: nat)
    requires n < 8
    ensures EndByte(ub, n) == LastBits(ub, n) + [true] + Zeros(7 - n)
    ensures n < 7 ==> EndByte(ub, n)[7 := true] == LastBits(ub, n) + [true] + Zeros(6 - n) + [true]
    ensures Top() == Zeros(7) + [true]
  {
  }

  // The number that bits stand for, the lowest first.
  function LowFirst(bits: seq<bool>): nat {
    if bits == [] then 0 else (if bits[0] then 1 else 0) + 2 * LowFirst(bits[1..])
  }

  lemma {:induction false} LowFirstAppend(a: seq<bool>, b: seq<bool>)
    ensures LowFirst(a + b) == LowFirst(a) + Pow2(|a|) * LowFirst(b) && LowFirst(a) < Pow2(|a|)
  {
    if a == [] {
      assert a + b == b;
    } else {
      LowFirstAppend(a[1..], b);
      assert (a + b)[1..] == a[1..] + b;
      assert 2 * (Pow2(|a| - 1) * LowFirst(b)) == Pow2(|a|) * LowFirst(b);
    }
  }

  lemma {:induction false} LowFirstZeros(n: nat)
    ensures LowFirst(Zeros(n)) == 0 && LowFirst([true] + Zeros(n)) == 1
  {
    assert ([true] + Zeros(n))[1..] == Zeros(n);
    if n > 0 {
      LowFirstZeros(n - 1);
      assert Zeros(n)[1..] == Zeros(n - 1);
    }
  }

  // The closing byte as the shift computes it.
  lemma EndByteValue(ub: Byte, n: nat)
    requires n < 8
    ensures LowFirst(EndByte(ub, n)) == (Pow2(n + (8 - n)) + LowFirst(ub)) / Pow2(8 - n)
  {
    hide *;
    EndByteBits(ub, n);
    LastBitsLength(ub, n);
    LowFirstZeros(7 - n);
    LowFirstAppend(LastBits(ub, n), [true] + Zeros(7 - n));
    assert LastBits(ub, n) + ([true] + Zeros(7 - n)) == LastBits(ub, n) + [true] + Zeros(7 - n);
    LowFirstAppend(ub[..8 - n], ub[8 - n..]);
    assert ub[..8 - n] + ub[8 - n..] == ub;
    ShiftDownOf(LowFirst(ub[8 - n..]), LowFirst(ub[..8 - n]), n, 8 - n);
  }

  lemma ShiftDownOf(hi: nat, lo: nat, n: nat, b: nat)
    requires lo < Pow2(b)
    ensures (Pow2(n + b) + (lo + Pow2(b) * hi)) / Pow2(b) == hi + Pow2(n)
  {
    hide Pow2;
    Pow2Add(n, b);
    AddTimes(Pow2(n), hi, Pow2(b));
    ModUnique(Pow2(n + b) + (lo + Pow2(b) * hi), Pow2(b), Pow2(n) + hi, lo);
  }

  lemma AddTimes(a: nat, b: nat, p: nat)
    ensures (a + b) * p == a * p + p * b
  {
  }

  lemma LongTail(ub: Byte, n: nat, zeros: nat)
    requires n < 8
    ensures BitsOf([EndByte(ub, n)] + ZeroBytes(zeros) + [Top()]) ==
            LastBits(ub, n) + [true] + Zeros(14 - n + 8 * zeros) + [true]
  {
    var eb := EndByte(ub, n);
    BitsAppend([eb] + ZeroBytes(zeros), [Top()]);
    BitsAppend([eb], ZeroBytes(zeros));
    OneByte(eb);
    OneByte(Top());
    ZeroBytesBits(zeros);
    EndByteBits(ub, n);
    hide EndByte, BitsOf, ZeroBytes, LastBits, Top;
    assert Zeros(7 - n) + Zeros(8 * zeros) + Zeros(7) == Zeros(14 - n + 8 * zeros);
    assert LastBits(ub, n) + [true] + Zeros(7 - n) + Zeros(8 * zeros) + (Zeros(7) + [true]) ==
           LastBits(ub, n) + [true] + (Zeros(7 - n) + Zeros(8 * zeros) + Zeros(7)) + [true];
  }

  lemma TailBits(ub: Byte, n: nat, lim: nat, ptr: nat)
    requires n < 8 && ptr < lim
    ensures 8 * |Tail(ub, n, lim, ptr)| >= n + 2
    ensures BitsOf(Tail(ub, n, lim, ptr)) ==
            LastBits(ub, n) + [true] + Zeros(8 * |Tail(ub, n, lim, ptr)| - n - 2) + [true]
  {
    hide BitsOf, EndByte, LastBits, Top;
    EndByteBits(ub, n);
    if ptr == lim - 1 {
      if n == 7 {
        LongTail(ub, n, lim - 1);
      } else {
        OneByte(EndByte(ub, n)[7 := true]);
      }
    } else {
      LongTail(ub, n, lim - ptr - 2);
    }
  }

  // Message and closing bytes together are the message bits with pad10*1.
  lemma TailPads(m: seq<Byte>, ub: Byte, n: nat, lim: nat, ptr: nat, k: nat)
    requires n < 8 && ptr < lim && |m + Tail(ub, n, lim, ptr)| == k * lim
    ensures BitsOf(m + Tail(ub, n, lim, ptr)) ==
            BitsOf(m) + LastBits(ub, n) + Pad101(8 * lim, 8 * |m| + n)
  {
    var t := Tail(ub, n, lim, ptr);
    var bits := 8 * |m| + n;
    TailBits(ub, n, lim, ptr);
    BitsAppend(m, t);
    assert |t| <= lim + 1 && (|t| == lim + 1 ==> n == 7);
    hide Tail, BitsOf, Pad101, Zeros;
    Eightfold(k, lim);
    PadLength(8 * lim, bits, 8 * |t| - n - 2, k);
    assert BitsOf(m) + (LastBits(ub, n) + [true] + Zeros(8 * |t| - n - 2) + [true]) ==
           BitsOf(m) + LastBits(ub, n) + ([true] + Zeros(8 * |t| - n - 2) + [true]);
  }

  lemma Eightfold(k: nat, lim: nat)
    ensures 8 * (k * lim) == k * (8 * lim)
  {
  }

  // What closing computes, from the blocks the closing bytes complete.
  lemma ClosedIsDigest(m: seq<Byte>, ub: Byte, n: nat, bytes: nat, lim: nat, ptr: nat, blocks: seq<seq<Byte>>)
    requires n < 8 && bytes <= 64 && lim == 200 - 2 * bytes && ptr < lim
    requires Whole(blocks, lim) && Concat(blocks) == m + Tail(ub, n, lim, ptr)
    ensures Squeeze(Absorbed(blocks, lim), 8 * bytes) == Digest(BitsOf(m) + LastBits(ub, n), bytes)
  {
    hide Tail, Squeeze, BitsOf, Concat, Absorbed, Absorb, LastBits, Pad101, Cut, BitBlocks, Whole;
    ConcatLength(blocks, lim);
    TailPads(m, ub, n, lim, ptr, |blocks|);
    LastBitsLength(ub, n);
    var bits := BitsOf(m) + LastBits(ub, n);
    assert BitsOf(Concat(blocks)) == bits + Pad101(8 * lim, |bits|);
    CutBits(blocks, lim);
    AbsorbedIsAbsorb(blocks, lim);
  }

  lemma LastBitsLength(ub: Byte, n: nat)
    requires n < 8
    ensures |LastBits(ub, n)| == n && LastBits(ub, n) == ub[8 - n..]
  {
  }

  // ----- the words of the context

  // All words zero but the six that are stored complemented.
  function InitialWords(): (w: seq<Lane>)
    ensures |w| == 25
  {
    seq(25, i => seq(64, _ => i == 1 || i == 2 || i == 8 || i == 12 || i == 17 || i == 20))
  }

  lemma InitiallyZero()
    ensures Plain(InitialWords()) == ZeroState()
  {
    hide Plain;
    forall k: nat | k < 25 ensures Plain(InitialWords())[k] == ZeroState()[k] {
      PlainAt(InitialWords(), k);
      var i := X(k) + 5 * Y(k);
      assert Masked(Stored, k) <==> (i == 1 || i == 2 || i == 8 || i == 12 || i == 17 || i == 20);
    }
  }

  function Complemented(w: seq<Lane>): (v: seq<Lane>)
    requires |w| == 25
    ensures |v| == 25
  {
    w[1 := Not(w[1])][2 := Not(w[2])][8 := Not(w[8])][12 := Not(w[12])][17 := Not(w[17])][20 := Not(w[20])]
  }

  lemma ComplementedIsPlain(w: seq<Lane>)
    requires |w| == 25
    ensures Transpose(Complemented(w)) == Plain(w)
  {
    hide Not;
  }

  function WithBlock(w: seq<Lane>, b: seq<Byte>): (v: seq<Lane>)
    requires |w| == 25 && |b| <= 200
    ensures |v| == 25
  {
    seq(25, i requires 0 <= i < 25 => if 8 * i + 8 <= |b| then Xor(w[i], DecodeWord(b, 8 * i)) else w[i])
  }

  lemma PlainAt(w: seq<Lane>, k: nat)
    requires |w| == 25 && k < 25
    ensures Plain(w)[k] == if Masked(Stored, k) then Not(w[X(k) + 5 * Y(k)]) else w[X(k) + 5 * Y(k)]
  {
  }

  // Adding a block commutes with complementing lanes.
  lemma BlockMask(w: seq<Lane>, b: seq<Byte>)
    requires |w| == 25 && |b| <= 200
    ensures Plain(WithBlock(w, b)) == XorInto(Plain(w), BitsOf(b))
  {
    hide Plain, BitsOf, DecodeWord, Xor, Not;
    forall k: nat | k < 25 ensures Plain(WithBlock(w, b))[k] == XorInto(Plain(w), BitsOf(b))[k] {
      var i := X(k) + 5 * Y(k);
      PlainAt(w, k);
      PlainAt(WithBlock(w, b), k);
      if 8 * i + 8 <= |b| {
        DecodeIsBits(b, i);
        XorNot(w[i], DecodeWord(b, 8 * i));
      }
    }
  }

  // ----- the context

  predicate IsSize(size: nat) { size == 28 || size == 32 || size == 48 || size == 64 }

  /** A hash context for digests of `size` bytes. The message is what has been fed since the last
      initialization; the words hold its whole blocks, the buffer the rest. */
  class Context {
    const size: nat
    const lim: nat
    const buf: array<Byte>
    const wide: array<Lane>
    var ptr: nat
    ghost var blocks: seq<seq<Byte>>
    ghost var message: seq<Byte>

    ghost predicate Valid()
      reads this, buf, wide
    {
      && Shape()
      && ptr < lim
      && Whole(blocks, lim)
      && message == Concat(blocks) + buf[..ptr]
      && Plain(wide[..]) == Absorbed(blocks, lim)
    }

    predicate Shape() {
      IsSize(size) && lim == 200 - 2 * size && buf.Length == BUFFER_BYTES && wide.Length == 25
    }

    constructor (size: nat)
      requires IsSize(size)
      ensures Valid() && this.size == size && message == []
      ensures fresh(buf) && fresh(wide)
    {
      this.size := size;
      lim := 200 - 2 * size;
      buf := new Byte[BUFFER_BYTES](_ => seq(8, _ => false));
      wide := new Lane[25](_ => seq(64, _ => false));
      new;
      Init();
    }

    method Init()
      requires Shape()
      modifies this, wide
      ensures Valid() && message == []
    {
      forall i | 0 <= i < 25 { wide[i] := InitialWords()[i]; }
      ptr := 0;
      blocks, message := [], [];
      InitiallyZero();
      assert wide[..] == InitialWords();
      hide InitialWords, Plain;
      assert buf[..0] == [];
    }

    // Feeds the full buffer to the permutation.
    method Compress()
      requires Shape()
      modifies wide
      ensures Plain(wide[..]) == Permute(XorInto(Plain(old(wide[..])), BitsOf(buf[..lim])))
    {
      hide Plain, Permute, XorInto, BitsOf, DecodeWord, Xor;
      ghost var w := wide[..];
      for i := 0 to lim / 8
        invariant forall k :: 0 <= k < 25 ==>
                    wide[k] == if k < i then Xor(w[k], DecodeWord(buf[..lim], 8 * k)) else w[k]
      {
        wide[i] := Xor(wide[i], DecodeWord(buf[..lim], 8 * i));
      }
      assert wide[..] == WithBlock(w, buf[..lim]);
      BlockMask(w, buf[..lim]);
      KeccakF(wide);
    }

    method CopyIn(at: nat, data: seq<Byte>)
      requires Shape() && at + |data| <= lim
      modifies buf
      ensures buf[..at + |data|] == old(buf[..at]) + data
    {
      forall k | 0 <= k < |data| { buf[at + k] := data[k]; }
    }

    method Update(data: seq<Byte>)
      requires Valid()
      modifies this, buf, wide
      ensures Valid() && message == old(message) + data
    {
      hide Plain, Absorbed, Permute, XorInto, BitsOf, Concat, Whole;
      if |data| < lim - ptr {
        CopyIn(ptr, data);
        ptr := ptr + |data|;
        message := message + data;
        return;
      }
      var p: nat := ptr;
      var rest := data;
      while |rest| > 0
        invariant Shape() && p < lim && Whole(blocks, lim)
        invariant message + data == Concat(blocks) + buf[..p] + rest
        invariant message == old(message)
        invariant Plain(wide[..]) == Absorbed(blocks, lim)
      {
        var clen := if lim - p > |rest| then |rest| else lim - p;
        ghost var before := buf[..p];
        CopyIn(p, rest[..clen]);
        assert before + rest == buf[..p + clen] + rest[clen..];
        Resplit(Concat(blocks), before, rest, buf[..p + clen], rest[clen..]);
        p := p + clen;
        rest := rest[clen..];
        if p == lim {
          assert buf[..0] == [];
          Completed(Concat(blocks), buf[..lim], rest);
          Compress();
          AbsorbedSnoc(blocks, buf[..lim], lim);
          ConcatSnoc(blocks, buf[..lim]);
          WholeSnoc(blocks, buf[..lim], lim);
          blocks := blocks + [buf[..lim]];
          p := 0;
        }
      }
      ptr := p;
      message := message + data;
    }

    method Close(ub: Byte, n: nat) returns (dst: seq<Byte>)
      requires Valid() && n < 8
      modifies this, buf, wide
      ensures |dst| == size && BitsOf(dst) == Digest(BitsOf(old(message)) + ub[8 - n..], size)
      ensures Valid() && message == []
    {
      hide Plain, Absorbed, BitsOf, Concat, LastBits, Digest, Squeeze, EndByte, Top, ZeroBytes;
      ghost var m := message;
      ghost var p, whole := ptr, blocks;
      LastBitsLength(ub, n);
      var eb := EndByte(ub, n);
      var tail;
      if ptr == lim - 1 {
        if n == 7 {
          tail := [eb] + ZeroBytes(lim - 1) + [Top()];
        } else {
          tail := [eb[7 := true]];
        }
      } else {
        tail := [eb] + ZeroBytes(lim - ptr - 2) + [Top()];
      }
      Update(tail);
      ClosedWhole(whole, blocks, m, buf[..ptr], ub, n, lim, p);
      ClosedIsDigest(m, ub, n, size, lim, p, blocks);
      dst := Finish();
      Init();
    }

    // Puts the complemented words right and writes out the digest.
    method Finish() returns (dst: seq<Byte>)
      requires Shape()
      modifies wide
      ensures |dst| == size && BitsOf(dst) == Squeeze(Plain(old(wide[..])), 8 * size)
    {
      hide Plain, Not, EncodeWord, Transpose, BitsOf, Squeeze;
      ghost var w := wide[..];
      wide[1] := Not(wide[1]);
      wide[2] := Not(wide[2]);
      wide[8] := Not(wide[8]);
      wide[12] := Not(wide[12]);
      wide[17] := Not(wide[17]);
      wide[20] := Not(wide[20]);
      assert wide[..] == Complemented(w);
      ComplementedIsPlain(w);
      var tmp: seq<Byte> := [];
      var i := 0;
      while 8 * i < size
        invariant i <= 8 && 8 * i < size + 8
        invariant wide[..] == Complemented(w)
        invariant |tmp| == 8 * i && BitsOf(tmp) == FirstBits(wide[..], 64 * i)
        decreases size - 8 * i
      {
        BitsAppend(tmp, EncodeWord(wide[i]));
        EncodeIsBits(wide[i]);
        OneMoreWord(wide[..], i);
        tmp := tmp + EncodeWord(wide[i]);
        i := i + 1;
      }
      dst := tmp[..size];
      FirstBytes(tmp, size);
      assert FirstBits(wide[..], 64 * i)[..8 * size] == FirstBits(wide[..], 8 * size);
      SqueezeIsFirstBits(wide[..], 8 * size);
      assert BitsOf(dst) == FirstBits(wide[..], 8 * size);
      assert Transpose(wide[..]) == Plain(w);
    }
  }

  // The words as one bit string.
  function FirstBits(w: seq<Lane>, n: nat): (bits: seq<bool>)
    requires |w| == 25 && n <= 1600
    ensures |bits| == n
  {
    seq(n, z requires 0 <= z < n => w[z / 64][z % 64])
  }

  lemma OneMoreWord(w: seq<Lane>, i: nat)
    requires |w| == 25 && i < 25
    ensures FirstBits(w, 64 * i + 64) == FirstBits(w, 64 * i) + w[i]
  {
  }

  lemma FirstBytes(b: seq<Byte>, n: nat)
    requires n <= |b|
    ensures BitsOf(b[..n]) == BitsOf(b)[..8 * n]
  {
  }

  lemma SqueezeIsFirstBits(w: seq<Lane>, n: nat)
    requires |w| == 25 && n <= 1600
    ensures Squeeze(Transpose(w), n) == FirstBits(w, n)
  {
    hide Transpose;
    TransposeTwice(w);
  }

  // The closing bytes leave nothing in the buffer.
  lemma ClosedWhole(before: seq<seq<Byte>>, after: seq<seq<Byte>>, m: seq<Byte>, rest: seq<Byte>,
                    ub: Byte, n: nat, lim: nat, p: nat)
    requires n < 8 && p < lim && |rest| < lim && Whole(before, lim) && Whole(after, lim)
    requires |m| == |Concat(before)| + p
    requires m + Tail(ub, n, lim, p) == Concat(after) + rest
    ensures rest == [] && Concat(after) == m + Tail(ub, n, lim, p)
  {
    hide EndByte, Concat;
    ConcatLength(before, lim);
    ConcatLength(after, lim);
    var t := |Tail(ub, n, lim, p)|;
    assert p + t == lim || p + t == lim + lim;
    var c := if p + t == lim then 1 else 2;
    assert c * lim == p + t;
    Multiple(|after|, |rest|, |before| + c, lim);
  }
}
