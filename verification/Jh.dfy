/** The JH hash contexts: buffering, the block count and the padding. How a block is worked into the
    state is left open. */
module Jh {
  import opened Arith
  import opened Blocks
  import opened Bytes

  const BLOCK_BYTES: nat := 64
  const STATE_BYTES: nat := 128
  const COUNT_RANGE: nat := 0x1_0000_0000_0000_0000

  // The 1024-bit state, as the bytes it is written out to.
  type State = s: seq<Byte> | |s| == 128 witness seq(128, _ => seq(8, _ => false))

  type Compression = (State, seq<bool>) -> State

  function Run(f: Compression, iv: State, blocks: seq<seq<bool>>): State {
    if blocks == [] then iv else f(Run(f, iv, blocks[..|blocks| - 1]), blocks[|blocks| - 1])
  }

  // The message, a one, 383 zeros and as many more as bring it to whole blocks, and the length in
  // 128 bits. The count of blocks has 64 bits, so the length is kept modulo 2^73.
  function Pad(m: seq<bool>): seq<bool> {
    m + [true] + Zeros(383 + (0 - |m|) % 512) + BigEndian(|m| % (512 * COUNT_RANGE), 128)
  }

  function Digest(f: Compression, iv: State, words: nat, m: seq<bool>): seq<Byte>
    requires words <= 16
  {
    Run(f, iv, Cut(Pad(m), 512))[STATE_BYTES - 4 * words..]
  }

  // Whole blocks; the message comes first and then a one; the last 128 bits are its length, and between
  // there are at least 383 zeros and less than a block more.
  lemma PadIs(m: seq<bool>)
    ensures var p := Pad(m);
            && |p| % 512 == 0 && |m| + 512 <= |p| < |m| + 1024
            && p[..|m|] == m && p[|m|] && (forall i :: |m| < i < |p| - 128 ==> !p[i])
            && p[|p| - 128..] == BigEndian(|m| % 0x200_0000_0000_0000_0000, 128)
  {
    hide BigEndian;
  }

  // The digest is the end of the state that has worked in the blocks of the padded message in order.
  lemma DigestAt(f: Compression, iv: State, words: nat, m: seq<bool>, i: nat)
    requires words <= 16 && i < 4 * words
    ensures |Digest(f, iv, words, m)| == 4 * words
    ensures Digest(f, iv, words, m)[i] == Run(f, iv, Cut(Pad(m), 512))[128 - 4 * words + i]
  {
  }

  lemma RunIs(f: Compression, iv: State, blocks: seq<seq<bool>>, b: seq<bool>)
    ensures Run(f, iv, []) == iv
    ensures Run(f, iv, blocks + [b]) == f(Run(f, iv, blocks), b)
  {
    assert (blocks + [b])[..|blocks|] == blocks;
  }

  // ----- the closing bytes

  function Tail(ub: Byte, n: nat, numz: nat, l1: nat, l0: nat): (b: seq<Byte>)
    requires n < 8
    ensures |b| == numz + 17
  {
    [PadByte(ub, n)] + ZeroBytes(numz) + (Encode(l1, 8) + Encode(l0, 8))
  }

  lemma LengthBits(l1: nat, l0: nat)
    requires l0 < COUNT_RANGE
    ensures BitsOf(Encode(l1, 8) + Encode(l0, 8)) == BigEndian(l1 * COUNT_RANGE + l0, 128)
  {
    hide BitsOf, Encode, BigEndian, Pow2;
    RangeIsPow2();
    EncodeTwo(l1, l0, 8);
  }

  lemma TailBits(ub: Byte, n: nat, numz: nat, l1: nat, l0: nat)
    requires n < 8 && l0 < COUNT_RANGE
    ensures BitsOf(Tail(ub, n, numz, l1, l0)) ==
            ub[..n] + [true] + Zeros(7 - n + 8 * numz) + BigEndian(l1 * COUNT_RANGE + l0, 128)
  {
    var p := PadByte(ub, n);
    BitsAppend([p] + ZeroBytes(numz), Encode(l1, 8) + Encode(l0, 8));
    BitsAppend([p], ZeroBytes(numz));
    OneByte(p);
    ZeroBytesBits(numz);
    LengthBits(l1, l0);
    hide BitsOf, Encode, BigEndian, ZeroBytes;
    assert Zeros(7 - n) + Zeros(8 * numz) == Zeros(7 - n + 8 * numz);
  }

  lemma RangeIsPow2()
    ensures Pow2(64) == COUNT_RANGE
  {
    Times256(1);
    hide Pow2;
    Pow2Add(8, 8);
    Pow2Add(16, 16);
    Pow2Add(32, 32);
  }

  // The two length words.
  function Low(count: nat, ptr: nat, n: nat): nat { 512 * count % COUNT_RANGE + 8 * ptr + n }

  function High(count: nat): nat { count / 0x80_0000_0000_0000 }

  lemma LengthWords(blocks: nat, count: nat, ptr: nat, n: nat)
    requires count == blocks % COUNT_RANGE && ptr < 64 && n < 8
    ensures Low(count, ptr, n) < COUNT_RANGE
    ensures High(count) * COUNT_RANGE + Low(count, ptr, n) == (512 * blocks + 8 * ptr + n) % (512 * COUNT_RANGE)
  {
    var q, part := blocks / COUNT_RANGE, 8 * ptr + n;
    assert 512 * count + part < 512 * COUNT_RANGE;
    ModUnique(512 * blocks + part, 512 * COUNT_RANGE, q, 512 * count + part);
  }

  function NumZeros(ptr: nat, n: nat): nat
    requires ptr < 64
  {
    if ptr == 0 && n == 0 then 47 else 111 - ptr
  }

  lemma ZeroCount(blocks: nat, ptr: nat, n: nat)
    requires ptr < 64 && n < 8
    ensures 383 + (0 - (512 * blocks + 8 * ptr + n)) % 512 == 7 - n + 8 * NumZeros(ptr, n)
  {
    var part := 8 * ptr + n;
    if part == 0 {
      ModUnique(0 - 512 * blocks, 512, 0 - blocks, 0);
    } else {
      ModUnique(0 - (512 * blocks + part), 512, 0 - blocks - 1, 512 - part);
    }
  }

  lemma TailPads(m: seq<Byte>, before: seq<seq<Byte>>, rest: seq<Byte>, ub: Byte, n: nat, count: nat)
    requires n < 8 && Whole(before, 64) && |rest| < 64 && m == Concat(before) + rest && count == |before| % COUNT_RANGE
    ensures BitsOf(m + Tail(ub, n, NumZeros(|rest|, n), High(count), Low(count, |rest|, n))) == Pad(BitsOf(m) + ub[..n])
  {
    hide BitsOf, Tail, BigEndian, Zeros, Concat, Low, High, NumZeros, Whole;
    var numz, l1, l0 := NumZeros(|rest|, n), High(count), Low(count, |rest|, n);
    var bits := BitsOf(m) + ub[..n];
    ConcatLength(before, 64);
    assert |bits| == 512 * |before| + 8 * |rest| + n;
    LengthWords(|before|, count, |rest|, n);
    ZeroCount(|before|, |rest|, n);
    BitsAppend(m, Tail(ub, n, numz, l1, l0));
    TailBits(ub, n, numz, l1, l0);
    Regroup(BitsOf(m), ub[..n], [true], Zeros(7 - n + 8 * numz), BigEndian(l1 * COUNT_RANGE + l0, 128));
  }

  lemma Regroup(m: seq<bool>, u: seq<bool>, one: seq<bool>, z: seq<bool>, l: seq<bool>)
    ensures m + (u + one + z + l) == m + u + one + z + l
  {
  }

  // The closing bytes leave nothing in the buffer.
  lemma ClosedWhole(before: seq<seq<Byte>>, after: seq<seq<Byte>>, m: seq<Byte>, tail: seq<Byte>,
                    ptr: nat, n: nat, rest: seq<Byte>)
    requires Whole(before, 64) && Whole(after, 64) && |rest| < 64 && ptr < 64
    requires |m| == |Concat(before)| + ptr && |tail| == NumZeros(ptr, n) + 17 && m + tail == Concat(after) + rest
    ensures rest == [] && Concat(after) == m + tail
  {
    hide Concat;
    ConcatLength(before, 64);
    ConcatLength(after, 64);
  }

  lemma {:induction false} RunSnoc(f: Compression, iv: State, blocks: seq<seq<Byte>>, b: seq<Byte>)
    ensures Run(f, iv, BitBlocks(blocks + [b])) == f(Run(f, iv, BitBlocks(blocks)), BitsOf(b))
  {
    hide BitsOf;
    assert BitBlocks(blocks + [b])[..|blocks|] == BitBlocks(blocks);
  }

  /** A hash context for digests of so many 32-bit words. */
  class Context {
    const words: nat
    const f: Compression
    const iv: State
    const buf: array<Byte>
    var ptr: nat
    var h: State
    var blockCount: nat
    ghost var blocks: seq<seq<Byte>>
    ghost var message: seq<Byte>

    predicate Shape() { buf.Length == BLOCK_BYTES && words <= 16 }

    ghost predicate Valid()
      reads this, buf
    {
      && Shape() && ptr < BLOCK_BYTES
      && Whole(blocks, 64)
      && message == Concat(blocks) + buf[..ptr]
      && Worked()
    }

    // The state and the count stand for the blocks so far.
    ghost predicate Worked()
      reads this`h, this`blockCount, this`blocks
    {
      h == Run(f, iv, BitBlocks(blocks)) && blockCount == |blocks| % COUNT_RANGE
    }

    constructor (words: nat, f: Compression, iv: State)
      requires words <= 16
      ensures Valid() && message == [] && fresh(buf)
      ensures this.words == words && this.f == f && this.iv == iv
    {
      this.words := words;
      this.f := f;
      this.iv := iv;
      buf := new Byte[BLOCK_BYTES](_ => seq(8, _ => false));
      ptr, h, blockCount, blocks, message := 0, iv, 0, [], [];
    }

    method Init()
      requires Shape()
      modifies this
      ensures Valid() && message == []
    {
      ptr, h, blockCount := 0, iv, 0;
      blocks, message := [], [];
    }

    method CopyIn(at: nat, data: seq<Byte>)
      requires Shape() && at + |data| <= BLOCK_BYTES
      modifies buf
      ensures buf[..at + |data|] == old(buf[..at]) + data
    {
      forall i | 0 <= i < |data| { buf[at + i] := data[i]; }
    }

    method Compress()
      requires Shape() && Worked()
      modifies this`h, this`blockCount, this`blocks
      ensures Worked() && blocks == old(blocks) + [buf[..]]
    {
      hide BitsOf, BitBlocks, Run;
      RunSnoc(f, iv, blocks, buf[..]);
      h := f(h, BitsOf(buf[..]));
      SuccessorMod(|blocks|, COUNT_RANGE);
      blockCount := (blockCount + 1) % COUNT_RANGE;
      blocks := blocks + [buf[..]];
    }

    method Update(data: seq<Byte>)
      requires Valid()
      modifies this, buf
      ensures Valid() && message == old(message) + data
    {
      hide Worked, Concat, Whole;
      if |data| < BLOCK_BYTES - ptr {
        CopyIn(ptr, data);
        ptr := ptr + |data|;
        message := message + data;
        return;
      }
      var p: nat, rest := ptr, data;
      while |rest| > 0
        invariant Shape() && p < BLOCK_BYTES && Whole(blocks, 64) && Worked()
        invariant message == old(message)
        invariant message + data == Concat(blocks) + buf[..p] + rest
      {
        var clen := if BLOCK_BYTES - p > |rest| then |rest| else BLOCK_BYTES - p;
        ghost var before := buf[..p];
        CopyIn(p, rest[..clen]);
        assert before + rest == buf[..p + clen] + rest[clen..];
        Resplit(Concat(blocks), before, rest, buf[..p + clen], rest[clen..]);
        p := p + clen;
        rest := rest[clen..];
        if p == BLOCK_BYTES {
          assert buf[..p] == buf[..] && buf[..0] == [];
          Completed(Concat(blocks), buf[..], rest);
          ConcatSnoc(blocks, buf[..]);
          WholeSnoc(blocks, buf[..], 64);
          Compress();
          p := 0;
        }
      }
      ptr := p;
      message := message + data;
    }

    method Close(ub: Byte, n: nat) returns (dst: seq<Byte>)
      requires Valid() && n < 8
      modifies this, buf
      ensures dst == Digest(f, iv, words, BitsOf(old(message)) + ub[..n])
      ensures var last := Run(f, iv, Cut(Pad(BitsOf(old(message)) + ub[..n]), 512));
              |dst| == 4 * words && forall i :: 0 <= i < |dst| ==> dst[i] == last[128 - 4 * words + i]
      ensures Valid() && message == []
    {
      hide Concat, BitsOf, BitBlocks, Run, Pad, Cut, Low, High, Encode;
      ghost var m, before, p := message, blocks, ptr;
      TailPads(m, before, buf[..ptr], ub, n, blockCount);
      var numz := if ptr == 0 && n == 0 then 47 else 111 - ptr;
      var l0 := Low(blockCount, ptr, n);
      var l1 := High(blockCount);
      var tail := [PadByte(ub, n)] + ZeroBytes(numz) + (Encode(l1, 8) + Encode(l0, 8));
      Update(tail);
      ClosedWhole(before, blocks, m, tail, p, n, buf[..ptr]);
      CutBits(blocks, 64);
      dst := h[STATE_BYTES - 4 * words..];
      Init();
    }
  }
}
