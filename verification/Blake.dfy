/** The BLAKE hash contexts, for both word sizes: buffering, the block counter and the padding. */
module Blake {
  import opened Arith
  import opened Blocks
  import opened Bytes
  import opened BlakeSpec

  // ----- the counter words

  // The counter as update advances it before it compresses a block.
  function Next(k: nat, t0: nat, t1: nat): (nat, nat)
    requires IsWord(k)
  {
    var lo := (t0 + 128 * k) % Modulus(k);
    (lo, if lo < 128 * k then (t1 + 1) % Modulus(k) else t1)
  }

  function Low(k: nat, c: nat): nat { c % Modulus(k) }

  function High(k: nat, c: nat): nat { c / Modulus(k) % Modulus(k) }

  lemma BlocksPerModulus(k: nat) returns (r: nat)
    requires IsWord(k)
    ensures r > 1 && Modulus(k) == 128 * k * r
  {
    r := if k == 4 then 0x80_0000 else 0x40_0000_0000_0000;
  }

  lemma NextAdds(k: nat, c: nat)
    requires IsWord(k)
    ensures Next(k, Low(k, c), High(k, c)) == (Low(k, c + 128 * k), High(k, c + 128 * k))
  {
    var r := BlocksPerModulus(k);
    Advance(Modulus(k), c, 128 * k, r);
    hide Modulus;
  }

  // Adding less than the modulus to a two-word number: the carry shows in the low word.
  lemma Advance(m: nat, c: nat, d: nat, r: nat)
    requires r > 1 && d > 0 && m == d * r
    ensures var lo := (c % m + d) % m;
            && lo == (c + d) % m
            && (if lo < d then (c / m % m + 1) % m else c / m % m) == (c + d) / m % m
  {
    var a, lo := c / m, c % m;
    assert c == a * m + lo;
    assert d < m;
    if lo + d < m {
      ModUnique(c + d, m, a, lo + d);
      ModUnique(lo + d, m, 0, lo + d);
    } else {
      assert (a + 1) * m == a * m + m;
      ModUnique(c + d, m, a + 1, lo + d - m);
      ModUnique(lo + d, m, 1, lo + d - m);
      SuccessorMod(a, m);
    }
  }

  // What close leaves in the counter for the next compression to advance; part is the number of
  // message bits in the last block.
  function Biased(k: nat, t0: nat, t1: nat, part: nat): (nat, nat)
    requires IsWord(k) && part < 128 * k
  {
    var m := Modulus(k);
    if part == 0 then (m - 128 * k, m - 1)
    else if t0 == 0 then (m - 128 * k + part, (t1 + m - 1) % m)
    else ((t0 + m - (128 * k - part)) % m, t1)
  }

  // The low word counts whole blocks until it wraps around.
  lemma LowIsWhole(m: nat, d: nat, r: nat, n: nat) returns (j: nat)
    requires r > 1 && d > 0 && m == d * r
    ensures (d * n) % m == d * j && j < r
  {
    var c := d * n;
    var a := c / m;
    assert c == a * m + c % m;
    var i := n - a * r;
    assert c % m == d * i;
    Between(d, i, r);
    j := i;
  }

  lemma Between(d: nat, i: int, r: nat)
    requires d > 0 && 0 <= d * i < d * r
    ensures 0 <= i < r
  {
    if i < 0 {
      AtLeastOnce(0, i, d);
    } else if i > r {
      AtLeastOnce(i, r, d);
    }
  }

  lemma Multiples(d: nat, j: nat, r: nat)
    requires 0 < j < r
    ensures d <= d * j && d * j + d <= d * r
  {
    AtLeastOnce(j, 0, d);
    AtLeastOnce(r, j, d);
  }

  // Advancing undoes the bias: the counter is then the length of the message, or zero.
  lemma BiasUndone(k: nat, n: nat, part: nat)
    requires IsWord(k) && part < 128 * k
    ensures var c := 128 * k * n;
            var b := Biased(k, Low(k, c), High(k, c), part);
            Next(k, b.0, b.1) == if part == 0 then (0, 0) else (Low(k, c + part), High(k, c + part))
  {
    var r := BlocksPerModulus(k);
    var j := LowIsWhole(Modulus(k), 128 * k, r, n);
    var m, d, c := Modulus(k), 128 * k, 128 * k * n;
    hide Modulus;
    assert d < m;
    if part == 0 {
      ModUnique(m, m, 1, 0);
    } else {
      var a := c / m;
      assert c == a * m + c % m;
      if j == 0 {
        ModUnique(c + part, m, a, part);
        ModUnique(m + part, m, 1, part);
        PredecessorMod(a % m, m);
      } else {
        Multiples(d, j, r);
        ModUnique(c + part, m, a, d * j + part);
        ModUnique(d * j + m - (d - part), m, 1, d * j - (d - part));
        ModUnique(d * j + part, m, 0, d * j + part);
      }
    }
  }

  lemma PredecessorMod(t: nat, m: nat)
    requires t < m
    ensures ((t + m - 1) % m + 1) % m == t
  {
    if t == 0 {
      ModUnique(m - 1, m, 0, m - 1);
      ModUnique(m, m, 1, 0);
    } else {
      ModUnique(t + m - 1, m, 1, t - 1);
      ModUnique(t, m, 0, t);
    }
  }

  // The two length words hold the length modulo their range.
  lemma LengthWords(k: nat, n: nat, part: nat)
    requires IsWord(k) && part < 128 * k
    ensures var c := 128 * k * n;
            && Low(k, c) + part < Modulus(k)
            && High(k, c) * Modulus(k) + (Low(k, c) + part) == (c + part) % (Modulus(k) * Modulus(k))
  {
    var r := BlocksPerModulus(k);
    var j := LowIsWhole(Modulus(k), 128 * k, r, n);
    var m, d, c := Modulus(k), 128 * k, 128 * k * n;
    hide Modulus;
    if j > 0 { Multiples(d, j, r); }
    TwoDigits(m, c, part);
  }

  lemma TwoDigits(m: nat, c: nat, part: nat)
    requires m > 0 && c % m + part < m
    ensures (c / m % m) * m + (c % m + part) == (c + part) % (m * m)
  {
    var a := c / m;
    assert c == a * m + c % m && a == a / m * m + a % m;
    TwoDigitsOf(m, a / m, a % m, c % m + part);
  }

  lemma TwoDigitsOf(m: nat, q: nat, hi: nat, lo: nat)
    requires hi < m && lo < m
    ensures hi * m + lo == ((q * m + hi) * m + lo) % (m * m)
  {
    Expand(q, m, hi, lo);
    BelowSquare(hi, lo, m);
    ModUnique((q * m + hi) * m + lo, m * m, q, hi * m + lo);
  }

  lemma Expand(q: nat, m: nat, hi: nat, lo: nat)
    ensures (q * m + hi) * m + lo == q * (m * m) + (hi * m + lo)
  {
  }

  lemma BelowSquare(hi: nat, lo: nat, m: nat)
    requires hi < m && lo < m
    ensures hi * m + lo < m * m
  {
    AtLeastOnce(m, hi, m);
  }

  lemma ModulusIsPow2(k: nat)
    requires IsWord(k)
    ensures Pow2(8 * k) == Modulus(k)
  {
    Times256(1);
    hide Pow2;
    Pow2Add(8, 8);
    Pow2Add(16, 16);
    Pow2Add(32, 32);
  }

  // ----- what update does to a stream

  // The compressions made so far, the counter, and the bytes waiting in the buffer.
  datatype Stream = Stream(log: seq<Call>, t0: nat, t1: nat, rest: seq<Byte>)

  // Feeding on: with m the waiting bytes and the new ones.
  function Flow(k: nat, log: seq<Call>, t0: nat, t1: nat, m: seq<Byte>): (s: Stream)
    requires IsWord(k)
    ensures |s.rest| < 16 * k
    decreases |m|
  {
    if |m| < 16 * k then Stream(log, t0, t1, m)
    else
      var (n0, n1) := Next(k, t0, t1);
      Flow(k, log + [Call(BitsOf(m[..16 * k]), n0, n1)], n0, n1, m[16 * k..])
  }

  lemma FlowShort(k: nat, log: seq<Call>, t0: nat, t1: nat, m: seq<Byte>)
    requires IsWord(k) && |m| < 16 * k
    ensures Flow(k, log, t0, t1, m) == Stream(log, t0, t1, m)
  {
  }

  lemma FlowStep(k: nat, log: seq<Call>, t0: nat, t1: nat, b: seq<Byte>, rest: seq<Byte>)
    requires IsWord(k) && |b| == 16 * k
    ensures var (n0, n1) := Next(k, t0, t1);
            Flow(k, log, t0, t1, b + rest) == Flow(k, log + [Call(BitsOf(b), n0, n1)], n0, n1, rest)
  {
    hide Next, BitsOf;
    assert (b + rest)[..16 * k] == b && (b + rest)[16 * k..] == rest;
  }

  // Two updates feed what one update with all the data feeds.
  lemma {:induction false} FlowSplit(k: nat, log: seq<Call>, t0: nat, t1: nat, m: seq<Byte>, data: seq<Byte>)
    requires IsWord(k)
    ensures var s := Flow(k, log, t0, t1, m);
            Flow(k, s.log, s.t0, s.t1, s.rest + data) == Flow(k, log, t0, t1, m + data)
    decreases |m|
  {
    hide Next, BitsOf;
    if |m| >= 16 * k {
      var (n0, n1) := Next(k, t0, t1);
      FlowSplit(k, log + [Call(BitsOf(m[..16 * k]), n0, n1)], n0, n1, m[16 * k..], data);
      assert (m + data)[..16 * k] == m[..16 * k] && (m + data)[16 * k..] == m[16 * k..] + data;
    }
  }

  // The stream of a message from its start.
  function Fed(k: nat, m: seq<Byte>): Stream
    requires IsWord(k)
  {
    Flow(k, [], 0, 0, m)
  }

  // Full message blocks, each with the count of the bits up to its end.
  function WholeCalls(k: nat, blocks: seq<seq<Byte>>): seq<Call> {
    seq(|blocks|, i requires 0 <= i < |blocks| => CallFor(k, BitsOf(blocks[i]), WholeBits(k, i + 1)))
  }

  lemma {:induction false} FlowOfBlocks(k: nat, done: seq<seq<Byte>>, m: seq<Byte>)
    requires IsWord(k)
    ensures var c := 128 * k * |done|;
            var s := Flow(k, WholeCalls(k, done), Low(k, c), High(k, c), m);
            var blocks := done + Cut(m, 16 * k);
            && s.log == WholeCalls(k, blocks)
            && s.t0 == Low(k, 128 * k * |blocks|) && s.t1 == High(k, 128 * k * |blocks|)
            && Concat(done) + m == Concat(blocks) + s.rest
    decreases |m|
  {
    hide Next, BitsOf, Low, High, Concat, Modulus;
    var c := 128 * k * |done|;
    if |m| < 16 * k {
      assert done + [] == done;
    } else {
      var b := m[..16 * k];
      var (n0, n1) := Next(k, Low(k, c), High(k, c));
      NextAdds(k, c);
      OneMoreBlock(k, |done|);
      assert WholeCalls(k, done + [b]) == WholeCalls(k, done) + [Call(BitsOf(b), n0, n1)] by {
        CallForWords(k, BitsOf(b), 128 * k * (|done| + 1));
      }
      FlowOfBlocks(k, done + [b], m[16 * k..]);
      ConcatSnoc(done, b);
      assert b + m[16 * k..] == m;
      assert done + [b] + Cut(m[16 * k..], 16 * k) == done + Cut(m, 16 * k);
    }
  }

  lemma CallForWords(k: nat, b: seq<bool>, c: nat)
    ensures CallFor(k, b, c) == Call(b, Low(k, c), High(k, c))
  {
  }

  lemma OneMoreBlock(k: nat, n: nat)
    ensures 128 * k * n + 128 * k == 128 * k * (n + 1)
  {
  }

  lemma FedIs(k: nat, m: seq<Byte>) returns (blocks: seq<seq<Byte>>)
    requires IsWord(k)
    ensures Whole(blocks, 16 * k) && Concat(blocks) + Fed(k, m).rest == m
    ensures Fed(k, m).log == WholeCalls(k, blocks)
    ensures Fed(k, m).t0 == Low(k, WholeBits(k, |blocks|)) && Fed(k, m).t1 == High(k, WholeBits(k, |blocks|))
  {
    blocks := Cut(m, 16 * k);
    FlowOfBlocks(k, [], m);
    assert [] + blocks == blocks;
    assert WholeCalls(k, []) == [];
  }

  // ----- what close appends

  // The end of the message bits, zero bytes, and the last bit before the length.
  function Ending(ub: Byte, n: nat, zeros: nat, long: bool): (b: seq<Byte>)
    requires n < 8
    ensures |b| == zeros + 1
  {
    var b := [PadByte(ub, n)] + ZeroBytes(zeros);
    b[zeros := b[zeros][7 := long]]
  }

  lemma EndingBits(ub: Byte, n: nat, zeros: nat, long: bool)
    requires n < 7 || (n == 7 && zeros > 0)
    ensures BitsOf(Ending(ub, n, zeros, long)) == ub[..n] + [true] + Zeros(8 * zeros + 6 - n) + [long]
  {
    var p := PadByte(ub, n);
    if zeros == 0 {
      OneByte(p[7 := long]);
      assert Ending(ub, n, zeros, long) == [p[7 := long]];
    } else {
      var last := Zeros(7) + [long];
      var z := ([p] + ZeroBytes(zeros))[zeros];
      assert z == ZeroBytes(zeros)[zeros - 1];
      assert z[7 := long] == last;
      assert Ending(ub, n, zeros, long) == [p] + ZeroBytes(zeros - 1) + [last];
      BitsAppend([p] + ZeroBytes(zeros - 1), [last]);
      BitsAppend([p], ZeroBytes(zeros - 1));
      OneByte(p);
      OneByte(last);
      ZeroBytesBits(zeros - 1);
      assert Zeros(7 - n) + Zeros(8 * zeros - 8) + Zeros(7) == Zeros(8 * zeros + 6 - n);
    }
  }

  function LengthBytes(k: nat, th: nat, tl: nat): (b: seq<Byte>)
    ensures |b| == 2 * k
  {
    Encode(th, k) + Encode(tl, k)
  }

  // The message, its ending and its length make up the padded message.
  lemma EndingPads(k: nat, m: seq<Byte>, ub: Byte, n: nat, zeros: nat, long: bool, th: nat, tl: nat, count: nat)
    requires IsWord(k) && (n < 7 || (n == 7 && zeros > 0)) && 8 * zeros + 6 - n < 128 * k
    requires |m| + zeros + 1 + 2 * k == count * (16 * k)
    requires tl < Modulus(k) && th * Modulus(k) + tl == (8 * |m| + n) % (Modulus(k) * Modulus(k))
    ensures BitsOf(m + Ending(ub, n, zeros, long) + LengthBytes(k, th, tl)) == Pad(BitsOf(m) + ub[..n], k, long)
  {
    hide BitsOf, Ending, Encode, BigEndian, Modulus, Zeros, Pow2;
    var e := Ending(ub, n, zeros, long);
    var bits := BitsOf(m) + ub[..n];
    var q := 8 * zeros + 6 - n;
    BitsAppend(m + e, LengthBytes(k, th, tl));
    BitsAppend(m, e);
    EndingBits(ub, n, zeros, long);
    ModulusIsPow2(k);
    EncodeTwo(th, tl, k);
    ZeroCount(k, |bits|, q, count);
    assert BitsOf(m) + (ub[..n] + [true] + Zeros(q) + [long]) == bits + [true] + Zeros(q) + [long];
  }

  lemma ZeroCount(k: nat, bits: nat, q: nat, count: nat)
    requires IsWord(k) && q < 128 * k && bits + 2 + q + 16 * k == 8 * (count * (16 * k))
    ensures (0 - bits - 2 - 16 * k) % (128 * k) == q
  {
    assert 0 - bits - 2 - 16 * k == (0 - count) * (128 * k) + q;
    ModUnique(0 - bits - 2 - 16 * k, 128 * k, 0 - count, q);
  }

  // ----- the compressions of a closed message

  lemma CallsOf(k: nat, bits: seq<bool>, long: bool, all: seq<seq<Byte>>)
    requires IsWord(k) && Whole(all, 16 * k) && Pad(bits, k, long) == BitsOf(Concat(all))
    ensures Calls(bits, k, long) == CallsOver(BitBlocks(all), k, |bits|)
  {
    hide Pad, BitsOf, Concat, CallsOver, Cut, BitBlocks;
    CutBits(all, 16 * k);
  }

  // The bits of n whole blocks.
  function WholeBits(k: nat, n: nat): nat { 128 * k * n }

  lemma CounterAt(k: nat, n: nat, part: nat, i: nat)
    requires k > 0 && part < 128 * k
    ensures i < n ==> Counter(k, WholeBits(k, n) + part, i) == WholeBits(k, i + 1)
    ensures i == n ==> Counter(k, WholeBits(k, n) + part, i) == EndCount(k, n, part)
    ensures i > n ==> Counter(k, WholeBits(k, n) + part, i) == 0
  {
    var d := 128 * k;
    OneMoreBlock(k, i);
    OneMoreBlock(k, n);
    if i < n {
      Spread(d, i + 1, n);
    } else if i > n {
      Spread(d, n + 1, i);
    }
  }

  lemma Spread(d: nat, i: nat, n: nat)
    requires i <= n
    ensures d * i <= d * n
  {
    if i < n { AtLeastOnce(n, i, d); }
  }

  // The counter of the block in which the message ends.
  function EndCount(k: nat, n: nat, part: nat): nat {
    if part == 0 then 0 else WholeBits(k, n) + part
  }

  lemma EndingInOne(k: nat, blocks: seq<seq<Byte>>, part: nat, b: seq<Byte>)
    requires IsWord(k) && part < 128 * k
    ensures CallsOver(BitBlocks(blocks + [b]), k, WholeBits(k, |blocks|) + part) ==
            WholeCalls(k, blocks) + [CallFor(k, BitsOf(b), EndCount(k, |blocks|, part))]
  {
    hide CallFor, BitsOf, Counter, WholeBits, EndCount;
    var calls := WholeCalls(k, blocks) + [CallFor(k, BitsOf(b), EndCount(k, |blocks|, part))];
    var all := BitBlocks(blocks + [b]);
    forall i: nat | i < |all|
      ensures CallsOver(all, k, WholeBits(k, |blocks|) + part)[i] == calls[i]
    {
      CounterAt(k, |blocks|, part, i);
    }
  }

  lemma EndingInTwo(k: nat, blocks: seq<seq<Byte>>, part: nat, b: seq<Byte>, c: seq<Byte>)
    requires IsWord(k) && part < 128 * k
    ensures CallsOver(BitBlocks(blocks + [b, c]), k, WholeBits(k, |blocks|) + part) ==
            WholeCalls(k, blocks) + [CallFor(k, BitsOf(b), EndCount(k, |blocks|, part)), CallFor(k, BitsOf(c), 0)]
  {
    hide CallFor, BitsOf, Counter, WholeBits, EndCount;
    var calls := WholeCalls(k, blocks) + [CallFor(k, BitsOf(b), EndCount(k, |blocks|, part)), CallFor(k, BitsOf(c), 0)];
    var all := BitBlocks(blocks + [b, c]);
    forall i: nat | i < |all|
      ensures CallsOver(all, k, WholeBits(k, |blocks|) + part)[i] == calls[i]
    {
      CounterAt(k, |blocks|, part, i);
    }
  }

  // How the lengths add up when the message has these whole blocks and this rest.
  lemma Lengths(k: nat, m: seq<Byte>, blocks: seq<seq<Byte>>, rest: seq<Byte>)
    requires Whole(blocks, 16 * k) && Concat(blocks) + rest == m
    ensures |m| == |blocks| * (16 * k) + |rest| && 8 * |m| == WholeBits(k, |blocks|) + 8 * |rest|
  {
    hide Concat;
    ConcatLength(blocks, 16 * k);
    EightTimes(k, |blocks|);
  }

  lemma EightTimes(k: nat, n: nat)
    ensures WholeBits(k, n) == 8 * (n * (16 * k))
  {
    assert 128 * k * n == 8 * (n * (16 * k));
  }

  lemma WholeLengthWords(k: nat, n: nat, part: nat)
    requires IsWord(k) && part < 128 * k
    ensures var c := WholeBits(k, n);
            && Low(k, c) + part < Modulus(k)
            && High(k, c) * Modulus(k) + (Low(k, c) + part) == (c + part) % (Modulus(k) * Modulus(k))
  {
    LengthWords(k, n, part);
  }

  lemma PaddedMessage(k: nat, m: seq<Byte>, ub: Byte, n: nat, long: bool, blocks: seq<seq<Byte>>,
                      rest: seq<Byte>, zeros: nat, extra: nat)
    requires IsWord(k) && n < 8 && Whole(blocks, 16 * k) && Concat(blocks) + rest == m && |rest| < 16 * k
    requires (n < 7 || zeros > 0) && 8 * zeros + 6 - n < 128 * k
    requires |rest| + zeros + 1 + 2 * k == extra * (16 * k)
    ensures var c := WholeBits(k, |blocks|);
            BitsOf(m + Ending(ub, n, zeros, long) + LengthBytes(k, High(k, c), Low(k, c) + 8 * |rest| + n)) ==
            Pad(BitsOf(m) + ub[..n], k, long)
  {
    hide Concat, Ending, LengthBytes, Pad, BitsOf, Low, High, Modulus, WholeBits, Whole;
    var c := WholeBits(k, |blocks|);
    Lengths(k, m, blocks, rest);
    WholeLengthWords(k, |blocks|, 8 * |rest| + n);
    MoreBlocks(|blocks|, extra, 16 * k);
    EndingPads(k, m, ub, n, zeros, long, High(k, c), Low(k, c) + 8 * |rest| + n, |blocks| + extra);
  }

  lemma MoreBlocks(a: nat, b: nat, size: nat)
    ensures a * size + b * size == (a + b) * size
  {
  }

  // The message ends early enough for its length to fit in the same block.
  lemma ClosedInOne(k: nat, m: seq<Byte>, ub: Byte, n: nat, long: bool, blocks: seq<seq<Byte>>, rest: seq<Byte>)
    requires IsWord(k) && n < 8 && Whole(blocks, 16 * k) && Concat(blocks) + rest == m && |rest| < 16 * k
    requires 8 * |rest| + n <= 112 * k - 2
    ensures var c := WholeBits(k, |blocks|);
            var b := rest + (Ending(ub, n, 14 * k - 1 - |rest|, long) +
                             LengthBytes(k, High(k, c), Low(k, c) + 8 * |rest| + n));
            && |b| == 16 * k
            && Calls(BitsOf(m) + ub[..n], k, long) ==
               WholeCalls(k, blocks) + [CallFor(k, BitsOf(b), EndCount(k, |blocks|, 8 * |rest| + n))]
  {
    hide Concat, Ending, LengthBytes, Pad, BitsOf, Low, High, WholeBits, Calls, CallsOver, CallFor, EndCount;
    var c, zeros := WholeBits(k, |blocks|), 14 * k - 1 - |rest|;
    var e, l := Ending(ub, n, zeros, long), LengthBytes(k, High(k, c), Low(k, c) + 8 * |rest| + n);
    var b := rest + (e + l);
    PaddedMessage(k, m, ub, n, long, blocks, rest, zeros, 1);
    ConcatSnoc(blocks, b);
    assert Concat(blocks) + b == m + e + l;
    CallsOf(k, BitsOf(m) + ub[..n], long, blocks + [b]);
    Lengths(k, m, blocks, rest);
    EndingInOne(k, blocks, 8 * |rest| + n, b);
  }

  // The length needs a block of its own.
  lemma ClosedInTwo(k: nat, m: seq<Byte>, ub: Byte, n: nat, long: bool, blocks: seq<seq<Byte>>, rest: seq<Byte>)
    requires IsWord(k) && n < 8 && Whole(blocks, 16 * k) && Concat(blocks) + rest == m && |rest| < 16 * k
    requires 8 * |rest| + n > 112 * k - 2
    ensures var c := WholeBits(k, |blocks|);
            var e := Ending(ub, n, 30 * k - 1 - |rest|, long);
            var b1 := rest + e[..16 * k - |rest|];
            var b2 := e[16 * k - |rest|..] + LengthBytes(k, High(k, c), Low(k, c) + 8 * |rest| + n);
            && |b1| == |b2| == 16 * k
            && Calls(BitsOf(m) + ub[..n], k, long) ==
               WholeCalls(k, blocks) + [CallFor(k, BitsOf(b1), EndCount(k, |blocks|, 8 * |rest| + n)),
                                        CallFor(k, BitsOf(b2), 0)]
  {
    hide Concat, Ending, LengthBytes, Pad, BitsOf, Low, High, WholeBits, Calls, CallsOver, CallFor, EndCount;
    var c, zeros := WholeBits(k, |blocks|), 30 * k - 1 - |rest|;
    var e, l := Ending(ub, n, zeros, long), LengthBytes(k, High(k, c), Low(k, c) + 8 * |rest| + n);
    var b1, b2 := rest + e[..16 * k - |rest|], e[16 * k - |rest|..] + l;
    PaddedMessage(k, m, ub, n, long, blocks, rest, zeros, 2);
    ConcatSnoc(blocks, b1);
    ConcatSnoc(blocks + [b1], b2);
    assert blocks + [b1] + [b2] == blocks + [b1, b2];
    assert Concat(blocks) + b1 + b2 == m + e + l;
    CallsOf(k, BitsOf(m) + ub[..n], long, blocks + [b1, b2]);
    Lengths(k, m, blocks, rest);
    EndingInTwo(k, blocks, 8 * |rest| + n, b1, b2);
  }

  // ----- the context

  class Context {
    const k: nat
    const words: nat
    const compress: Compression
    const iv: Chain
    const buf: array<Byte>
    var ptr: nat
    var h: Chain
    var t0: nat
    var t1: nat
    ghost var log: seq<Call>
    ghost var message: seq<Byte>

    predicate Shape() {
      IsWord(k) && buf.Length == 16 * k && (words == 8 || (words == 7 && k == 4) || (words == 6 && k == 8))
    }

    // The chain value is what the compressions so far make of the initial value.
    ghost predicate Chained()
      reads this`h, this`log
    {
      h == Run(compress, iv, log)
    }

    ghost function Now(): Stream
      requires Shape() && ptr < 16 * k
      reads this, buf
    {
      Stream(log, t0, t1, buf[..ptr])
    }

    ghost predicate Valid()
      reads this, buf
    {
      Shape() && ptr < 16 * k && Chained() && Now() == Fed(k, message)
    }

    constructor (k: nat, words: nat, compress: Compression, iv: Chain)
      requires IsWord(k) && (words == 8 || (words == 7 && k == 4) || (words == 6 && k == 8))
      ensures Valid() && message == [] && fresh(buf)
      ensures this.k == k && this.words == words && this.compress == compress && this.iv == iv
    {
      this.k := k;
      this.words := words;
      this.compress := compress;
      this.iv := iv;
      buf := new Byte[16 * k](_ => seq(8, _ => false));
      ptr, h, t0, t1, log, message := 0, iv, 0, 0, [], [];
    }

    method Init()
      requires Shape()
      modifies this
      ensures Valid() && message == []
    {
      h := iv;
      t0, t1, ptr := 0, 0, 0;
      log, message := [], [];
    }

    method CopyIn(at: nat, data: seq<Byte>)
      requires Shape() && at + |data| <= 16 * k
      modifies buf
      ensures buf[..at + |data|] == old(buf[..at]) + data
    {
      forall i | 0 <= i < |data| { buf[at + i] := data[i]; }
    }

    method Compress()
      requires Shape() && Chained()
      modifies this`h, this`t0, this`t1, this`log
      ensures Chained() && (t0, t1) == Next(k, old(t0), old(t1))
      ensures log == old(log) + [Call(BitsOf(buf[..]), t0, t1)]
    {
      hide BitsOf;
      t0 := (t0 + 128 * k) % Modulus(k);
      if t0 < 128 * k {
        t1 := (t1 + 1) % Modulus(k);
      }
      h := compress(h, BitsOf(buf[..]), t0, t1);
      log := log + [Call(BitsOf(buf[..]), t0, t1)];
      assert log[..|log| - 1] == old(log);
    }

    method Core(data: seq<Byte>)
      requires Shape() && ptr < 16 * k && Chained()
      modifies this, buf
      ensures Shape() && ptr < 16 * k && Chained() && message == old(message)
      ensures Now() == Flow(k, old(log), old(t0), old(t1), old(buf[..ptr]) + data)
    {
      hide BitsOf, Next, Flow, Chained;
      var size := 16 * k;
      if |data| < size - ptr {
        CopyIn(ptr, data);
        ptr := ptr + |data|;
        FlowShort(k, log, t0, t1, buf[..ptr]);
        return;
      }
      var p: nat, rest := ptr, data;
      while |rest| > 0
        invariant Shape() && p < size && Chained() && message == old(message)
        invariant Flow(k, log, t0, t1, buf[..p] + rest) == Flow(k, old(log), old(t0), old(t1), old(buf[..ptr]) + data)
      {
        var clen := if size - p > |rest| then |rest| else size - p;
        ghost var before := buf[..p] + rest;
        CopyIn(p, rest[..clen]);
        assert before == buf[..p + clen] + rest[clen..];
        p := p + clen;
        rest := rest[clen..];
        if p == size {
          assert buf[..p] == buf[..];
          FlowStep(k, log, t0, t1, buf[..], rest);
          Compress();
          p := 0;
          assert buf[..p] + rest == rest;
        }
      }
      ptr := p;
      assert buf[..p] + rest == buf[..p];
      FlowShort(k, log, t0, t1, buf[..ptr]);
    }

    method Update(data: seq<Byte>)
      requires Valid()
      modifies this, buf
      ensures Valid() && message == old(message) + data
    {
      FlowSplit(k, [], 0, 0, message, data);
      Core(data);
      message := message + data;
    }

    method Bias(part: nat)
      requires Shape() && t0 < Modulus(k) && t1 < Modulus(k) && part < 128 * k
      modifies this`t0, this`t1
      ensures (t0, t1) == Biased(k, old(t0), old(t1), part)
    {
      if part == 0 {
        t0 := Modulus(k) - 128 * k;
        t1 := Modulus(k) - 1;
      } else if t0 == 0 {
        t0 := Modulus(k) - 128 * k + part;
        t1 := (t1 + Modulus(k) - 1) % Modulus(k);
      } else {
        t0 := (t0 + Modulus(k) - (128 * k - part)) % Modulus(k);
      }
    }

    // Feeds bytes that fill up the buffer: one compression.
    method CoreOnce(data: seq<Byte>)
      requires Shape() && ptr < 16 * k && ptr + |data| == 16 * k && Chained()
      modifies this, buf
      ensures Shape() && ptr == 0 && Chained() && message == old(message)
      ensures (t0, t1) == Next(k, old(t0), old(t1))
      ensures log == old(log) + [Call(BitsOf(old(buf[..ptr]) + data), t0, t1)]
    {
      hide Chained, BitsOf, Next;
      ghost var b := buf[..ptr] + data;
      FlowStep(k, log, t0, t1, b, []);
      ghost var (n0, n1) := Next(k, t0, t1);
      FlowShort(k, log + [Call(BitsOf(b), n0, n1)], n0, n1, []);
      assert b + [] == b;
      Core(data);
    }

    method CloseInOne(ub: Byte, n: nat, th: nat, tl: nat)
      requires Shape() && ptr < 16 * k && Chained() && n < 8 && 8 * ptr + n <= 112 * k - 2
      modifies this, buf
      ensures Shape() && ptr == 0 && Chained() && message == old(message)
      ensures (t0, t1) == Next(k, old(t0), old(t1))
      ensures log == old(log) +
                     [Call(BitsOf(old(buf[..ptr]) +
                             (Ending(ub, n, 14 * k - 1 - old(ptr), words == 8) + LengthBytes(k, th, tl))),
                           t0, t1)]
    {
      hide Chained, BitsOf, Next;
      var zeros := 14 * k - 1 - ptr;
      var e := [PadByte(ub, n)] + ZeroBytes(zeros);
      if words == 8 {
        e := e[zeros := e[zeros][7 := true]];
      } else {
        assert e[zeros][7 := false] == e[zeros];
      }
      assert e == Ending(ub, n, zeros, words == 8);
      hide Ending;
      CoreOnce(e + LengthBytes(k, th, tl));
    }

    method CloseInTwo(ub: Byte, n: nat, th: nat, tl: nat)
      requires Shape() && ptr < 16 * k && Chained() && n < 8 && 8 * ptr + n > 112 * k - 2
      modifies this, buf
      ensures Shape() && ptr == 0 && Chained() && message == old(message)
      ensures var e := Ending(ub, n, 30 * k - 1 - old(ptr), words == 8);
              var (n0, n1) := Next(k, old(t0), old(t1));
              var (m0, m1) := Next(k, Modulus(k) - 128 * k, Modulus(k) - 1);
              log == old(log) + [Call(BitsOf(old(buf[..ptr]) + e[..16 * k - old(ptr)]), n0, n1),
                                 Call(BitsOf(e[16 * k - old(ptr)..] + LengthBytes(k, th, tl)), m0, m1)]
    {
      hide Chained, BitsOf, Next;
      ghost var e, at := Ending(ub, n, 30 * k - 1 - ptr, words == 8), 16 * k - ptr;
      ghost var log0 := log;
      var first := [PadByte(ub, n)] + ZeroBytes(16 * k - 1 - ptr);
      assert first == e[..at];
      CoreOnce(first);
      t0, t1 := Modulus(k) - 128 * k, Modulus(k) - 1;
      var second := ZeroBytes(14 * k);
      if words == 8 {
        second := second[14 * k - 1 := second[14 * k - 1][7 := true]];
      } else {
        assert second[14 * k - 1][7 := false] == second[14 * k - 1];
      }
      assert second == e[at..];
      hide Ending;
      assert buf[..ptr] + (second + LengthBytes(k, th, tl)) == second + LengthBytes(k, th, tl);
      CoreOnce(second + LengthBytes(k, th, tl));
    }

    method Finish() returns (dst: seq<Byte>)
      requires Shape()
      ensures dst == Output(h, k, words)
    {
      dst := [];
      for i := 0 to words
        invariant dst == Output(h, k, i)
      {
        dst := dst + Encode(h[i], k);
      }
    }

    // Feeds the padding; blocks are the whole blocks of the message.
    method Finalize(ub: Byte, n: nat, ghost blocks: seq<seq<Byte>>)
      requires Shape() && ptr < 16 * k && Chained() && n < 8
      requires Whole(blocks, 16 * k) && Concat(blocks) + buf[..ptr] == message && log == WholeCalls(k, blocks)
      requires t0 == Low(k, WholeBits(k, |blocks|)) && t1 == High(k, WholeBits(k, |blocks|))
      modifies this, buf
      ensures Shape() && Chained() && message == old(message)
      ensures log == Calls(BitsOf(message) + ub[..n], k, words == 8)
    {
      hide Chained, Concat, Whole, BitsOf, Next, Modulus, Low, High, Biased, CallFor, Calls;
      hide WholeCalls, EndCount, Ending, LengthBytes, WholeBits;
      ghost var rest := buf[..ptr];
      var part := 8 * ptr + n;
      WholeLengthWords(k, |blocks|, part);
      EndCall(k, |blocks|, part);
      EmptyCall(k);
      WordsBelow(k, WholeBits(k, |blocks|));
      NoWrap(t0 + part, Modulus(k));
      var tl, th := (t0 + part) % Modulus(k), t1;
      Bias(part);
      if part <= 112 * k - 2 {
        ClosedInOne(k, message, ub, n, words == 8, blocks, rest);
        CloseInOne(ub, n, th, tl);
      } else {
        ClosedInTwo(k, message, ub, n, words == 8, blocks, rest);
        CloseInTwo(ub, n, th, tl);
      }
    }

    method Close(ub: Byte, n: nat) returns (dst: seq<Byte>)
      requires Valid() && n < 8
      modifies this, buf
      ensures dst == Digest(compress, iv, k, words, BitsOf(old(message)) + ub[..n])
      ensures HoldsWords(dst, Run(compress, iv, Calls(BitsOf(old(message)) + ub[..n], k, words == 8)), k, words)
      ensures Valid() && message == []
    {
      hide Chained, Run, BitsOf, Low, High, Calls, WholeCalls, Fed, Concat, Output, Valid, WholeBits,
           HoldsWords;
      ValidFacts();
      ghost var blocks := FedIs(k, message);
      Finalize(ub, n, blocks);
      ChainedFacts();
      OutputHoldsWords(h, k, words);
      dst := Finish();
      Init();
    }

    lemma ValidFacts()
      requires Valid()
      ensures Shape() && ptr < 16 * k && Chained() && Now() == Fed(k, message)
    {
    }

    lemma ChainedFacts()
      requires Chained()
      ensures h == Run(compress, iv, log)
    {
    }
  }

  lemma NoWrap(x: nat, m: nat)
    requires x < m
    ensures x % m == x
  {
  }

  lemma WordsBelow(k: nat, c: nat)
    ensures Low(k, c) < Modulus(k) && High(k, c) < Modulus(k)
  {
  }

  // The compression of the block in which the message ends gets the counter it should.
  lemma EndCall(k: nat, n: nat, part: nat)
    requires IsWord(k) && part < 128 * k
    ensures var c := WholeBits(k, n);
            var b := Biased(k, Low(k, c), High(k, c), part);
            var (n0, n1) := Next(k, b.0, b.1);
            forall x :: CallFor(k, x, EndCount(k, n, part)) == Call(x, n0, n1)
  {
    hide Low, High, Next, Biased, Modulus;
    BiasUndone(k, n, part);
    NoCount(k);
    forall x { CallForWords(k, x, EndCount(k, n, part)); }
  }

  lemma NoCount(k: nat)
    ensures Low(k, 0) == 0 && High(k, 0) == 0
  {
  }

  lemma EmptyCall(k: nat)
    requires IsWord(k)
    ensures Modulus(k) > 128 * k
    ensures var (n0, n1) := Next(k, Modulus(k) - 128 * k, Modulus(k) - 1);
            forall x :: CallFor(k, x, 0) == Call(x, n0, n1)
  {
    EndCall(k, 0, 0);
  }
}
