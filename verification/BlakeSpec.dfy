/** How BLAKE hashes a bit string, as sections 2.1 and 2.2 of the BLAKE submission to the SHA-3
    competition define it. Words have k bytes: 4 for BLAKE-224 and BLAKE-256, 8 for BLAKE-384 and
    BLAKE-512. The compression of one block is left open. */
module BlakeSpec {
  import opened Arith
  import opened Blocks
  import opened Bytes

  predicate IsWord(k: nat) { k == 4 || k == 8 }

  function Modulus(k: nat): (m: nat)
    ensures m > 0
  {
    if k == 4 then 0x1_0000_0000 else 0x1_0000_0000_0000_0000
  }

  type Chain = s: seq<nat> | |s| == 8 witness seq(8, _ => 0)

  // One compression: the block and the two words of the counter.
  datatype Call = Call(block: seq<bool>, t0: nat, t1: nat)

  type Compression = (Chain, seq<bool>, nat, nat) -> Chain

  function Run(compress: Compression, iv: Chain, calls: seq<Call>): Chain
    decreases |calls|
  {
    if calls == [] then iv
    else
      var last := calls[|calls| - 1];
      compress(Run(compress, iv, calls[..|calls| - 1]), last.block, last.t0, last.t1)
  }

  lemma RunIs(compress: Compression, iv: Chain, calls: seq<Call>, call: Call)
    ensures Run(compress, iv, []) == iv
    ensures Run(compress, iv, calls + [call]) == compress(Run(compress, iv, calls), call.block, call.t0, call.t1)
  {
    assert (calls + [call])[..|calls|] == calls;
  }

  // The message, a one, zeros, the bit that tells the long digest, and the length of the message:
  // whole blocks of 16 words, with as few zeros as that takes.
  function Pad(m: seq<bool>, k: nat, long: bool): seq<bool>
    requires k > 0
  {
    m + [true] + Zeros((0 - |m| - 2 - 16 * k) % (128 * k)) + [long] + BigEndian(|m| % (Modulus(k) * Modulus(k)), 16 * k)
  }

  // What the counter is for block i: the message bits up to the end of the block, and nothing for a
  // block without message bits.
  function Counter(k: nat, bits: nat, i: nat): nat {
    if 128 * k * i >= bits then 0 else if 128 * k * (i + 1) <= bits then 128 * k * (i + 1) else bits
  }

  function CallFor(k: nat, block: seq<bool>, counter: nat): Call {
    Call(block, counter % Modulus(k), counter / Modulus(k) % Modulus(k))
  }

  function Calls(m: seq<bool>, k: nat, long: bool): seq<Call>
    requires k > 0
  {
    CallsOver(Cut(Pad(m, k, long), 128 * k), k, |m|)
  }

  function CallsOver(blocks: seq<seq<bool>>, k: nat, bits: nat): seq<Call> {
    seq(|blocks|, i requires 0 <= i < |blocks| => CallFor(k, blocks[i], Counter(k, bits, i)))
  }

  // The first words of the chain value, highest byte first.
  function Output(h: Chain, k: nat, words: nat): (out: seq<Byte>)
    requires words <= 8
    ensures |out| == words * k
  {
    if words == 0 then [] else Output(h, k, words - 1) + Encode(h[words - 1], k)
  }

  // The digest holds the words in their order.
  lemma {:induction false} OutputAt(h: Chain, k: nat, words: nat, i: nat, j: nat)
    requires i < words <= 8 && j < k
    ensures i * k + j < |Output(h, k, words)| && Output(h, k, words)[i * k + j] == Encode(h[i], k)[j]
  {
    hide Encode;
    PlaceBelow(i, j, k, words);
    if i < words - 1 {
      PlaceBelow(i, j, k, words - 1);
      OutputAt(h, k, words - 1, i, j);
    }
  }

  lemma PlaceBelow(i: nat, j: nat, k: nat, words: nat)
    requires i < words && j < k
    ensures i * k + j < words * k
  {
    AtLeastOnce(words, i, k);
  }

  // Byte j of word i of a digest is byte j of word i of the last chain value.
  ghost predicate HoldsWords(digest: seq<Byte>, h: Chain, k: nat, words: nat)
    requires words <= 8
  {
    && |digest| == words * k
    && forall i: nat, j: nat {:trigger Encode(h[i], k)[j]} :: i < words && j < k ==>
         i * k + j < |digest| && digest[i * k + j] == Encode(h[i], k)[j]
  }

  lemma OutputHoldsWords(h: Chain, k: nat, words: nat)
    requires words <= 8
    ensures HoldsWords(Output(h, k, words), h, k, words)
  {
    hide Output, Encode;
    forall i: nat, j: nat | i < words && j < k
      ensures i * k + j < |Output(h, k, words)| && Output(h, k, words)[i * k + j] == Encode(h[i], k)[j]
    {
      OutputAt(h, k, words, i, j);
    }
  }

  // ----- what padding and counters come to

  // Whole blocks; the message comes first and then a one; the last 16k bits are its length, the bit
  // before them tells the long digest, and between there are zeros, less than a block of them.
  lemma PadIs(m: seq<bool>, k: nat, long: bool)
    requires IsWord(k)
    ensures var p := Pad(m, k, long);
            && |p| % (128 * k) == 0 && |m| + 2 + 16 * k <= |p| < |m| + 2 + 16 * k + 128 * k
            && p[..|m|] == m && p[|m|] && p[|p| - 16 * k - 1] == long
            && (forall i :: |m| < i < |p| - 16 * k - 1 ==> !p[i])
            && p[|p| - 16 * k..] == BigEndian(|m| % (Modulus(k) * Modulus(k)), 16 * k)
  {
    hide BigEndian, Modulus;
    FillUp(|m| + 2 + 16 * k, 128 * k);
    PadParts(m, (0 - |m| - 2 - 16 * k) % (128 * k), long, BigEndian(|m| % (Modulus(k) * Modulus(k)), 16 * k));
  }

  lemma PadParts(m: seq<bool>, zeros: nat, long: bool, length: seq<bool>)
    ensures var p := m + [true] + Zeros(zeros) + [long] + length;
            && |p| == |m| + 2 + zeros + |length| && p[..|m|] == m && p[|m|]
            && p[|p| - |length| - 1] == long && p[|p| - |length|..] == length
            && forall i :: |m| < i < |p| - |length| - 1 ==> !p[i]
  {
  }

  // The counter of a block that ends in the message, holds its end, or holds nothing of it.
  lemma CounterIs(k: nat, bits: nat, i: nat)
    requires k > 0
    ensures 128 * k * (i + 1) <= bits ==> Counter(k, bits, i) == 128 * k * (i + 1)
    ensures 128 * k * i < bits < 128 * k * (i + 1) ==> Counter(k, bits, i) == bits
    ensures bits <= 128 * k * i ==> Counter(k, bits, i) == 0
  {
    assert 128 * k * (i + 1) == 128 * k * i + 128 * k;
  }

  // The blocks compressed are the padded message in order, each with its counter, low word first.
  lemma CallsAre(m: seq<bool>, k: nat, long: bool, i: nat)
    requires IsWord(k) && i < |Calls(m, k, long)|
    ensures |Calls(m, k, long)| * (128 * k) == |Pad(m, k, long)| && (i + 1) * (128 * k) <= |Pad(m, k, long)|
    ensures var call := Calls(m, k, long)[i];
            && call.block == Pad(m, k, long)[i * (128 * k)..(i + 1) * (128 * k)]
            && call.t0 < Modulus(k) && call.t1 < Modulus(k)
            && call.t0 + Modulus(k) * call.t1 == Counter(k, |m|, i) % (Modulus(k) * Modulus(k))
  {
    hide Pad, Counter, Cut, BigEndian, Modulus;
    PadIs(m, k, long);
    CutAt(Pad(m, k, long), 128 * k, i);
    WholeCut(|Pad(m, k, long)|, 128 * k, |Cut(Pad(m, k, long), 128 * k)|);
    TwoWords(Counter(k, |m|, i), Modulus(k));
  }

  lemma WholeCut(length: nat, lim: nat, n: nat)
    requires n * lim <= length < n * lim + lim && length % lim == 0
    ensures length == n * lim
  {
    ModUnique(length, lim, n, length - n * lim);
  }

  lemma TwoWords(c: nat, n: nat)
    requires n > 0
    ensures c % n + n * (c / n % n) == c % (n * n)
  {
    var q, r := c / n, c % n;
    Quotient(c, n);
    Quotient(q, n);
    Spread(q / n, n, q % n, n);
    AtLeastOnce(n, q % n, n);
    ModUnique(c, n * n, q / n, q % n * n + r);
  }

  function Digest(compress: Compression, iv: Chain, k: nat, words: nat, m: seq<bool>): seq<Byte>
    requires k > 0 && words <= 8
  {
    Output(Run(compress, iv, Calls(m, k, words == 8)), k, words)
  }
}
