/** The hash functions KECCAK[c] as section 4 and section 5.1 of FIPS 202 define them, on bit strings;
    a byte string gives its bits lowest first. */
module KeccakSponge {
  import opened Arith
  import opened Lanes
  import opened KeccakSpec
  import opened Blocks
  import opened Bytes

  // pad10*1 for a message of m bits and blocks of r bits.
  function Pad101(r: nat, m: nat): seq<bool>
    requires r > 0
  {
    [true] + Zeros((0 - m - 2) % r) + [true]
  }

  function ZeroState(): State { seq(25, _ => seq(64, _ => false)) }

  // Block b added to the first bits of the state.
  function XorInto(s: State, b: seq<bool>): State
    requires |b| <= 1600
  {
    seq(25, k requires 0 <= k < 25 =>
      var i := X(k) + 5 * Y(k);
      if 64 * i + 64 <= |b| then Xor(s[k], b[64 * i..64 * i + 64]) else s[k])
  }

  function Absorb(blocks: seq<seq<bool>>, r: nat): State
    requires r <= 1600 && Whole(blocks, r)
    decreases |blocks|
  {
    if blocks == [] then ZeroState()
    else
      var n := |blocks| - 1;
      Permute(XorInto(Absorb(blocks[..n], r), blocks[n]))
  }

  function Squeeze(s: State, n: nat): seq<bool>
    requires n <= 1600
  {
    seq(n, z requires 0 <= z < n => Transpose(s)[z / 64][z % 64])
  }

  // The sponge with rate r on message m; the digests fit in one block.
  function Sponge(m: seq<bool>, r: nat, n: nat): seq<bool>
    requires 0 < r <= 1600 && n <= r
  {
    Squeeze(Absorb(Cut(m + Pad101(r, |m|), r), r), n)
  }

  // KECCAK with a digest of so many bytes: capacity twice the digest.
  function Digest(m: seq<bool>, bytes: nat): seq<bool>
    requires bytes <= 64
  {
    Sponge(m, 1600 - 16 * bytes, 8 * bytes)
  }

  // The blocks and digests of the four sizes, in bits.
  function RateOf(bits: nat): (r: nat)
    ensures 0 < r <= 1600
  {
    if bits == 224 then 1152 else if bits == 256 then 1088 else if bits == 384 then 832 else 576
  }

  lemma Rates(m: seq<bool>, bits: nat)
    requires bits == 224 || bits == 256 || bits == 384 || bits == 512
    ensures Digest(m, bits / 8) == Sponge(m, RateOf(bits), bits)
  {
    hide Sponge;
    assert RateOf(bits) == 1600 - 16 * (bits / 8) && bits == 8 * (bits / 8);
  }

  // Lane (x, y) of the state holds the bits from 64 * (x + 5y) on of a string.
  function LaneAt(z: nat): (k: nat)
    requires z < 1600
    ensures k < 25
  {
    At(z / 64 % 5, z / 64 / 5)
  }

  lemma LaneAtPlace(z: nat)
    requires z < 1600
    ensures X(LaneAt(z)) + 5 * Y(LaneAt(z)) == z / 64 && z == 64 * (z / 64) + z % 64
  {
    Place(z / 64 % 5, z / 64 / 5);
  }

  // Adding a block.
  lemma XorIntoBit(s: State, b: seq<bool>, z: nat)
    requires |b| <= 1600 && |b| % 64 == 0 && z < 1600
    ensures XorInto(s, b)[LaneAt(z)][z % 64] == if z < |b| then s[LaneAt(z)][z % 64] != b[z] else s[LaneAt(z)][z % 64]
  {
    LaneAtPlace(z);
    var i, k := z / 64, LaneAt(z);
    assert z < |b| <==> 64 * i + 64 <= |b| by { assert |b| == 64 * (|b| / 64); }
    hide X, Y, LaneAt;
    XorIntoLane(s, b, k);
    if 64 * i + 64 <= |b| { XorBit(s[k], b[64 * i..64 * i + 64], z % 64); }
  }

  lemma XorIntoLane(s: State, b: seq<bool>, k: nat)
    requires |b| <= 1600 && k < 25
    ensures var i := X(k) + 5 * Y(k);
            XorInto(s, b)[k] == if 64 * i + 64 <= |b| then Xor(s[k], b[64 * i..64 * i + 64]) else s[k]
  {
  }

  // Reading the digest.
  lemma SqueezeBit(s: State, n: nat, z: nat)
    requires z < n <= 1600
    ensures Squeeze(s, n)[z] == s[LaneAt(z)][z % 64]
  {
    var i := z / 64;
    Coordinates(i, 0);
    assert X(i) + 5 * Y(i) == LaneAt(z) by { CrossPlace(i); }
    TransposeLane(s, i);
    hide X, Y, LaneAt, Transpose;
  }

  lemma CrossPlace(i: nat)
    requires i < 25
    ensures X(i) + 5 * Y(i) == At(i % 5, i / 5)
  {
    Coordinates(i, 0);
  }

  lemma TransposeLane(s: State, i: nat)
    requires i < 25
    ensures Transpose(s)[i] == s[X(i) + 5 * Y(i)]
  {
  }

  lemma AbsorbIs(blocks: seq<seq<bool>>, r: nat, b: seq<bool>)
    requires r <= 1600 && Whole(blocks, r) && |b| == r
    ensures Whole(blocks + [b], r) && Absorb(blocks + [b], r) == Permute(XorInto(Absorb(blocks, r), b))
    ensures Absorb([], r) == ZeroState()
  {
    hide Permute, XorInto, ZeroState;
    assert (blocks + [b])[..|blocks|] == blocks;
  }

  // The padding fills up the last block, with as few zeros between two ones as that takes.
  lemma PadIs(m: seq<bool>, r: nat)
    requires r > 0
    ensures var p := m + Pad101(r, |m|);
            && |p| % r == 0 && |m| + 2 <= |p| < |m| + 2 + r
            && p[..|m|] == m && p[|m|] && p[|p| - 1] && forall i :: |m| < i < |p| - 1 ==> !p[i]
  {
    FillUp(|m| + 2, r);
  }

  // The padding of this shape that fills up the last block and no further one.
  lemma PadLength(r: nat, m: nat, q: nat, k: nat)
    requires q < r && m + 2 + q == k * r
    ensures Pad101(r, m) == [true] + Zeros(q) + [true]
  {
    assert 0 - m - 2 == (0 - k) * r + q;
    ModUnique(0 - m - 2, r, 0 - k, q);
  }
}
