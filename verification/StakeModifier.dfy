/** The stake modifier: which blocks give it its bits, and what it is along a chain. The hash of a
    block's proof and the previous modifier is an uninterpreted function. */
module StakeModifier {
  import FiniteSets
  import opened Arith
  import opened Options

  type Hash = nat

  // A chain is a sequence of these from the genesis block up; the position is the height.
  datatype Block = Block(hash: Hash, time: nat, proofOfStake: bool, hashProof: Hash, entropy: bool,
                         modifier: nat, generated: bool)

  // The hash function, the length of the modifier interval, and the index of the known blocks.
  datatype Context = Context(digest: (Hash, nat) -> Hash, interval: nat, index: map<Hash, Block>)

  datatype Item = Item(time: nat, hash: Hash)

  const ROUNDS: nat := 64
  const INTERVAL_RATIO: nat := 3

  // ----- intervals

  function Section(c: Context, n: nat): nat
    requires n < ROUNDS
  {
    c.interval * 63 / (63 + (63 - n) * (INTERVAL_RATIO - 1))
  }

  // The sections of the first n rounds.
  function Sections(c: Context, n: nat): nat
    requires n <= ROUNDS
  {
    if n == 0 then 0 else Sections(c, n - 1) + Section(c, n - 1)
  }

  // The sections grow from a third of the interval to the whole of it.
  lemma SectionsGrow(c: Context, n: nat)
    requires n < 64
    ensures Section(c, 0) == c.interval / 3 && Section(c, 63) == c.interval
    ensures n < 63 ==> Section(c, n) <= Section(c, n + 1)
    ensures c.interval / 3 <= Section(c, n) <= c.interval
    ensures Section(c, n) == c.interval * 63 / (189 - 2 * n)
  {
    if n < 63 { QuotientGrows(c.interval * 63, 189 - 2 * n, 187 - 2 * n); }
    QuotientGrows(c.interval * 63, 189, 189 - 2 * n);
    QuotientGrows(c.interval * 63, 189 - 2 * n, 63);
  }

  lemma QuotientGrows(a: nat, d: nat, e: nat)
    requires 0 < e <= d
    ensures a / d <= a / e
  {
    var p, q := a / d, a / e;
    Quotient(a, d);
    Quotient(a, e);
    TimesGrows(p, e, d);
    if p > q {
      AtLeastOnce(p, q, e);
    }
  }

  lemma TimesGrows(p: nat, e: nat, d: nat)
    requires e <= d
    ensures p * e <= p * d
  {
  }

  method SelectionInterval(c: Context) returns (total: nat)
    ensures total == Sections(c, ROUNDS)
  {
    total := 0;
    for n := 0 to ROUNDS
      invariant total == Sections(c, n)
    {
      total := total + Section(c, n);
    }
  }

  // ----- the last modifier

  // The height of the last block that generated a modifier, or -1.
  function LastGenerating(chain: seq<Block>): (h: int)
    ensures -1 <= h < |chain|
    ensures h >= 0 ==> chain[h].generated
    ensures forall i :: h < i < |chain| ==> !chain[i].generated
  {
    if chain == [] then -1
    else if chain[|chain| - 1].generated then |chain| - 1
    else LastGenerating(chain[..|chain| - 1])
  }

  lemma LastGeneratingIs(chain: seq<Block>, h: nat)
    requires h < |chain| && chain[h].generated && forall i :: h < i < |chain| ==> !chain[i].generated
    ensures LastGenerating(chain) == h
  {
  }

  method GetLastStakeModifier(chain: seq<Block>) returns (last: Option<Block>)
    ensures var h := LastGenerating(chain); last == if h < 0 then None else Some(chain[h])
  {
    if chain == [] {
      return None;
    }
    var h := |chain| - 1;
    while h > 0 && !chain[h].generated
      invariant 0 <= h < |chain| && forall i :: h < i < |chain| ==> !chain[i].generated
    {
      h := h - 1;
    }
    if !chain[h].generated {
      return None;
    }
    LastGeneratingIs(chain, h);
    return Some(chain[h]);
  }

  // ----- candidates

  predicate Indexed(c: Context, chain: seq<Block>) {
    forall h :: 0 <= h < |chain| ==> chain[h].hash in c.index && c.index[chain[h].hash] == chain[h]
  }

  predicate DistinctBlocks(chain: seq<Block>) {
    forall i, j :: 0 <= i < j < |chain| ==> chain[i].hash != chain[j].hash
  }

  // The first of the blocks at the end of the chain none of which is older than start.
  function FirstCandidate(chain: seq<Block>, start: int): (k: nat)
    ensures k <= |chain|
    ensures forall i :: k <= i < |chain| ==> chain[i].time >= start
    ensures k > 0 ==> chain[k - 1].time < start
  {
    if chain == [] || chain[|chain| - 1].time < start then |chain|
    else FirstCandidate(chain[..|chain| - 1], start)
  }

  function ItemOf(b: Block): Item { Item(b.time, b.hash) }

  function ItemsOf(blocks: seq<Block>): (items: seq<Item>)
    ensures |items| == |blocks| && forall i :: 0 <= i < |items| ==> items[i] == ItemOf(blocks[i])
  {
    seq(|blocks|, i requires 0 <= i < |blocks| => ItemOf(blocks[i]))
  }

  predicate Before(a: Item, b: Item) { a.time < b.time || (a.time == b.time && a.hash < b.hash) }

  predicate Ordered(s: seq<Item>) {
    forall i, j :: 0 <= i < j < |s| ==> Before(s[i], s[j])
  }

  predicate DistinctItems(s: seq<Item>) {
    forall i, j :: 0 <= i < j < |s| ==> s[i].hash != s[j].hash
  }

  function Place(s: seq<Item>, x: Item): (k: nat)
    ensures k <= |s|
    ensures forall i :: 0 <= i < k ==> !Before(x, s[i])
    ensures k < |s| ==> Before(x, s[k])
  {
    if s == [] || Before(x, s[0]) then 0 else 1 + Place(s[1..], x)
  }

  function Insert(s: seq<Item>, x: Item): seq<Item> {
    s[..Place(s, x)] + [x] + s[Place(s, x)..]
  }

  function Sort(s: seq<Item>): seq<Item> {
    if s == [] then [] else Insert(Sort(s[..|s| - 1]), s[|s| - 1])
  }

  lemma InsertKeepsOrder(s: seq<Item>, x: Item)
    requires Ordered(s) && forall i :: 0 <= i < |s| ==> s[i].hash != x.hash
    ensures Ordered(Insert(s, x))
  {
  }

  lemma InsertAdds(s: seq<Item>, x: Item)
    ensures multiset(Insert(s, x)) == multiset(s) + multiset{x}
  {
    var k := Place(s, x);
    assert s == s[..k] + s[k..];
  }

  // Sorting permutes the items and orders them.
  lemma {:induction false} SortSorts(s: seq<Item>)
    requires DistinctItems(s)
    ensures Ordered(Sort(s)) && multiset(Sort(s)) == multiset(s) && |Sort(s)| == |s|
  {
    hide Insert, Place, Ordered, Before;
    if s == [] {
      NothingToOrder(Sort(s));
    } else {
      var n := |s| - 1;
      var t := Sort(s[..n]);
      SortSorts(s[..n]);
      forall i | 0 <= i < |t| ensures t[i].hash != s[n].hash {
        assert t[i] in multiset(s[..n]);
      }
      InsertKeepsOrder(t, s[n]);
      InsertAdds(t, s[n]);
      assert s == s[..n] + [s[n]];
      assert |multiset(Sort(s))| == |multiset(s)|;
    }
  }

  lemma NothingToOrder(s: seq<Item>)
    ensures s == [] ==> Ordered(s)
  {
  }

  // ----- one round

  // A proof-of-stake block is favoured by 32 bits.
  function SelectionHash(c: Context, b: Block, prev: nat): Hash {
    var h := c.digest(if b.proofOfStake then b.hashProof else b.hash, prev);
    if b.proofOfStake then h / 0x1_0000_0000 else h
  }

  predicate Known(c: Context, items: seq<Item>) {
    forall i :: 0 <= i < |items| ==> items[i].hash in c.index && ItemOf(c.index[items[i].hash]) == items[i]
  }

  // Candidate k is the choice among those that are not taken: when some are in the window up to
  // stop, the one of these with the least selection hash, the earliest of equals; else the earliest.
  predicate IsChoice(c: Context, items: seq<Item>, taken: set<Hash>, stop: int, prev: nat, k: nat)
    requires Known(c, items)
  {
    && k < |items| && items[k].hash !in taken
    && (forall j :: 0 <= j < |items| && items[j].hash !in taken && items[j].time <= stop ==>
          items[k].time <= stop && NoWorse(c, items, prev, k, j))
    && (items[k].time > stop ==> forall j :: 0 <= j < k ==> items[j].hash in taken)
  }

  predicate NoWorse(c: Context, items: seq<Item>, prev: nat, k: nat, j: nat)
    requires Known(c, items) && k < |items| && j < |items|
  {
    var a, b := SelectionHash(c, c.index[items[k].hash], prev), SelectionHash(c, c.index[items[j].hash], prev);
    a < b || (a == b && k <= j)
  }

  lemma ChoiceIsUnique(c: Context, items: seq<Item>, taken: set<Hash>, stop: int, prev: nat, j: nat, k: nat)
    requires Known(c, items) && IsChoice(c, items, taken, stop, prev, j) && IsChoice(c, items, taken, stop, prev, k)
    ensures j == k
  {
  }

  // What the choice favours, in terms of the digests. Proof-of-stake blocks are compared among themselves
  // and with proof-of-work blocks with 32 bits shifted out; the earlier of equals is chosen.
  lemma ChoiceFavours(c: Context, items: seq<Item>, taken: set<Hash>, stop: int, prev: nat, k: nat, j: nat)
    requires Known(c, items) && IsChoice(c, items, taken, stop, prev, k)
    requires j < |items| && items[j].hash !in taken && items[j].time <= stop
    ensures items[k].time <= stop && items[k].hash !in taken
    ensures var a, b := c.index[items[k].hash], c.index[items[j].hash];
            match (a.proofOfStake, b.proofOfStake)
            case (false, false) => Least(c.digest(a.hash, prev), c.digest(b.hash, prev), k, j)
            case (false, true) => Least(c.digest(a.hash, prev), c.digest(b.hashProof, prev) / 0x1_0000_0000, k, j)
            case (true, false) => Least(c.digest(a.hashProof, prev) / 0x1_0000_0000, c.digest(b.hash, prev), k, j)
            case (true, true) => Least(c.digest(a.hashProof, prev) / 0x1_0000_0000,
                                       c.digest(b.hashProof, prev) / 0x1_0000_0000, k, j)
  {
  }

  predicate Least(x: nat, y: nat, k: nat, j: nat) { x < y || (x == y && k <= j) }

  // With digests of 256 bits a proof-of-work block whose digest has one of the upper 32 bits set is
  // never chosen while there is a proof-of-stake block in the window.
  lemma StakeWins(c: Context, items: seq<Item>, taken: set<Hash>, stop: int, prev: nat, k: nat, j: nat)
    requires Known(c, items) && IsChoice(c, items, taken, stop, prev, k)
    requires j < |items| && items[j].hash !in taken && items[j].time <= stop && c.index[items[j].hash].proofOfStake
    requires c.digest(c.index[items[j].hash].hashProof, prev) < Pow2(256)
    requires c.digest(c.index[items[k].hash].hash, prev) >= Pow2(224)
    ensures c.index[items[k].hash].proofOfStake
  {
    ChoiceFavours(c, items, taken, stop, prev, k, j);
    hide Pow2;
    Shifted(c.digest(c.index[items[j].hash].hashProof, prev));
  }

  // It is not always so: of a proof-of-work block k and a proof-of-stake block j the first is chosen exactly
  // when its digest is below that of the other without its last 32 bits, or equal to it and earlier.
  lemma WorkWinsExactly(c: Context, items: seq<Item>, stop: int, prev: nat, k: nat, j: nat)
    requires Known(c, items) && |items| == 2 && k + j == 1 && items[0].time <= stop && items[1].time <= stop
    requires !c.index[items[k].hash].proofOfStake && c.index[items[j].hash].proofOfStake
    ensures IsChoice(c, items, {}, stop, prev, k) <==>
            Least(c.digest(c.index[items[k].hash].hash, prev),
                  c.digest(c.index[items[j].hash].hashProof, prev) / 0x1_0000_0000, k, j)
  {
  }

  lemma Shifted(d: nat)
    requires d < Pow2(256)
    ensures d / 0x1_0000_0000 < Pow2(224)
  {
    hide Pow2;
    WordIsPow2();
    Pow2Add(224, 32);
    ShiftedBy(d, Pow2(224), 0x1_0000_0000);
  }

  lemma ShiftedBy(d: nat, p: nat, w: nat)
    requires w > 0 && d < p * w
    ensures d / w < p
  {
    Quotient(d, w);
    if d / w > p { AtLeastOnce(d / w, p, w); }
  }

  lemma WordIsPow2()
    ensures Pow2(32) == 0x1_0000_0000
  {
    assert Pow2(8) == 256;
    hide Pow2;
    Pow2Add(8, 8);
    Pow2Add(16, 16);
  }

  // After the window only the earliest block that is left is chosen.
  lemma BeyondWindow(c: Context, items: seq<Item>, taken: set<Hash>, stop: int, prev: nat, k: nat)
    requires Known(c, items) && IsChoice(c, items, taken, stop, prev, k) && items[k].time > stop
    ensures forall j :: 0 <= j < |items| && items[j].hash !in taken ==> items[j].time > stop && k <= j
  {
  }

  method SelectBlockFromCandidates(c: Context, items: seq<Item>, taken: set<Hash>, stop: int, prev: nat)
    returns (selected: Option<Block>, ghost k: nat)
    requires Known(c, items) && Ordered(items)
    ensures selected.None? <==> forall j :: 0 <= j < |items| ==> items[j].hash in taken
    ensures selected.Some? ==> IsChoice(c, items, taken, stop, prev, k) && selected.value == c.index[items[k].hash]
  {
    selected, k := None, 0;
    var best := 0;
    var n := 0;
    while n < |items|
      invariant n <= |items|
      invariant selected.None? ==> forall j :: 0 <= j < n ==> items[j].hash in taken
      invariant selected.Some? ==> k < n && items[k].hash !in taken && selected.value == c.index[items[k].hash]
      invariant selected.Some? ==> best == SelectionHash(c, selected.value, prev)
      invariant selected.Some? ==> forall j :: 0 <= j < n && items[j].hash !in taken ==> NoWorse(c, items, prev, k, j)
      invariant selected.Some? ==> items[k].time > stop ==> forall j :: 0 <= j < k ==> items[j].hash in taken
      invariant selected.Some? ==>
                  forall j :: 0 <= j < n && items[j].time > stop && items[j].hash !in taken ==> items[k].time > stop
    {
      var b := c.index[items[n].hash];
      if selected.Some? && b.time > stop {
        break;
      }
      if b.hash !in taken {
        var h := SelectionHash(c, b, prev);
        if selected.None? || h < best {
          best := h;
          selected, k := Some(b), n;
        }
      }
      n := n + 1;
    }
  }

  // ----- all rounds

  function Taken(items: seq<Item>, picks: seq<nat>): (t: set<Hash>)
    requires forall i :: 0 <= i < |picks| ==> picks[i] < |items|
    ensures forall i :: 0 <= i < |picks| ==> items[picks[i]].hash in t
    ensures |t| <= |picks|
  {
    if picks == [] then {}
    else
      var n := |picks| - 1;
      FiniteSets.AtMostOneMore(Taken(items, picks[..n]) + {items[picks[n]].hash}, Taken(items, picks[..n]),
                               items[picks[n]].hash);
      Taken(items, picks[..n]) + {items[picks[n]].hash}
  }

  lemma {:induction false} TakenIsPicked(items: seq<Item>, picks: seq<nat>, k: nat)
    requires DistinctItems(items) && k < |items|
    requires forall i :: 0 <= i < |picks| ==> picks[i] < |items|
    ensures items[k].hash in Taken(items, picks) <==> k in picks
  {
    if picks != [] {
      var n := |picks| - 1;
      TakenIsPicked(items, picks[..n], k);
      assert picks == picks[..n] + [picks[n]];
    }
  }

  function Hashes(items: seq<Item>): (h: set<Hash>)
    ensures forall i :: 0 <= i < |items| ==> items[i].hash in h
    ensures forall x :: x in h ==> exists i :: 0 <= i < |items| && items[i].hash == x
  {
    set i | 0 <= i < |items| :: items[i].hash
  }

  lemma {:induction false} HashCount(items: seq<Item>)
    requires DistinctItems(items)
    ensures |Hashes(items)| == |items|
  {
    if items == [] {
      assert Hashes(items) == {};
    } else {
      var n := |items| - 1;
      HashCount(items[..n]);
      assert Hashes(items) == Hashes(items[..n]) + {items[n].hash};
      assert items[n].hash !in Hashes(items[..n]);
    }
  }

  // Fewer picks than candidates leave one over.
  lemma SomeLeft(items: seq<Item>, picks: seq<nat>)
    requires DistinctItems(items) && |picks| < |items|
    requires forall i :: 0 <= i < |picks| ==> picks[i] < |items|
    ensures exists j :: 0 <= j < |items| && items[j].hash !in Taken(items, picks)
  {
    if forall j :: 0 <= j < |items| ==> items[j].hash in Taken(items, picks) {
      HashCount(items);
      FiniteSets.Fewer(Hashes(items), Taken(items, picks));
    }
  }

  // Round by round, each pick is the choice among what the earlier ones left over, in a window that
  // grows by a section each round.
  predicate IsSelection(c: Context, items: seq<Item>, start: int, prev: nat, picks: seq<nat>)
    requires Known(c, items)
  {
    && |picks| <= Min(ROUNDS, |items|)
    && (forall r :: 0 <= r < |picks| ==> picks[r] < |items|)
    && (forall r :: 0 <= r < |picks| ==> IsRound(c, items, start, prev, picks, r))
  }

  predicate IsRound(c: Context, items: seq<Item>, start: int, prev: nat, picks: seq<nat>, r: nat)
    requires Known(c, items) && r < |picks| && r < ROUNDS
    requires forall r :: 0 <= r < |picks| ==> picks[r] < |items|
  {
    IsChoice(c, items, Taken(items, picks[..r]), start + Sections(c, r + 1), prev, picks[r])
  }

  // No block is picked twice.
  lemma PicksDistinct(c: Context, items: seq<Item>, start: int, prev: nat, picks: seq<nat>, q: nat, r: nat)
    requires Known(c, items) && IsSelection(c, items, start, prev, picks) && q < r < |picks|
    ensures picks[q] != picks[r] && items[picks[q]].hash != items[picks[r]].hash
  {
    assert IsRound(c, items, start, prev, picks, r);
    assert picks[..r][q] == picks[q];
  }

  // There is only one selection of each length.
  lemma {:induction false} SelectionIsUnique(c: Context, items: seq<Item>, start: int, prev: nat,
                                            p: seq<nat>, q: seq<nat>)
    requires Known(c, items) && |p| == |q|
    requires IsSelection(c, items, start, prev, p) && IsSelection(c, items, start, prev, q)
    ensures p == q
    decreases |p|
  {
    if p != [] {
      var n := |p| - 1;
      SelectionPrefix(c, items, start, prev, p);
      SelectionPrefix(c, items, start, prev, q);
      SelectionIsUnique(c, items, start, prev, p[..n], q[..n]);
      assert IsRound(c, items, start, prev, p, n) && IsRound(c, items, start, prev, q, n);
      ChoiceIsUnique(c, items, Taken(items, p[..n]), start + Sections(c, n + 1), prev, p[n], q[n]);
      assert p == p[..n] + [p[n]] && q == q[..n] + [q[n]];
    }
  }

  lemma SelectionPrefix(c: Context, items: seq<Item>, start: int, prev: nat, p: seq<nat>)
    requires Known(c, items) && p != [] && IsSelection(c, items, start, prev, p)
    ensures IsSelection(c, items, start, prev, p[..|p| - 1])
  {
    var s := p[..|p| - 1];
    forall r | 0 <= r < |s| ensures IsRound(c, items, start, prev, s, r) {
      assert IsRound(c, items, start, prev, p, r);
      assert s[..r] == p[..r];
    }
  }

  lemma SelectionGrows(c: Context, items: seq<Item>, start: int, prev: nat, p: seq<nat>, k: nat)
    requires Known(c, items) && IsSelection(c, items, start, prev, p) && |p| < Min(ROUNDS, |items|)
    requires IsChoice(c, items, Taken(items, p), start + Sections(c, |p| + 1), prev, k)
    ensures IsSelection(c, items, start, prev, p + [k])
  {
    var s := p + [k];
    forall r | 0 <= r < |s| ensures IsRound(c, items, start, prev, s, r) {
      if r < |p| {
        assert IsRound(c, items, start, prev, p, r);
        assert s[..r] == p[..r];
      } else {
        assert s[..r] == p;
      }
    }
  }

  // ----- the bits

  function EntropyAt(c: Context, items: seq<Item>, k: nat): bool
    requires Known(c, items) && k < |items|
  {
    c.index[items[k].hash].entropy
  }

  function ModifierOf(c: Context, items: seq<Item>, picks: seq<nat>): nat
    requires Known(c, items) && forall i :: 0 <= i < |picks| ==> picks[i] < |items|
  {
    if picks == [] then 0
    else
      var n := |picks| - 1;
      ModifierOf(c, items, picks[..n]) + if EntropyAt(c, items, picks[n]) then Pow2(n) else 0
  }

  lemma {:induction false} ModifierFits(c: Context, items: seq<Item>, picks: seq<nat>)
    requires Known(c, items) && forall i :: 0 <= i < |picks| ==> picks[i] < |items|
    ensures ModifierOf(c, items, picks) < Pow2(|picks|)
  {
    if picks != [] {
      ModifierFits(c, items, picks[..|picks| - 1]);
    }
  }

  // Bit r of the modifier is the entropy bit of the block picked in round r.
  lemma {:induction false} ModifierBit(c: Context, items: seq<Item>, picks: seq<nat>, r: nat)
    requires Known(c, items) && r < |picks| && forall i :: 0 <= i < |picks| ==> picks[i] < |items|
    ensures ModifierOf(c, items, picks) / Pow2(r) % 2 == if c.index[items[picks[r]].hash].entropy then 1 else 0
  {
    var n := |picks| - 1;
    var low := ModifierOf(c, items, picks[..n]);
    ModifierFits(c, items, picks[..n]);
    if r == n {
      TopBit(low, Pow2(n), EntropyAt(c, items, picks[n]));
    } else {
      ModifierBit(c, items, picks[..n], r);
      assert picks[..n][r] == picks[r];
      if EntropyAt(c, items, picks[n]) {
        LowerBit(low, r, n);
      }
    }
  }

  lemma TopBit(low: nat, p: nat, bit: bool)
    requires low < p
    ensures (low + if bit then p else 0) / p % 2 == if bit then 1 else 0
  {
    ModUnique(low, p, 0, low);
    ModUnique(low + p, p, 1, low);
  }

  lemma LowerBit(low: nat, r: nat, n: nat)
    requires r < n
    ensures (low + Pow2(n)) / Pow2(r) % 2 == low / Pow2(r) % 2
  {
    var q := EvenMultiple(r, n);
    AddTwice(low, Pow2(r), q);
  }

  lemma {:induction false} EvenMultiple(r: nat, n: nat) returns (q: nat)
    requires r < n
    ensures Pow2(n) == 2 * q * Pow2(r)
  {
    if n == r + 1 {
      q := 1;
    } else {
      var h := EvenMultiple(r, n - 1);
      q := 2 * h;
    }
  }

  // ----- the next modifier

  function SelectionStart(c: Context, chain: seq<Block>): int
    requires chain != [] && c.interval > 0
  {
    chain[|chain| - 1].time / c.interval * c.interval - Sections(c, ROUNDS)
  }

  // The blocks at the end of the chain back to the start of the selection interval, in order of time.
  function Candidates(c: Context, chain: seq<Block>): seq<Item>
    requires chain != [] && c.interval > 0
  {
    Sort(ItemsOf(chain[FirstCandidate(chain, SelectionStart(c, chain))..]))
  }

  lemma CandidatesFacts(c: Context, chain: seq<Block>)
    requires chain != [] && c.interval > 0 && Indexed(c, chain) && DistinctBlocks(chain)
    ensures var items := Candidates(c, chain); Known(c, items) && Ordered(items) && DistinctItems(items)
    ensures |Candidates(c, chain)| == |chain| - FirstCandidate(chain, SelectionStart(c, chain))
  {
    var blocks := chain[FirstCandidate(chain, SelectionStart(c, chain))..];
    var s := ItemsOf(blocks);
    SortSorts(s);
    var items := Sort(s);
    forall i | 0 <= i < |items|
      ensures items[i].hash in c.index && ItemOf(c.index[items[i].hash]) == items[i]
    {
      assert items[i] in multiset(items);
      var j :| 0 <= j < |s| && s[j] == items[i];
      assert s[j] == ItemOf(blocks[j]);
    }
    SameHash(c, items);
  }

  // A block is a candidate exactly when no block from it to the tip is older than the start of the
  // modifier interval of the tip less all 64 sections.
  lemma CandidateExactly(c: Context, chain: seq<Block>, h: nat)
    requires h < |chain| && c.interval > 0 && DistinctBlocks(chain)
    ensures ItemOf(chain[h]) in Candidates(c, chain) <==>
            var tip := chain[|chain| - 1].time;
            forall i :: h <= i < |chain| ==> chain[i].time >= tip - tip % c.interval - Sections(c, 64)
  {
    var tip, start := chain[|chain| - 1].time, SelectionStart(c, chain);
    assert start == tip - tip % c.interval - Sections(c, 64);
    var first := FirstCandidate(chain, start);
    var s := ItemsOf(chain[first..]);
    hide Sections, SelectionStart, Sort, Ordered, Before, FirstCandidate, DistinctItems, Indexed;
    SortKeepsMembers(s, ItemOf(chain[h]));
    ItemInTail(chain, first, h);
    FirstCandidateIs(chain, start, first);
  }

  lemma FirstCandidateIs(chain: seq<Block>, start: int, first: nat)
    requires first == FirstCandidate(chain, start)
    ensures first <= |chain| && (forall i :: first <= i < |chain| ==> chain[i].time >= start)
    ensures first > 0 ==> chain[first - 1].time < start
  {
  }

  lemma SortKeepsMembers(s: seq<Item>, x: Item)
    requires DistinctItems(s)
    ensures x in Sort(s) <==> x in s
  {
    SortSorts(s);
    hide Sort, DistinctItems, Ordered;
    assert x in Sort(s) <==> x in multiset(Sort(s));
    assert x in s <==> x in multiset(s);
  }

  lemma ItemInTail(chain: seq<Block>, first: nat, h: nat)
    requires DistinctBlocks(chain) && first <= |chain| && h < |chain|
    ensures DistinctItems(ItemsOf(chain[first..]))
    ensures ItemOf(chain[h]) in ItemsOf(chain[first..]) <==> first <= h
  {
    var s := ItemsOf(chain[first..]);
    forall j | 0 <= j < |s| ensures s[j] == ItemOf(chain[first + j]) { }
    if h >= first { assert s[h - first] == ItemOf(chain[h]); }
  }

  lemma CandidatesInOrder(c: Context, chain: seq<Block>, i: nat, j: nat)
    requires chain != [] && c.interval > 0 && Indexed(c, chain) && DistinctBlocks(chain)
    requires i < j < |Candidates(c, chain)|
    ensures var a, b := Candidates(c, chain)[i], Candidates(c, chain)[j];
            a.time < b.time || (a.time == b.time && a.hash < b.hash)
  {
    hide Candidates, Known, DistinctItems;
    CandidatesFacts(c, chain);
  }

  lemma SameHash(c: Context, items: seq<Item>)
    requires Known(c, items) && Ordered(items)
    ensures DistinctItems(items)
  {
    forall i, j | 0 <= i < j < |items| ensures items[i].hash != items[j].hash {
      assert Before(items[i], items[j]);
    }
  }

  // The modifier m that comes after a chain, and whether it is a new one.
  ghost predicate NextModifier(c: Context, chain: seq<Block>, m: nat, generated: bool)
    requires c.interval > 0 && Indexed(c, chain) && DistinctBlocks(chain)
  {
    if chain == [] then m == 0 && generated
    else
      var h := LastGenerating(chain);
      && h >= 0
      && if KeepsModifier(c, chain, h) then m == chain[h].modifier && !generated
         else generated && IsNewModifier(c, chain, chain[h].modifier, m)
  }

  // The tip is in no later modifier interval than the block that generated the last modifier.
  predicate KeepsModifier(c: Context, chain: seq<Block>, h: nat)
    requires c.interval > 0 && h < |chain|
  {
    chain[h].time / c.interval >= chain[|chain| - 1].time / c.interval
  }

  ghost predicate IsNewModifier(c: Context, chain: seq<Block>, prev: nat, m: nat)
    requires chain != [] && c.interval > 0 && Indexed(c, chain) && DistinctBlocks(chain)
  {
    CandidatesFacts(c, chain);
    SelectionGives(c, Candidates(c, chain), SelectionStart(c, chain), prev, m)
  }

  // m is made of the bits of the blocks picked in all the rounds.
  ghost predicate SelectionGives(c: Context, items: seq<Item>, start: int, prev: nat, m: nat)
    requires Known(c, items)
  {
    exists picks: seq<nat> ::
      && IsSelection(c, items, start, prev, picks)
      && |picks| == Min(ROUNDS, |items|)
      && m == ModifierOf(c, items, picks)
  }

  // A modifier in full: it comes from one pick in each of the rounds, among the blocks in the window that
  // no earlier round has picked; bit r is the entropy bit of pick r.
  ghost predicate IsMadeOf(c: Context, items: seq<Item>, start: int, prev: nat, picks: seq<nat>, m: nat)
    requires Known(c, items)
  {
    && |picks| == (if |items| < 64 then |items| else 64) && m < Pow2(|picks|)
    && (forall r :: 0 <= r < |picks| ==> 0 <= picks[r] < |items|)
    && forall r :: 0 <= r < |picks| ==> RoundGives(c, items, start, prev, picks, m, r)
  }

  ghost predicate RoundGives(c: Context, items: seq<Item>, start: int, prev: nat, picks: seq<nat>, m: nat, r: nat)
    requires Known(c, items) && r < |picks| && (forall i :: 0 <= i < |picks| ==> picks[i] < |items|)
  {
    && r < 64 && PickedIn(c, items, picks, r, start + Sections(c, r + 1), prev)
    && m / Pow2(r) % 2 == if c.index[items[picks[r]].hash].entropy then 1 else 0
  }

  ghost predicate MadeFrom(c: Context, items: seq<Item>, start: int, prev: nat, m: nat)
    requires Known(c, items)
  {
    exists picks :: IsMadeOf(c, items, start, prev, picks, m)
  }

  lemma GivenIsMadeOf(c: Context, items: seq<Item>, start: int, prev: nat, m: nat)
    requires Known(c, items) && DistinctItems(items) && SelectionGives(c, items, start, prev, m)
    ensures MadeFrom(c, items, start, prev, m)
  {
    hide Sections, Known, ModifierOf, PickedIn, IsRound, DistinctItems, RoundGives;
    var picks: seq<nat> :| IsSelection(c, items, start, prev, picks) && |picks| == Min(ROUNDS, |items|)
                           && m == ModifierOf(c, items, picks);
    ModifierFits(c, items, picks);
    forall r | 0 <= r < |picks| ensures RoundGives(c, items, start, prev, picks, m, r) {
      GivenRound(c, items, start, prev, picks, r);
    }
    assert IsMadeOf(c, items, start, prev, picks, m);
  }

  lemma GivenRound(c: Context, items: seq<Item>, start: int, prev: nat, picks: seq<nat>, r: nat)
    requires Known(c, items) && DistinctItems(items) && IsSelection(c, items, start, prev, picks) && r < |picks|
    ensures RoundGives(c, items, start, prev, picks, ModifierOf(c, items, picks), r)
  {
    hide Sections, Known, ModifierOf, PickedIn, IsRound, DistinctItems;
    RoundPicks(c, items, start, prev, picks, r);
    ModifierBit(c, items, picks, r);
  }

  // A new modifier is made of the candidates, hashed with the modifier of the block that generated the last
  // one, in windows that begin where the candidates do.
  lemma NewModifierIs(c: Context, chain: seq<Block>, h: nat, m: nat)
    requires c.interval > 0 && Indexed(c, chain) && DistinctBlocks(chain) && chain != []
    requires h < |chain| && chain[h].generated && forall i :: h < i < |chain| ==> !chain[i].generated
    requires NextModifier(c, chain, m, true)
    ensures chain[|chain| - 1].time / c.interval > chain[h].time / c.interval
    ensures Known(c, Candidates(c, chain))
    ensures var tip := chain[|chain| - 1].time;
            MadeFrom(c, Candidates(c, chain), tip - tip % c.interval - Sections(c, 64), chain[h].modifier, m)
  {
    hide MadeFrom, SelectionGives, Candidates, Sections, SelectionStart, Known, DistinctItems;
    CandidatesFacts(c, chain);
    LastGeneratingIs(chain, h);
    StartIs(c, chain);
    GivenIsMadeOf(c, Candidates(c, chain), SelectionStart(c, chain), chain[h].modifier, m);
  }

  // Pick r is the choice among what the picks before it have left over.
  ghost predicate PickedIn(c: Context, items: seq<Item>, picks: seq<nat>, r: nat, stop: int, prev: nat)
    requires Known(c, items) && r < |picks|
  {
    exists taken: set<Hash> ::
      && IsChoice(c, items, taken, stop, prev, picks[r])
      && forall k :: 0 <= k < |items| ==> (items[k].hash in taken <==> k in picks[..r])
  }

  lemma RoundPicks(c: Context, items: seq<Item>, start: int, prev: nat, picks: seq<nat>, r: nat)
    requires Known(c, items) && DistinctItems(items) && IsSelection(c, items, start, prev, picks) && r < |picks|
    ensures picks[r] < |items| && r < ROUNDS && PickedIn(c, items, picks, r, start + Sections(c, r + 1), prev)
  {
    hide Sections, IsChoice;
    assert IsRound(c, items, start, prev, picks, r);
    forall k | 0 <= k < |items| ensures items[k].hash in Taken(items, picks[..r]) <==> k in picks[..r] {
      TakenIsPicked(items, picks[..r], k);
    }
  }

  lemma StartIs(c: Context, chain: seq<Block>)
    requires chain != [] && c.interval > 0
    ensures var tip := chain[|chain| - 1].time;
            SelectionStart(c, chain) == tip - tip % c.interval - Sections(c, 64)
  {
    hide Sections;
  }

  // Everyone with the same chain has the same modifier.
  lemma NextModifierIsUnique(c: Context, chain: seq<Block>, m: nat, g: bool, n: nat, h: bool)
    requires c.interval > 0 && Indexed(c, chain) && DistinctBlocks(chain)
    requires NextModifier(c, chain, m, g) && NextModifier(c, chain, n, h)
    ensures m == n && g == h
  {
    if chain != [] && g {
      CandidatesFacts(c, chain);
      var items, start, prev := Candidates(c, chain), SelectionStart(c, chain), chain[LastGenerating(chain)].modifier;
      var p: seq<nat> :| IsSelection(c, items, start, prev, p) && |p| == Min(ROUNDS, |items|)
                        && m == ModifierOf(c, items, p);
      var q: seq<nat> :| IsSelection(c, items, start, prev, q) && |q| == Min(ROUNDS, |items|)
                        && n == ModifierOf(c, items, q);
      SelectionIsUnique(c, items, start, prev, p, q);
    }
  }

  // The blocks from the end of the chain back to the first one older than start, earliest first.
  method BlocksSince(chain: seq<Block>, start: int) returns (items: seq<Item>)
    ensures items == ItemsOf(chain[FirstCandidate(chain, start)..])
  {
    items := [];
    var h := |chain|;
    while h > 0 && chain[h - 1].time >= start
      invariant 0 <= h <= |chain| && items == ItemsOf(chain[h..])
      invariant FirstCandidate(chain, start) <= h
    {
      h := h - 1;
      items := [ItemOf(chain[h])] + items;
      assert chain[h..] == [chain[h]] + chain[h + 1..];
    }
  }

  method CollectCandidates(c: Context, chain: seq<Block>) returns (items: seq<Item>)
    requires chain != [] && c.interval > 0
    ensures items == Candidates(c, chain)
  {
    hide Sort, Sections, FirstCandidate;
    var total := SelectionInterval(c);
    var start := chain[|chain| - 1].time / c.interval * c.interval - total;
    items := BlocksSince(chain, start);
    items := Sort(items);
  }

  // All rounds on given candidates; no round is without a choice.
  method SelectRounds(c: Context, items: seq<Item>, start: int, prev: nat) returns (m: nat)
    requires Known(c, items) && Ordered(items) && DistinctItems(items)
    ensures SelectionGives(c, items, start, prev, m)
  {
    m := 0;
    ghost var picks: seq<nat> := [];
    var stop, taken := start, {};
    for round := 0 to Min(ROUNDS, |items|)
      invariant |picks| == round && IsSelection(c, items, start, prev, picks)
      invariant stop == start + Sections(c, round)
      invariant taken == Taken(items, picks)
      invariant m == ModifierOf(c, items, picks)
    {
      stop := stop + Section(c, round);
      SomeLeft(items, picks);
      ghost var k;
      var selected;
      selected, k := SelectBlockFromCandidates(c, items, taken, stop, prev);
      assert selected.Some?;
      SelectionGrows(c, items, start, prev, picks, k);
      m := m + if selected.value.entropy then Pow2(round) else 0;
      taken := taken + {selected.value.hash};
      assert (picks + [k])[..round] == picks;
      picks := picks + [k];
    }
  }

  // Nothing when the chain has no block that generated a modifier.
  method ComputeNextStakeModifier(c: Context, chain: seq<Block>) returns (r: Option<(nat, bool)>)
    requires c.interval > 0 && Indexed(c, chain) && DistinctBlocks(chain)
    ensures r.None? <==> chain != [] && LastGenerating(chain) < 0
    ensures r.Some? ==> NextModifier(c, chain, r.value.0, r.value.1)
  {
    if chain == [] {
      return Some((0, true));
    }
    var last := GetLastStakeModifier(chain);
    if last.None? {
      return None;
    }
    if last.value.time / c.interval >= chain[|chain| - 1].time / c.interval {
      return Some((last.value.modifier, false));
    }
    CandidatesFacts(c, chain);
    var items := CollectCandidates(c, chain);
    var m := SelectRounds(c, items, SelectionStart(c, chain), last.value.modifier);
    return Some((m, true));
  }
}
