/** Stake modifiers along chains: what every block's modifier is, entering the next block, and the
    modifier that a kernel hashes with. */
module StakeChain {
  import opened Arith
  import opened Options
  import opened StakeModifier

  // ----- along a chain

  // Every block has the modifier computed from the blocks before it.
  ghost predicate Computed(c: Context, chain: seq<Block>)
    requires c.interval > 0 && Indexed(c, chain) && DistinctBlocks(chain)
  {
    forall h :: 0 <= h < |chain| ==> ComputedAt(c, chain, h)
  }

  ghost predicate ComputedAt(c: Context, chain: seq<Block>, h: nat)
    requires c.interval > 0 && Indexed(c, chain) && DistinctBlocks(chain) && h < |chain|
  {
    NextModifier(c, chain[..h], chain[h].modifier, chain[h].generated)
  }

  // On such a chain the next modifier can always be computed.
  lemma NeverWithoutModifier(c: Context, chain: seq<Block>)
    requires c.interval > 0 && Indexed(c, chain) && DistinctBlocks(chain) && Computed(c, chain) && chain != []
    ensures LastGenerating(chain) >= 0
  {
    assert ComputedAt(c, chain, 0);
    assert chain[..0] == [];
    assert chain[0].generated;
  }

  // Every block has the modifier of the nearest block up to itself that generated one.
  lemma ModifierOfNearest(c: Context, chain: seq<Block>, h: nat)
    requires c.interval > 0 && Indexed(c, chain) && DistinctBlocks(chain) && Computed(c, chain) && h < |chain|
    ensures var g := LastGenerating(chain[..h + 1]); g >= 0 && chain[h].modifier == chain[g].modifier
  {
    assert ComputedAt(c, chain, h);
    var upTo := chain[..h + 1];
    if chain[h].generated {
      assert upTo[|upTo| - 1] == chain[h];
    } else {
      assert chain[..h] == upTo[..|upTo| - 1];
    }
  }

  // A block after the first generates a modifier exactly when its parent is in a later modifier
  // interval than the block that generated the last one.
  lemma GeneratesInLaterInterval(c: Context, chain: seq<Block>, h: nat)
    requires c.interval > 0 && Indexed(c, chain) && DistinctBlocks(chain) && Computed(c, chain) && 0 < h < |chain|
    ensures var g := LastGenerating(chain[..h]);
            g >= 0 && (chain[h].generated <==> chain[h - 1].time / c.interval > chain[g].time / c.interval)
  {
    assert ComputedAt(c, chain, h);
  }

  // ----- the next block

  // The same rules, but perhaps other blocks in the index.
  ghost predicate SameRules(c: Context, d: Context) {
    d == c.(index := d.index)
  }

  lemma {:induction false} SameSections(c: Context, d: Context, n: nat)
    requires SameRules(c, d) && n <= ROUNDS
    ensures Sections(d, n) == Sections(c, n)
  {
    if n > 0 { SameSections(c, d, n - 1); }
  }

  // The candidates are the same blocks in both indexes.
  predicate SameBlocks(c: Context, d: Context, items: seq<Item>) {
    && Known(c, items) && Known(d, items)
    && forall i :: 0 <= i < |items| ==> d.index[items[i].hash] == c.index[items[i].hash]
  }

  lemma SameRound(c: Context, d: Context, items: seq<Item>, start: int, prev: nat, picks: seq<nat>, r: nat)
    requires SameRules(c, d) && SameBlocks(c, d, items) && IsSelection(c, items, start, prev, picks) && r < |picks|
    ensures r < ROUNDS && IsRound(d, items, start, prev, picks, r)
  {
    hide Sections, Taken;
    SameSections(c, d, r + 1);
    assert IsRound(c, items, start, prev, picks, r);
  }

  lemma {:induction false} SameBits(c: Context, d: Context, items: seq<Item>, picks: seq<nat>)
    requires SameBlocks(c, d, items) && forall i :: 0 <= i < |picks| ==> picks[i] < |items|
    ensures ModifierOf(d, items, picks) == ModifierOf(c, items, picks)
  {
    if picks != [] { SameBits(c, d, items, picks[..|picks| - 1]); }
  }

  lemma SameSelection(c: Context, d: Context, items: seq<Item>, start: int, prev: nat, m: nat)
    requires SameRules(c, d) && SameBlocks(c, d, items) && SelectionGives(c, items, start, prev, m)
    ensures SelectionGives(d, items, start, prev, m)
  {
    hide IsRound, SameRules, ModifierOf;
    var picks: seq<nat> :|
      && IsSelection(c, items, start, prev, picks)
      && |picks| == Min(ROUNDS, |items|)
      && m == ModifierOf(c, items, picks);
    SameBits(c, d, items, picks);
    forall r | 0 <= r < |picks| ensures IsRound(d, items, start, prev, picks, r) {
      SameRound(c, d, items, start, prev, picks, r);
    }
    assert IsSelection(d, items, start, prev, picks);
  }

  // The next modifier depends on the chain alone, not on what else is known.
  lemma SameNextModifier(c: Context, d: Context, chain: seq<Block>, m: nat, generated: bool)
    requires SameRules(c, d) && c.interval > 0 && DistinctBlocks(chain) && Indexed(c, chain) && Indexed(d, chain)
    requires NextModifier(c, chain, m, generated)
    ensures NextModifier(d, chain, m, generated)
  {
    hide SelectionGives, Candidates, Sections;
    if chain != [] && generated {
      SameCandidates(c, d, chain);
      SameSelection(c, d, Candidates(c, chain), SelectionStart(c, chain), chain[LastGenerating(chain)].modifier, m);
    }
  }

  lemma SameCandidates(c: Context, d: Context, chain: seq<Block>)
    requires chain != [] && SameRules(c, d) && c.interval > 0
    requires DistinctBlocks(chain) && Indexed(c, chain) && Indexed(d, chain)
    ensures SelectionStart(d, chain) == SelectionStart(c, chain) && Candidates(d, chain) == Candidates(c, chain)
    ensures SameBlocks(c, d, Candidates(c, chain))
  {
    SameSections(c, d, ROUNDS);
    hide Sections, Candidates, SelectionStart;
    assert SelectionStart(d, chain) == SelectionStart(c, chain) by { StartOf(c, chain); StartOf(d, chain); }
    CandidatesAre(c, chain);
    CandidatesAre(d, chain);
    CandidatesFacts(c, chain);
    CandidatesFacts(d, chain);
    CandidatesInChain(c, chain);
  }

  lemma StartOf(c: Context, chain: seq<Block>)
    requires chain != [] && c.interval > 0
    ensures SelectionStart(c, chain) == chain[|chain| - 1].time / c.interval * c.interval - Sections(c, ROUNDS)
  {
  }

  lemma CandidatesAre(c: Context, chain: seq<Block>)
    requires chain != [] && c.interval > 0
    ensures Candidates(c, chain) == Sort(ItemsOf(chain[FirstCandidate(chain, SelectionStart(c, chain))..]))
  {
  }

  lemma CandidatesInChain(c: Context, chain: seq<Block>)
    requires chain != [] && c.interval > 0 && Indexed(c, chain) && DistinctBlocks(chain)
    ensures forall i :: 0 <= i < |Candidates(c, chain)| ==>
              exists h :: 0 <= h < |chain| && chain[h].hash == Candidates(c, chain)[i].hash
  {
    var first := FirstCandidate(chain, SelectionStart(c, chain));
    var s := ItemsOf(chain[first..]);
    SortSorts(s);
    CandidatesAre(c, chain);
    hide Sort, Candidates, SelectionStart, FirstCandidate, DistinctItems, Ordered, Indexed;
    forall i | 0 <= i < |Sort(s)| ensures exists h :: 0 <= h < |chain| && chain[h].hash == Sort(s)[i].hash {
      assert Sort(s)[i] in multiset(Sort(s));
      var j :| 0 <= j < |s| && s[j] == Sort(s)[i];
      assert chain[first + j].hash == s[j].hash;
    }
  }

  // What a block is apart from its modifier.
  function Bare(b: Block): Block { b.(modifier := 0, generated := false) }

  // Nodes that have computed the modifiers along the same blocks have the same modifiers.
  lemma {:induction false} ModifiersAgree(c: Context, x: seq<Block>, d: Context, y: seq<Block>, h: nat)
    requires SameRules(c, d) && c.interval > 0 && DistinctBlocks(x) && DistinctBlocks(y)
    requires Indexed(c, x) && Indexed(d, y) && Computed(c, x) && Computed(d, y)
    requires h <= |x| && h <= |y| && forall i :: 0 <= i < h ==> Bare(x[i]) == Bare(y[i])
    ensures x[..h] == y[..h]
  {
    hide Computed, SameRules, Indexed, DistinctBlocks;
    if h > 0 {
      var n := h - 1;
      ModifiersAgree(c, x, d, y, n);
      ModifierAgrees(c, x, d, y, n);
      assert Bare(x[n]) == Bare(y[n]);
      assert x[..h] == x[..n] + [x[n]] && y[..h] == y[..n] + [y[n]];
    }
  }

  lemma ModifierAgrees(c: Context, x: seq<Block>, d: Context, y: seq<Block>, n: nat)
    requires SameRules(c, d) && c.interval > 0 && DistinctBlocks(x) && DistinctBlocks(y)
    requires Indexed(c, x) && Indexed(d, y) && Computed(c, x) && Computed(d, y)
    requires n < |x| && n < |y| && x[..n] == y[..n]
    ensures x[n].modifier == y[n].modifier && x[n].generated == y[n].generated
  {
    assert ComputedAt(c, x, n) && ComputedAt(d, y, n);
    hide Computed, NextModifier, SameRules;
    assert DistinctBlocks(x[..n]) && Indexed(c, x[..n]) && Indexed(d, x[..n]);
    SameNextModifier(c, d, x[..n], x[n].modifier, x[n].generated);
    NextModifierIsUnique(d, x[..n], x[n].modifier, x[n].generated, y[n].modifier, y[n].generated);
  }

  // The flag can only be set.
  function SetStakeModifier(b: Block, modifier: nat, generated: bool): Block {
    b.(modifier := modifier, generated := b.generated || generated)
  }

  lemma ComputedKept(c: Context, d: Context, chain: seq<Block>)
    requires SameRules(c, d) && c.interval > 0 && DistinctBlocks(chain) && Indexed(c, chain) && Indexed(d, chain)
    requires Computed(c, chain)
    ensures Computed(d, chain)
  {
    hide NextModifier;
    forall h | 0 <= h < |chain| ensures ComputedAt(d, chain, h) {
      assert ComputedAt(c, chain, h);
      SameNextModifier(c, d, chain[..h], chain[h].modifier, chain[h].generated);
    }
  }

  lemma AppendKeepsComputed(c: Context, chain: seq<Block>, b: Block)
    requires c.interval > 0 && DistinctBlocks(chain + [b]) && Indexed(c, chain + [b])
    requires DistinctBlocks(chain) && Indexed(c, chain) && Computed(c, chain)
    requires NextModifier(c, chain, b.modifier, b.generated)
    ensures Computed(c, chain + [b])
  {
    hide NextModifier;
    var all := chain + [b];
    forall h | 0 <= h < |all| ensures ComputedAt(c, all, h) {
      if h < |chain| {
        assert ComputedAt(c, chain, h);
        assert all[..h] == chain[..h];
      } else {
        assert all[..h] == chain;
      }
    }
  }

  // What the checksum of a block is made of besides the checksum before it.
  datatype Summed = Summed(proofOfStake: bool, entropy: bool, generated: bool, hashProof: Hash, modifier: nat)

  type Summing = (Option<nat>, Summed) -> nat

  // The checksums that are fixed in the code, by height; none on the test network.
  datatype Hardened = Hardened(sum: Summing, marks: map<nat, nat>)

  function SummedOf(b: Block): Summed { Summed(b.proofOfStake, b.entropy, b.generated, b.hashProof, b.modifier) }

  function Sum(k: Hardened, before: Option<nat>, part: Summed): nat { k.sum(before, part) }

  // The checksum of the last block.
  function Checksum(k: Hardened, chain: seq<Block>): nat
    requires chain != []
  {
    var n := |chain| - 1;
    Sum(k, if n == 0 then None else Some(Checksum(k, chain[..n])), SummedOf(chain[n]))
  }

  predicate Passes(k: Hardened, chain: seq<Block>)
    requires chain != []
  {
    |chain| - 1 in k.marks ==> k.marks[|chain| - 1] == Checksum(k, chain)
  }

  // What is summed for the block at height h.
  function Input(k: Hardened, chain: seq<Block>, h: nat): (Option<nat>, Summed)
    requires h < |chain|
  {
    (if h == 0 then None else Some(Checksum(k, chain[..h])), SummedOf(chain[h]))
  }

  // Different blocks with one checksum.
  predicate CollideAt(k: Hardened, x: seq<Block>, y: seq<Block>, h: nat)
    requires h < |x| && h < |y|
  {
    Input(k, x, h) != Input(k, y, h) && Checksum(k, x[..h + 1]) == Checksum(k, y[..h + 1])
  }

  // Chains with one checksum at a height have the same flags, proofs and modifiers up to it, unless
  // checksums of theirs collide on the way.
  lemma {:induction false} ChecksumPins(k: Hardened, x: seq<Block>, y: seq<Block>, mark: nat)
    requires mark < |x| && mark < |y| && Checksum(k, x[..mark + 1]) == Checksum(k, y[..mark + 1])
    ensures (forall h :: 0 <= h <= mark ==> SummedOf(x[h]) == SummedOf(y[h]))
            || exists h: nat :: h <= mark && CollideAt(k, x, y, h)
  {
    hide SummedOf, Checksum;
    if !CollideAt(k, x, y, mark) && mark > 0 {
      ChecksumPins(k, x, y, mark - 1);
    }
  }

  predicate SameParts(a: Block, b: Block) {
    && a.proofOfStake == b.proofOfStake && a.entropy == b.entropy && a.generated == b.generated
    && a.hashProof == b.hashProof && a.modifier == b.modifier
  }

  // So do two chains that have passed the same mark.
  lemma MarkedAlike(k: Hardened, x: seq<Block>, y: seq<Block>, mark: nat)
    requires mark in k.marks && mark < |x| && mark < |y|
    requires Passes(k, x[..mark + 1]) && Passes(k, y[..mark + 1])
    ensures (forall h :: 0 <= h <= mark ==> SameParts(x[h], y[h]))
            || exists h: nat :: h <= mark && CollideAt(k, x, y, h)
  {
    hide Checksum, CollideAt;
    ChecksumPins(k, x, y, mark);
    assert forall h :: 0 <= h <= mark && SummedOf(x[h]) == SummedOf(y[h]) ==> SameParts(x[h], y[h]);
  }

  // The block b after chain, with the modifier computed from it.
  ghost predicate IsEntered(c: Context, chain: seq<Block>, b: Block, entered: Block)
    requires c.interval > 0 && Indexed(c, chain) && DistinctBlocks(chain) && b == Bare(b)
  {
    Bare(entered) == b && NextModifier(c, chain, entered.modifier, entered.generated)
  }

  // Enters a new block, which follows chain, into the index; nothing when it is there already, no
  // modifier can be computed, or its checksum is not the one fixed for its height.
  method AddToBlockIndex(c: Context, k: Hardened, chain: seq<Block>, b: Block)
    returns (r: Option<(Context, seq<Block>)>)
    requires c.interval > 0 && Indexed(c, chain) && DistinctBlocks(chain)
    requires b == Bare(b)
    ensures Computed(c, chain) ==>
              (r.None? <==> b.hash in c.index
                            || exists e :: IsEntered(c, chain, b, e) && !Passes(k, chain + [e]))
    ensures r.Some? ==>
              var (d, all) := r.value;
              && |all| == |chain| + 1 && all[..|chain|] == chain && IsEntered(c, chain, b, all[|chain|])
              && Passes(k, all)
              && d == c.(index := c.index[b.hash := all[|chain|]])
              && Indexed(d, all) && DistinctBlocks(all)
              && (Computed(c, chain) ==> Computed(d, all))
              && forall other :: Indexed(c, other) && DistinctBlocks(other) && Computed(c, other) ==>
                   Indexed(d, other) && Computed(d, other)
  {
    hide NextModifier, Computed, Passes;
    if Computed(c, chain) && chain != [] { NeverWithoutModifier(c, chain); }
    if b.hash in c.index {
      return None;
    }
    var next := ComputeNextStakeModifier(c, chain);
    if next.None? {
      return None;
    }
    var entered := SetStakeModifier(b, next.value.0, next.value.1);
    EnteredIsUnique(c, chain, b, entered);
    assert IsEntered(c, chain, b, entered);
    if !Passes(k, chain + [entered]) {
      return None;
    }
    var d := c.(index := c.index[b.hash := entered]);
    forall other | Indexed(c, other) && DistinctBlocks(other) && Computed(c, other)
      ensures Indexed(d, other) && Computed(d, other)
    {
      ComputedKept(c, d, other);
    }
    SameNextModifier(c, d, chain, next.value.0, next.value.1);
    if Computed(c, chain) { AppendKeepsComputed(d, chain, entered); }
    return Some((d, chain + [entered]));
  }

  lemma EnteredIsUnique(c: Context, chain: seq<Block>, b: Block, entered: Block)
    requires c.interval > 0 && Indexed(c, chain) && DistinctBlocks(chain) && b == Bare(b)
    requires IsEntered(c, chain, b, entered)
    ensures forall e :: IsEntered(c, chain, b, e) ==> e == entered
  {
    hide NextModifier;
    forall e | IsEntered(c, chain, b, e) ensures e == entered {
      NextModifierIsUnique(c, chain, e.modifier, e.generated, entered.modifier, entered.generated);
    }
  }

  // ----- the modifier for a kernel

  // The first block after i that generated a modifier at time target or later.
  function FirstLater(main: seq<Block>, i: nat, target: nat): (j: nat)
    requires i < |main|
    ensures i < j <= |main|
    ensures j < |main| ==> main[j].generated && main[j].time >= target
    ensures forall k :: i < k < j ==> !(main[k].generated && main[k].time >= target)
    decreases |main| - i
  {
    if i + 1 == |main| || (main[i + 1].generated && main[i + 1].time >= target) then i + 1
    else FirstLater(main, i + 1, target)
  }

  datatype KernelModifier = KernelModifier(modifier: nat, height: nat, time: nat)

  // What the kernel of a coin in block `from` hashes with; on the main chain the block has its height
  // there, and off it no next block.
  function KernelModifierFor(c: Context, main: seq<Block>, from: Block): Option<KernelModifier> {
    if from !in main then None
    else
      var i := HeightOf(main, from);
      var j := FirstLater(main, i, from.time + Sections(c, ROUNDS));
      if j == |main| then None else Some(KernelModifier(main[j].modifier, j, main[j].time))
  }

  function HeightOf(main: seq<Block>, b: Block): (h: nat)
    requires b in main
    ensures h < |main| && main[h] == b
    ensures forall i :: 0 <= i < h ==> main[i] != b
  {
    if main[0] == b then 0 else 1 + HeightOf(main[1..], b)
  }

  lemma SectionsPositive(c: Context)
    requires c.interval > 0
    ensures Sections(c, ROUNDS) > 0
  {
    assert Section(c, 63) == c.interval;
  }

  // Some block generated a modifier at height k, at time target or later.
  predicate GeneratesBy(main: seq<Block>, k: nat, target: nat)
    requires k < |main|
  {
    main[k].generated && main[k].time >= target
  }

  // The modifier, height and time are those of the first block after the one asked for that generated a
  // modifier at least a selection interval later; there is no answer when there is no such block.
  ghost predicate KernelAnswer(c: Context, main: seq<Block>, from: Block, r: Option<KernelModifier>) {
    var target := from.time + Sections(c, 64);
    if from !in main then r.None?
    else
      exists i: nat ::
        && i < |main| && main[i] == from && from !in main[..i]
        && match r
           case None => forall k :: i < k < |main| ==> !GeneratesBy(main, k, target)
           case Some(a) =>
             && i < a.height < |main| && GeneratesBy(main, a.height, target)
             && (forall k :: i < k < a.height ==> !GeneratesBy(main, k, target))
             && a.modifier == main[a.height].modifier && a.time == main[a.height].time
  }

  lemma KernelModifierIs(c: Context, main: seq<Block>, from: Block)
    ensures KernelAnswer(c, main, from, KernelModifierFor(c, main, from))
  {
    hide Sections;
    if from in main {
      var i := HeightOf(main, from);
      assert from !in main[..i];
    }
  }

  method GetKernelStakeModifier(c: Context, main: seq<Block>, hashFrom: Hash) returns (r: Option<KernelModifier>)
    requires c.interval > 0
    ensures r == if hashFrom in c.index then KernelModifierFor(c, main, c.index[hashFrom]) else None
    ensures if hashFrom in c.index then KernelAnswer(c, main, c.index[hashFrom], r) else r.None?
  {
    hide KernelAnswer;
    if hashFrom in c.index { KernelModifierIs(c, main, c.index[hashFrom]); }
    if hashFrom !in c.index {
      return None;
    }
    var from := c.index[hashFrom];
    var total := SelectionInterval(c);
    SectionsPositive(c);
    if from !in main {
      return None;
    }
    var i := HeightOf(main, from);
    var height, time := i, from.time;
    var j := i;
    while time < from.time + total
      invariant i <= j < |main| && (time >= from.time + total ==> j > i)
      invariant time < from.time + total ==>
                  FirstLater(main, i, from.time + total) == FirstLater(main, j, from.time + total)
      invariant time >= from.time + total ==>
                  FirstLater(main, i, from.time + total) == j && main[j].time == time && height == j
      decreases |main| - j, if time < from.time + total then 1 else 0
    {
      if j + 1 == |main| {
        return None;
      }
      j := j + 1;
      if main[j].generated {
        height, time := j, main[j].time;
      }
    }
    return Some(KernelModifier(main[j].modifier, height, time));
  }

  lemma {:induction false} FirstLaterExtends(main: seq<Block>, more: seq<Block>, i: nat, target: nat)
    requires i < |main| && FirstLater(main, i, target) < |main|
    ensures FirstLater(main + more, i, target) == FirstLater(main, i, target)
    decreases |main| - i
  {
    if !(main[i + 1].generated && main[i + 1].time >= target) {
      FirstLaterExtends(main, more, i + 1, target);
    }
  }

  // Once there is a modifier for a kernel, extending the main chain does not change it.
  lemma KernelModifierIsStable(c: Context, main: seq<Block>, more: seq<Block>, from: Block)
    requires KernelModifierFor(c, main, from).Some?
    ensures KernelModifierFor(c, main + more, from) == KernelModifierFor(c, main, from)
  {
    var i := HeightOf(main, from);
    assert (main + more)[i] == from;
    var j := HeightOf(main + more, from);
    assert j <= i;
    assert main[j] == from;
    assert i == j;
    FirstLaterExtends(main, more, i, from.time + Sections(c, ROUNDS));
  }
}
