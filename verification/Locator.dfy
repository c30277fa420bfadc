/** Block locators: which ancestors of a block they name, and where another node finds itself by
    them. */
module Locator {
  import opened Arith

  type Hash = nat

  // A block index entry with the links back to the genesis block; Null is the missing link.
  datatype Index = Null | Index(hash: Hash, prev: Index)

  function Depth(p: Index): nat {
    if p.Null? then 0 else 1 + Depth(p.prev)
  }

  // The entry d links back.
  function Back(p: Index, d: nat): Index {
    if d == 0 || p.Null? then p else Back(p.prev, d - 1)
  }

  lemma {:induction false} BackDepth(p: Index, d: nat)
    ensures Depth(Back(p, d)) == if d <= Depth(p) then Depth(p) - d else 0
  {
    if d > 0 && p.Index? { BackDepth(p.prev, d - 1); }
  }

  lemma {:induction false} BackBack(p: Index, d: nat, e: nat)
    ensures Back(Back(p, d), e) == Back(p, d + e)
  {
    if d > 0 && p.Index? { BackBack(p.prev, d - 1, e); }
  }

  function HashAt(p: Index, d: nat): Hash
    requires d < Depth(p)
  {
    BackDepth(p, d);
    Back(p, d).hash
  }

  // ----- the distances a locator names

  // The distance of entry k: 0 to 11 one by one, then 9 + 2^2, 9 + 2^3 and so on.
  function Dist(k: nat): nat {
    if k <= 11 then k else 9 + Pow2(k - 10)
  }

  // The step from entry k to the next.
  function Step(k: nat): nat {
    if k <= 10 then 1 else Pow2(k - 10)
  }

  lemma DistStep(k: nat)
    ensures Dist(k + 1) == Dist(k) + Step(k) && Step(k) > 0
    ensures Step(k + 1) == if k >= 10 then 2 * Step(k) else Step(k)
    ensures Dist(k + 1) > 10 <==> k >= 10
  {
    if k == 10 { assert Pow2(1) == 2; }
    if k == 11 { assert Pow2(2) == 4 && Pow2(1) == 2; }
  }

  // The tip and its ten nearest ancestors, and from the eleventh the gaps double.
  lemma GapsDouble(k: nat)
    ensures k <= 10 ==> Dist(k) == k
    ensures k >= 10 ==> Dist(k + 2) - Dist(k + 1) == 2 * (Dist(k + 1) - Dist(k))
    ensures Dist(11) == 11
  {
    DistStep(k);
    DistStep(k + 1);
  }

  lemma {:induction false} DistGrows(j: nat, k: nat)
    requires j < k
    ensures Dist(j) < Dist(k)
  {
    DistStep(k - 1);
    if j < k - 1 { DistGrows(j, k - 1); }
  }

  // Entries at these distances back from p, as far as there are blocks, and then the genesis block.
  predicate IsLocator(have: seq<Hash>, p: Index, genesis: Hash) {
    && |have| > 0
    && (forall k: nat :: k < |have| - 1 ==> Dist(k) < Depth(p) && have[k] == HashAt(p, Dist(k)))
    && Depth(p) <= Dist(|have| - 1)
    && have[|have| - 1] == genesis
  }

  // At most 12 + log2 h entries for a tip at height h of 11 or more.
  lemma LocatorLength(have: seq<Hash>, p: Index, genesis: Hash)
    requires IsLocator(have, p, genesis) && Depth(p) > 11
    ensures |have| >= 13 && Pow2(|have| - 12) <= Depth(p) - 1
  {
    var n := |have| - 1;
    assert n >= 12;
    assert Dist(n - 1) < Depth(p);
    if n > 12 {
      assert Dist(n - 1) == 9 + Pow2(n - 11);
    } else {
      assert Pow2(1) == 2;
    }
  }

  // ----- finding the first entry of one's own main chain

  // The first entry in main, or the number of entries.
  function First(have: seq<Hash>, main: set<Hash>): (k: nat)
    ensures k <= |have| && (k < |have| ==> have[k] in main)
    ensures forall i :: 0 <= i < k ==> have[i] !in main
  {
    if have == [] then 0 else if have[0] in main then 0 else 1 + First(have[1..], main)
  }

  // The other node's main chain holds the genesis block, and with a block of this branch all its
  // ancestors.
  predicate SharesTrunk(main: set<Hash>, p: Index, genesis: Hash) {
    && Depth(p) > 0 && HashAt(p, Depth(p) - 1) == genesis && genesis in main
    && forall d: nat, e: nat :: d < e < Depth(p) && HashAt(p, d) in main ==> HashAt(p, e) in main
  }

  // How far back the branch of p leaves main.
  function Fork(main: set<Hash>, p: Index, d: nat): (f: nat)
    requires d < Depth(p) && HashAt(p, Depth(p) - 1) in main
    ensures d <= f < Depth(p) && HashAt(p, f) in main
    ensures forall i: nat :: d <= i < f ==> HashAt(p, i) !in main
    decreases Depth(p) - d
  {
    if HashAt(p, d) in main then d else Fork(main, p, d + 1)
  }

  // Where the search lands, counted in blocks back from p.
  function Landing(have: seq<Hash>, main: set<Hash>, p: Index): nat
    requires Depth(p) > 0
  {
    var k := First(have, main);
    if k < |have| - 1 then Dist(k) else Depth(p) - 1
  }

  // The search lands on an ancestor in main, at most twice as far back as the fork.
  lemma LandsNearFork(have: seq<Hash>, main: set<Hash>, p: Index, genesis: Hash)
    requires IsLocator(have, p, genesis) && SharesTrunk(main, p, genesis)
    ensures First(have, main) < |have|
    ensures var d, f := Landing(have, main, p), Fork(main, p, 0);
            && d < Depth(p) && HashAt(p, d) == have[First(have, main)]
            && f <= d <= 2 * f
  {
    hide Dist, First, Fork, HashAt;
    DistStart();
    var k, f := First(have, main), Fork(main, p, 0);
    assert have[|have| - 1] in main;
    if k > 0 {
      assert have[k - 1] !in main;
      assert HashAt(p, Dist(k - 1)) !in main;
      assert f > Dist(k - 1);
      NextAtMostTwice(k - 1, f);
    }
  }

  lemma NextAtMostTwice(k: nat, f: nat)
    requires Dist(k) < f
    ensures Dist(k + 1) <= 2 * f
  {
    if k > 11 {
      assert Pow2(k - 9) == 2 * Pow2(k - 10);
    } else if k == 11 {
      assert Pow2(2) == 4 by { assert Pow2(1) == 2; }
    }
  }

  // What is counted back is the distance of the block that is found, except that the genesis block
  // at the end of the locator counts too far.
  lemma CountedBack(have: seq<Hash>, main: set<Hash>, p: Index, genesis: Hash)
    requires IsLocator(have, p, genesis) && SharesTrunk(main, p, genesis)
    ensures var k := First(have, main);
            && (k < |have| - 1 ==> Dist(k) == Landing(have, main, p))
            && (k == |have| - 1 ==> Dist(k) > Landing(have, main, p) && have[k] == genesis)
  {
  }

  // The chain of n blocks whose hashes are their heights.
  function ChainOf(n: nat): (p: Index)
    ensures Depth(p) == n
  {
    if n == 0 then Null else Index(n - 1, ChainOf(n - 1))
  }

  lemma {:induction false} ChainHashes(n: nat, d: nat)
    requires d < n
    ensures HashAt(ChainOf(n), d) == n - 1 - d
  {
    if d > 0 { ChainHashes(n - 1, d - 1); }
  }

  // Fifteen blocks of which only the genesis block is shared: it is 14 blocks back and counted as 17.
  lemma CountedTooFar(have: seq<Hash>, n: nat)
    requires n == 15 && IsLocator(have, ChainOf(n), 0)
    ensures SharesTrunk({0}, ChainOf(n), 0)
    ensures First(have, {0}) == 13 && Dist(13) == 17 && Landing(have, {0}, ChainOf(n)) == 14
  {
    var p := ChainOf(n);
    hide ChainOf, HashAt, Dist;
    forall d: nat | d < n ensures HashAt(p, d) == n - 1 - d { ChainHashes(n, d); }
    DistFrom12();
    assert |have| == 14 by {
      if |have| < 14 { if |have| - 1 < 12 { DistGrows(|have| - 1, 12); } }
    }
    forall k: nat | k < 13 ensures have[k] != 0 {
      if k < 12 { DistGrows(k, 12); }
      assert have[k] == HashAt(p, Dist(k));
    }
    FirstIs(have, {0}, 13);
  }

  lemma DistFrom12()
    ensures Dist(12) == 13 && Dist(13) == 17
  {
    assert Pow2(1) == 2 && Pow2(2) == 4 && Pow2(3) == 8;
  }

  // Distance and step stay below 2^31 up to entry 40 and no further.
  lemma CountFits(k: nat)
    ensures Dist(k) < Pow2(31) && Step(k) < Pow2(31) <==> k <= 40
  {
    hide Pow2;
    if k > 40 {
      Pow2Grows(31, k - 10);
    } else {
      Pow2Grows(4, 30);
      Pow2Grows(30, 31);
      Sixteen();
      if k > 11 { Pow2Grows(k - 10, 30); }
      if 10 < k <= 11 { Pow2Grows(1, 4); }
      Pow2Step(31);
    }
  }

  lemma Sixteen()
    ensures Pow2(4) == 16
  {
    assert Pow2(1) == 2 && Pow2(2) == 4 && Pow2(3) == 8;
  }

  // So it is on every locator of a chain of at most 2^30 blocks that shares the genesis block.
  lemma LocatorCountFits(have: seq<Hash>, main: set<Hash>, p: Index, genesis: Hash)
    requires IsLocator(have, p, genesis) && SharesTrunk(main, p, genesis) && Depth(p) <= Pow2(30)
    ensures Dist(First(have, main)) < Pow2(31) && Step(First(have, main)) < Pow2(31)
  {
    hide Pow2, Dist, Step, First;
    assert have[|have| - 1] in main;
    CountFits(First(have, main));
    if Depth(p) > 11 {
      LocatorLength(have, p, genesis);
      if |have| - 12 >= 30 { Pow2Grows(30, |have| - 12); }
    } else if |have| > 13 {
      assert Dist(12) < Depth(p);
      DistFrom12();
    }
  }

  class BlockLocator {
    var have: seq<Hash>

    method Set(p: Index, genesis: Hash)
      modifies this
      ensures IsLocator(have, p, genesis)
    {
      have := [];
      var step, at := 1, p;
      hide Dist, Step;
      DistStart();
      while at.Index?
        invariant step == Step(|have|)
        invariant at == Back(p, Dist(|have|))
        invariant forall k: nat :: k < |have| ==> Dist(k) < Depth(p) && have[k] == HashAt(p, Dist(k))
        decreases Depth(at)
      {
        ghost var n := |have|;
        BackDepth(p, Dist(n));
        DistStep(n);
        have := have + [at.hash];
        at := StepBack(at, step);
        BackBack(p, Dist(n), step);
        BackDepth(p, Dist(n + 1));
        if |have| > 10 {
          step := step * 2;
        }
      }
      BackDepth(p, Dist(|have|));
      have := have + [genesis];
    }

    method GetDistanceBack(main: set<Hash>) returns (distance: nat)
      ensures distance == Dist(First(have, main))
      ensures First(have, main) <= 40 <==> distance < Pow2(31) && Step(First(have, main)) < Pow2(31)
    {
      CountFits(First(have, main));
      distance := 0;
      var step := 1;
      hide Dist, Step, Pow2;
      DistStart();
      for k := 0 to |have|
        invariant distance == Dist(k) && step == Step(k)
        invariant forall i :: 0 <= i < k ==> have[i] !in main
      {
        if have[k] in main {
          FirstIs(have, main, k);
          return;
        }
        DistStep(k);
        distance := distance + step;
        if distance > 10 {
          step := step * 2;
        }
      }
      FirstIs(have, main, |have|);
    }

    // The block found, or the genesis block.
    method GetBlockHash(main: set<Hash>, genesis: Hash) returns (found: Hash)
      ensures var k := First(have, main); found == if k < |have| then have[k] else genesis
    {
      for k := 0 to |have|
        invariant forall i :: 0 <= i < k ==> have[i] !in main
      {
        if have[k] in main {
          FirstIs(have, main, k);
          return have[k];
        }
      }
      FirstIs(have, main, |have|);
      return genesis;
    }
  }

  method StepBack(p: Index, step: nat) returns (at: Index)
    ensures at == Back(p, step)
  {
    at := p;
    var i := 0;
    while at.Index? && i < step
      invariant i <= step && Back(at, step - i) == Back(p, step)
      decreases step - i
    {
      at := at.prev;
      i := i + 1;
    }
  }

  lemma DistStart()
    ensures Dist(0) == 0 && Step(0) == 1
  {
  }

  lemma FirstIs(have: seq<Hash>, main: set<Hash>, k: nat)
    requires k <= |have| && (k < |have| ==> have[k] in main)
    requires forall i :: 0 <= i < k ==> have[i] !in main
    ensures First(have, main) == k
  {
  }
}
