/** The Merkle tree of a block's transactions, its branches and their check. The hash of a pair is
    an uninterpreted function. */
module Merkle {
  import opened Arith

  type Hash = nat
  type Pairing = (Hash, Hash) -> Hash

  function Pair(pair: Pairing, a: Hash, b: Hash): Hash { pair(a, b) }

  // i ^ 1
  function Flip(i: nat): nat { if i % 2 == 0 then i + 1 else i - 1 }

  // The other child of the same parent, or the last node when there is none.
  function Sibling(index: nat, size: nat): (r: nat)
    requires size > 0
    ensures r < size
  {
    Min(Flip(index), size - 1)
  }

  // Half of n, rounded up.
  function Half(n: nat): (r: nat)
    ensures n > 1 ==> 0 < r < n
    ensures n == 1 ==> r == 1
  {
    (n + 1) / 2
  }

  // ----- the tree, from the top down

  // How many nodes the tree has h levels above its leaves.
  function Width(leaves: nat, h: nat): (w: nat)
    ensures leaves > 0 ==> w > 0
  {
    if h == 0 then leaves else Half(Width(leaves, h - 1))
  }

  // Node i of level h: the pair of its two children, of which a missing right one is the left one
  // once more.
  function Node(pair: Pairing, leaves: seq<Hash>, h: nat, i: nat): Hash
    requires i < Width(|leaves|, h)
    decreases h
  {
    if h == 0 then leaves[i]
    else
      var right := if 2 * i + 1 < Width(|leaves|, h - 1) then 2 * i + 1 else 2 * i;
      Pair(pair, Node(pair, leaves, h - 1, 2 * i), Node(pair, leaves, h - 1, right))
  }

  // The hash of a node is that of its left child followed by its right one; alone the left one counts twice.
  lemma NodeIs(pair: Pairing, leaves: seq<Hash>, h: nat, i: nat)
    requires h > 0 && i < Width(|leaves|, h)
    ensures 2 * i < Width(|leaves|, h - 1)
    ensures Node(pair, leaves, h, i) ==
            if 2 * i + 1 < Width(|leaves|, h - 1)
            then pair(Node(pair, leaves, h - 1, 2 * i), Node(pair, leaves, h - 1, 2 * i + 1))
            else pair(Node(pair, leaves, h - 1, 2 * i), Node(pair, leaves, h - 1, 2 * i))
  {
  }

  // ----- the tree, level by level

  function Up(pair: Pairing, level: seq<Hash>): (up: seq<Hash>)
    ensures |up| == Half(|level|)
  {
    seq(Half(|level|), i requires 0 <= i < Half(|level|) => PairAt(pair, level, i))
  }

  // The node above nodes 2i and 2i + 1.
  function PairAt(pair: Pairing, level: seq<Hash>, i: nat): Hash
    requires i < Half(|level|)
  {
    Pair(pair, level[2 * i], level[Min(2 * i + 1, |level| - 1)])
  }

  // The levels one after the other.
  function Flat(pair: Pairing, level: seq<Hash>): seq<Hash>
    decreases |level|
  {
    if |level| <= 1 then level else level + Flat(pair, Up(pair, level))
  }

  function Root(pair: Pairing, level: seq<Hash>): Hash
    decreases |level|
  {
    if |level| == 0 then 0 else if |level| == 1 then level[0] else Root(pair, Up(pair, level))
  }

  function Branch(pair: Pairing, level: seq<Hash>, index: nat): seq<Hash>
    decreases |level|
  {
    if |level| <= 1 then []
    else [level[Sibling(index, |level|)]] + Branch(pair, Up(pair, level), index / 2)
  }

  function Climb(pair: Pairing, hash: Hash, branch: seq<Hash>, index: int): Hash
    decreases |branch|
  {
    if branch == [] then hash
    else Climb(pair, if index % 2 == 1 then Pair(pair, branch[0], hash) else Pair(pair, hash, branch[0]),
               branch[1..], index / 2)
  }

  function Height(leaves: nat): nat {
    if leaves <= 1 then 0 else 1 + Height(Half(leaves))
  }

  // ----- the levels are the tree

  lemma RightChild(i: nat, n: nat)
    requires i < Half(n)
    ensures 2 * i < n && Min(2 * i + 1, n - 1) == if 2 * i + 1 < n then 2 * i + 1 else 2 * i
  {
  }

  lemma FirstLevel(pair: Pairing, leaves: seq<Hash>, i: nat)
    requires i < Half(|leaves|)
    ensures i < Width(|leaves|, 1) && Node(pair, leaves, 1, i) == Up(pair, leaves)[i]
    ensures Node(pair, Up(pair, leaves), 0, i) == Up(pair, leaves)[i]
  {
    hide Pair, Min, Half;
    RightChild(i, |leaves|);
  }

  lemma Parent(pair: Pairing, leaves: seq<Hash>, h: nat, i: nat, right: nat)
    requires i < Half(Width(|leaves|, h))
    requires right == if 2 * i + 1 < Width(|leaves|, h) then 2 * i + 1 else 2 * i
    ensures Width(|leaves|, h + 1) == Half(Width(|leaves|, h)) && right < Width(|leaves|, h)
            && 2 * i < Width(|leaves|, h)
    ensures Node(pair, leaves, h + 1, i) == Pair(pair, Node(pair, leaves, h, 2 * i), Node(pair, leaves, h, right))
  {
    hide Pair;
  }

  lemma {:induction false} LevelUp(pair: Pairing, leaves: seq<Hash>, h: nat, i: nat)
    requires i < Width(Half(|leaves|), h)
    ensures i < Width(|leaves|, h + 1) && Node(pair, leaves, h + 1, i) == Node(pair, Up(pair, leaves), h, i)
    decreases h
  {
    hide *;
    WidthUp(|leaves|, h);
    if h == 0 {
      WidthZero(Half(|leaves|));
      FirstLevel(pair, leaves, i);
    } else {
      WidthUp(|leaves|, h - 1);
      var right := if 2 * i + 1 < Width(|leaves|, h) then 2 * i + 1 else 2 * i;
      var up := Up(pair, leaves);
      WidthStep(|leaves|, h);
      WidthStep(|up|, h - 1);
      Parent(pair, leaves, h, i, right);
      Parent(pair, up, h - 1, i, right);
      LevelUp(pair, leaves, h - 1, 2 * i);
      LevelUp(pair, leaves, h - 1, right);
    }
  }

  lemma WidthZero(leaves: nat)
    ensures Width(leaves, 0) == leaves
  {
  }

  lemma WidthStep(leaves: nat, h: nat)
    ensures Width(leaves, h + 1) == Half(Width(leaves, h))
  {
  }

  lemma {:induction false} WidthUp(leaves: nat, h: nat)
    ensures Width(leaves, h + 1) == Width(Half(leaves), h)
  {
    if h > 0 { WidthUp(leaves, h - 1); }
  }

  lemma {:induction false} TopIsNarrow(leaves: nat)
    requires leaves > 0
    ensures Width(leaves, Height(leaves)) == 1
  {
    if leaves > 1 {
      TopIsNarrow(Half(leaves));
      WidthUp(leaves, Height(Half(leaves)));
    }
  }

  // The root is the top node of the tree.
  lemma {:induction false} RootIsTop(pair: Pairing, leaves: seq<Hash>)
    requires |leaves| > 0
    ensures Width(|leaves|, Height(|leaves|)) == 1
    ensures Root(pair, leaves) == Node(pair, leaves, Height(|leaves|), 0)
    decreases |leaves|
  {
    TopIsNarrow(|leaves|);
    if |leaves| > 1 {
      var up := Up(pair, leaves);
      RootIsTop(pair, up);
      LevelUp(pair, leaves, Height(|up|), 0);
    }
  }

  lemma SmallRoots(pair: Pairing, a: Hash, b: Hash, c: Hash)
    ensures Root(pair, []) == 0 && Root(pair, [a]) == a && Root(pair, [a, b]) == pair(a, b)
    ensures Root(pair, [a, b, c]) == pair(pair(a, b), pair(c, c))
  {
    assert Up(pair, [a, b]) == [pair(a, b)];
    assert Up(pair, [a, b, c]) == [pair(a, b), pair(c, c)];
    assert Up(pair, [pair(a, b), pair(c, c)]) == [pair(pair(a, b), pair(c, c))];
    assert Root(pair, [a, b, c]) == Root(pair, Up(pair, [a, b, c]));
    assert Root(pair, [pair(a, b), pair(c, c)]) == Root(pair, Up(pair, [pair(a, b), pair(c, c)]));
  }

  // Where level h begins in the array.
  function Start(leaves: nat, h: nat): nat {
    if h == 0 then 0 else Start(leaves, h - 1) + Width(leaves, h - 1)
  }

  lemma {:induction false} StartUp(leaves: nat, h: nat)
    ensures Start(leaves, h + 1) == leaves + Start(Half(leaves), h)
  {
    if h > 0 {
      StartUp(leaves, h - 1);
      WidthUp(leaves, h - 1);
    }
  }

  lemma FlatStep(pair: Pairing, level: seq<Hash>)
    requires |level| > 1
    ensures Flat(pair, level) == level + Flat(pair, Up(pair, level))
    ensures Root(pair, level) == Root(pair, Up(pair, level))
  {
  }

  lemma Regroup(tree: seq<Hash>, j: nat, above: seq<Hash>)
    requires j <= |tree|
    ensures tree[..j] + (tree[j..] + above) == tree + above
  {
  }

  lemma BranchStep(pair: Pairing, level: seq<Hash>, index: nat)
    requires |level| > 1
    ensures Branch(pair, level, index) ==
            [level[Sibling(index, |level|)]] + Branch(pair, Up(pair, level), index / 2)
  {
  }

  lemma OneLevel(pair: Pairing, level: seq<Hash>)
    requires |level| <= 1
    ensures Flat(pair, level) == level && Root(pair, level) == if level == [] then 0 else level[0]
  {
  }

  lemma BottomRow(pair: Pairing, leaves: seq<Hash>)
    ensures Width(|leaves|, 0) == |leaves| && Start(|leaves|, 0) == 0
    ensures forall i: nat :: i < |leaves| ==> Node(pair, leaves, 0, i) == leaves[i]
    ensures |leaves| <= 1 ==> Height(|leaves|) == 0
    ensures |leaves| > 1 ==> Height(|leaves|) == Height(Half(|leaves|)) + 1
  {
  }

  // Every node of the tree stands in the array, level after level from the leaves.
  lemma {:induction false} FlatIsTree(pair: Pairing, leaves: seq<Hash>, h: nat, i: nat)
    requires h <= Height(|leaves|) && i < Width(|leaves|, h)
    ensures Start(|leaves|, h) + i < |Flat(pair, leaves)|
    ensures Flat(pair, leaves)[Start(|leaves|, h) + i] == Node(pair, leaves, h, i)
    decreases |leaves|
  {
    hide Flat, Node, Width, Start, Height, Up;
    BottomRow(pair, leaves);
    if |leaves| <= 1 {
      OneLevel(pair, leaves);
    } else {
      FlatStep(pair, leaves);
      if h > 0 {
        var up := Up(pair, leaves);
        WidthUp(|leaves|, h - 1);
        StartUp(|leaves|, h - 1);
        FlatIsTree(pair, up, h - 1, i);
        LevelUp(pair, leaves, h - 1, i);
      }
    }
  }

  // And nothing else does.
  lemma {:induction false} FlatLength(pair: Pairing, leaves: seq<Hash>)
    requires |leaves| > 0
    ensures |Flat(pair, leaves)| == Start(|leaves|, Height(|leaves|)) + 1
    decreases |leaves|
  {
    if |leaves| > 1 {
      FlatLength(pair, Up(pair, leaves));
      StartUp(|leaves|, Height(Half(|leaves|)));
    }
  }

  lemma {:induction false} FlatEndsInRoot(pair: Pairing, leaves: seq<Hash>)
    requires |leaves| > 0
    ensures |Flat(pair, leaves)| > 0 && Flat(pair, leaves)[|Flat(pair, leaves)| - 1] == Root(pair, leaves)
    decreases |leaves|
  {
    if |leaves| > 1 {
      FlatEndsInRoot(pair, Up(pair, leaves));
    }
  }

  // ----- branches

  lemma {:induction false} BranchLength(pair: Pairing, leaves: seq<Hash>, index: nat)
    ensures |Branch(pair, leaves, index)| == Height(|leaves|)
    decreases |leaves|
  {
    if |leaves| > 1 {
      BranchLength(pair, Up(pair, leaves), index / 2);
    }
  }

  // The branch of a leaf leads from it to the root.
  lemma {:induction false} BranchLeadsToRoot(pair: Pairing, leaves: seq<Hash>, index: nat)
    requires index < |leaves|
    ensures Climb(pair, leaves[index], Branch(pair, leaves, index), index) == Root(pair, leaves)
    decreases |leaves|
  {
    if |leaves| > 1 {
      var up := Up(pair, leaves);
      var side := leaves[Sibling(index, |leaves|)];
      assert up[index / 2] ==
             if index % 2 == 1 then Pair(pair, side, leaves[index]) else Pair(pair, leaves[index], side);
      BranchLeadsToRoot(pair, up, index / 2);
    }
  }

  // No two pairs have one hash.
  ghost predicate Injective(pair: Pairing) {
    forall a, b, c, d {:trigger Pair(pair, a, b), Pair(pair, c, d)} :: pair(a, b) == pair(c, d) ==> a == c && b == d
  }

  // Branches of one length to one root from one index are the same branch.
  lemma {:induction false} ClimbInjective(pair: Pairing, a: Hash, x: seq<Hash>, b: Hash, y: seq<Hash>, index: int)
    requires Injective(pair) && |x| == |y| && Climb(pair, a, x, index) == Climb(pair, b, y, index)
    ensures a == b && x == y
    decreases |x|
  {
    if x != [] {
      if index % 2 == 1 {
        ClimbInjective(pair, Pair(pair, x[0], a), x[1..], Pair(pair, y[0], b), y[1..], index / 2);
      } else {
        ClimbInjective(pair, Pair(pair, a, x[0]), x[1..], Pair(pair, b, y[0]), y[1..], index / 2);
      }
      assert x == [x[0]] + x[1..] && y == [y[0]] + y[1..];
    }
  }

  // Whatever checks against the root at a leaf's index, with a branch of the height of the tree, is
  // that leaf.
  lemma OnlyTheLeafChecks(pair: Pairing, leaves: seq<Hash>, index: nat, hash: Hash, branch: seq<Hash>)
    requires Injective(pair) && index < |leaves| && |branch| == Height(|leaves|)
    requires Climb(pair, hash, branch, index) == Root(pair, leaves)
    ensures hash == leaves[index] && branch == Branch(pair, leaves, index)
  {
    BranchLeadsToRoot(pair, leaves, index);
    BranchLength(pair, leaves, index);
    ClimbInjective(pair, hash, branch, leaves[index], Branch(pair, leaves, index), index);
  }

  // ----- when two lists have the same root

  // Lists of one length with one root are the same list.
  lemma {:induction false} RootInjective(pair: Pairing, x: seq<Hash>, y: seq<Hash>)
    requires Injective(pair) && |x| == |y| && Root(pair, x) == Root(pair, y)
    ensures x == y
    decreases |x|
  {
    if |x| > 1 {
      var up, up' := Up(pair, x), Up(pair, y);
      RootInjective(pair, up, up');
      hide Root, Pair;
      forall i | 0 <= i < |x| ensures x[i] == y[i] {
        assert up[i / 2] == up'[i / 2] && up[i / 2] == PairAt(pair, x, i / 2) && up'[i / 2] == PairAt(pair, y, i / 2);
      }
    }
  }

  // An odd number of transactions and the same with the last one repeated have one root.
  lemma LastTwice(pair: Pairing, x: seq<Hash>)
    requires |x| % 2 == 1 && |x| > 1
    ensures Root(pair, x + [x[|x| - 1]]) == Root(pair, x)
  {
    hide *;
    var y := x + [x[|x| - 1]];
    HalfOfOdd(|x|);
    assert Up(pair, x) == Up(pair, y) by {
      forall i | 0 <= i < Half(|x|) ensures Up(pair, x)[i] == Up(pair, y)[i] {
        PairOfLastTwice(pair, x, y, i);
      }
    }
    FlatStep(pair, x);
    FlatStep(pair, y);
  }

  lemma HalfOfOdd(n: nat)
    requires n % 2 == 1
    ensures Half(n + 1) == Half(n)
  {
  }

  lemma PairOfLastTwice(pair: Pairing, x: seq<Hash>, y: seq<Hash>, i: nat)
    requires |x| % 2 == 1 && y == x + [x[|x| - 1]] && i < Half(|x|) && i < Half(|y|)
    ensures Up(pair, y)[i] == Up(pair, x)[i]
  {
    hide Pair, Half, Min;
    RightChild(i, |x|);
    RightChild(i, |y|);
  }

  // The leaves under node i of level h, where a missing right child is the left one once more.
  function Under(leaves: seq<Hash>, h: nat, i: nat): (u: seq<Hash>)
    requires i < Width(|leaves|, h)
    ensures |u| == Pow2(h)
    decreases h
  {
    if h == 0 then [leaves[i]]
    else
      var right := if 2 * i + 1 < Width(|leaves|, h - 1) then 2 * i + 1 else 2 * i;
      Under(leaves, h - 1, 2 * i) + Under(leaves, h - 1, right)
  }

  // Nodes of one level, even of different trees, are equal if and only if the leaves under them are.
  lemma {:induction false} SameNode(pair: Pairing, x: seq<Hash>, y: seq<Hash>, h: nat, i: nat, j: nat)
    requires Injective(pair) && i < Width(|x|, h) && j < Width(|y|, h)
    ensures Node(pair, x, h, i) == Node(pair, y, h, j) <==> Under(x, h, i) == Under(y, h, j)
    decreases h
  {
    hide *;
    if h == 0 {
      BottomRow(pair, x);
      BottomRow(pair, y);
      UnderLeaf(x, i);
      UnderLeaf(y, j);
    } else {
      WidthStep(|x|, h - 1);
      WidthStep(|y|, h - 1);
      var i2 := if 2 * i + 1 < Width(|x|, h - 1) then 2 * i + 1 else 2 * i;
      var j2 := if 2 * j + 1 < Width(|y|, h - 1) then 2 * j + 1 else 2 * j;
      Parent(pair, x, h - 1, i, i2);
      Parent(pair, y, h - 1, j, j2);
      UnderStep(x, h - 1, i, i2);
      UnderStep(y, h - 1, j, j2);
      SameNode(pair, x, y, h - 1, 2 * i, 2 * j);
      SameNode(pair, x, y, h - 1, i2, j2);
      SamePair(pair, Node(pair, x, h - 1, 2 * i), Node(pair, x, h - 1, i2),
               Node(pair, y, h - 1, 2 * j), Node(pair, y, h - 1, j2));
      SameHalves(Under(x, h - 1, 2 * i), Under(x, h - 1, i2), Under(y, h - 1, 2 * j), Under(y, h - 1, j2));
    }
  }

  lemma UnderLeaf(leaves: seq<Hash>, i: nat)
    requires i < |leaves|
    ensures i < Width(|leaves|, 0) && Under(leaves, 0, i) == [leaves[i]]
  {
  }

  lemma UnderStep(leaves: seq<Hash>, h: nat, i: nat, right: nat)
    requires i < Half(Width(|leaves|, h))
    requires right == if 2 * i + 1 < Width(|leaves|, h) then 2 * i + 1 else 2 * i
    ensures i < Width(|leaves|, h + 1) && 2 * i < Width(|leaves|, h) && right < Width(|leaves|, h)
    ensures Under(leaves, h + 1, i) == Under(leaves, h, 2 * i) + Under(leaves, h, right)
  {
  }

  lemma SamePair(pair: Pairing, a: Hash, b: Hash, c: Hash, d: Hash)
    requires Injective(pair)
    ensures Pair(pair, a, b) == Pair(pair, c, d) <==> a == c && b == d
  {
  }

  lemma SameHalves(a: seq<Hash>, b: seq<Hash>, c: seq<Hash>, d: seq<Hash>)
    requires |a| == |c|
    ensures a + b == c + d <==> a == c && b == d
  {
    assert (a + b)[..|a|] == a && (a + b)[|a|..] == b;
    assert (c + d)[..|c|] == c && (c + d)[|c|..] == d;
  }

  // The level n levels further up.
  function Lifted(pair: Pairing, level: seq<Hash>, n: nat): seq<Hash>
    decreases n
  {
    if n == 0 then level else Lifted(pair, Up(pair, level), n - 1)
  }

  lemma {:induction false} LiftedRoot(pair: Pairing, level: seq<Hash>, n: nat)
    requires level != [] && n <= Height(|level|)
    ensures Lifted(pair, level, n) != [] && Height(|Lifted(pair, level, n)|) == Height(|level|) - n
    ensures Root(pair, Lifted(pair, level, n)) == Root(pair, level)
    decreases n
  {
    if n > 0 {
      FlatStep(pair, level);
      LiftedRoot(pair, Up(pair, level), n - 1);
    }
  }

  // In general: the lists, the longer one lifted to the height of the other, have the same leaves under
  // their roots.
  lemma SameRoot(pair: Pairing, x: seq<Hash>, y: seq<Hash>)
    requires Injective(pair) && x != [] && y != [] && Height(|x|) <= Height(|y|)
    ensures var h, lifted := Height(|x|), Lifted(pair, y, Height(|y|) - Height(|x|));
            && Width(|x|, h) == 1 && Width(|lifted|, h) == 1
            && (Root(pair, x) == Root(pair, y) <==> Under(x, h, 0) == Under(lifted, h, 0))
  {
    hide *;
    var h, lifted := Height(|x|), Lifted(pair, y, Height(|y|) - Height(|x|));
    LiftedRoot(pair, y, Height(|y|) - h);
    RootIsTop(pair, x);
    RootIsTop(pair, lifted);
    SameNode(pair, x, lifted, h, 0, 0);
  }

  // No leaf is the hash of a pair.
  ghost predicate NoPairs(pair: Pairing, leaves: seq<Hash>) {
    forall k, a, b {:trigger leaves[k], Pair(pair, a, b)} :: 0 <= k < |leaves| ==> leaves[k] != pair(a, b)
  }

  lemma AboveTwo(pair: Pairing, leaves: seq<Hash>, h: nat, i: nat) returns (right: nat)
    requires h > 0 && i < Width(|leaves|, h)
    ensures 2 * i < Width(|leaves|, h - 1) && right < Width(|leaves|, h - 1)
    ensures Node(pair, leaves, h, i) == Pair(pair, Node(pair, leaves, h - 1, 2 * i), Node(pair, leaves, h - 1, right))
  {
    hide *;
    WidthStep(|leaves|, h - 1);
    right := if 2 * i + 1 < Width(|leaves|, h - 1) then 2 * i + 1 else 2 * i;
    Parent(pair, leaves, h - 1, i, right);
  }

  // Then equal nodes, even of different trees, are on one level.
  lemma {:induction false} SameLevel(pair: Pairing, x: seq<Hash>, h: nat, i: nat, y: seq<Hash>, g: nat, j: nat)
    requires Injective(pair) && NoPairs(pair, x) && NoPairs(pair, y)
    requires i < Width(|x|, h) && j < Width(|y|, g) && Node(pair, x, h, i) == Node(pair, y, g, j)
    ensures h == g
    decreases h
  {
    hide Width, Node;
    BottomRow(pair, x);
    BottomRow(pair, y);
    if h > 0 {
      var right := AboveTwo(pair, x, h, i);
      if g > 0 {
        var right' := AboveTwo(pair, y, g, j);
        SamePair(pair, Node(pair, x, h - 1, 2 * i), Node(pair, x, h - 1, right),
                 Node(pair, y, g - 1, 2 * j), Node(pair, y, g - 1, right'));
        SameLevel(pair, x, h - 1, 2 * i, y, g - 1, 2 * j);
      }
    } else if g > 0 {
      var right := AboveTwo(pair, y, g, j);
    }
  }

  // In general, when no transaction is the hash of a pair: the trees are equally high, and have the same
  // leaves under their roots.
  lemma SameRootExactly(pair: Pairing, x: seq<Hash>, y: seq<Hash>)
    requires Injective(pair) && NoPairs(pair, x) && NoPairs(pair, y) && x != [] && y != []
    ensures Width(|x|, Height(|x|)) == 1 && Width(|y|, Height(|y|)) == 1
    ensures Root(pair, x) == Root(pair, y) <==>
              Height(|x|) == Height(|y|) && Under(x, Height(|x|), 0) == Under(y, Height(|y|), 0)
  {
    hide *;
    RootIsTop(pair, x);
    RootIsTop(pair, y);
    if Root(pair, x) == Root(pair, y) {
      SameLevel(pair, x, Height(|x|), 0, y, Height(|y|), 0);
    }
    if Height(|x|) == Height(|y|) {
      SameNode(pair, x, y, Height(|x|), 0, 0);
    }
  }

  // ----- the code

  class Block {
    const pair: Pairing
    const txs: seq<Hash>
    var tree: seq<Hash>

    // The cached tree is not built yet or is that of the transactions.
    predicate Valid()
      reads this
    {
      tree == [] || tree == Flat(pair, txs)
    }

    constructor (pair: Pairing, txs: seq<Hash>)
      ensures Valid() && this.pair == pair && this.txs == txs
    {
      this.pair := pair;
      this.txs := txs;
      tree := [];
    }

    method BuildMerkleTree() returns (root: Hash)
      modifies this
      ensures tree == Flat(pair, txs) && root == Root(pair, txs)
    {
      tree := [];
      for i := 0 to |txs|
        invariant tree == txs[..i]
      {
        tree := tree + [txs[i]];
      }
      var j, size := 0, |txs|;
      ghost var level := txs;
      hide Flat, Root, Up, Half, Pair;
      while size > 1
        invariant 0 <= j && size == |level| && |tree| == j + size && tree[j..] == level
        invariant tree[..j] + Flat(pair, level) == Flat(pair, txs)
        invariant Root(pair, level) == Root(pair, txs)
        invariant size == 0 ==> j == 0
        decreases size
      {
        ghost var below := tree;
        FlatStep(pair, level);
        Regroup(tree, j, Flat(pair, Up(pair, level)));
        PushLevel(j, size);
        j := j + size;
        size := Half(size);
        level := Up(pair, level);
        assert tree[..j] == below;
      }
      OneLevel(pair, level);
      assert tree == tree[..j] + level;
      assert tree != [] ==> tree[|tree| - 1] == level[0];
      root := if tree == [] then 0 else tree[|tree| - 1];
    }

    // Appends the level above the one at j.
    method PushLevel(j: nat, size: nat)
      requires size > 1 && |tree| == j + size
      modifies this
      ensures tree == old(tree) + Up(pair, old(tree[j..]))
    {
      ghost var level, below := tree[j..], tree;
      var i := 0;
      while i < size
        invariant 0 <= i <= size + 1 && i % 2 == 0
        invariant tree == below + Up(pair, level)[..i / 2]
      {
        var i2 := Min(i + 1, size - 1);
        tree := tree + [Pair(pair, tree[j + i], tree[j + i2])];
        i := i + 2;
      }
    }

    method GetMerkleBranch(index: nat) returns (branch: seq<Hash>)
      requires Valid()
      modifies this
      ensures Valid() && branch == Branch(pair, txs, index)
    {
      hide Flat, Up, Branch, Half, Sibling, Pair, Root, Node, Width, Climb;
      if tree == [] {
        var _ := BuildMerkleTree();
      }
      branch := [];
      var n, j, size := index, 0, |txs|;
      ghost var level := txs;
      assert branch + Branch(pair, level, n) == Branch(pair, txs, index);
      while size > 1
        invariant 0 <= j <= |tree| && size == |level| && tree == Flat(pair, txs)
        invariant tree[j..] == Flat(pair, level)
        invariant branch + Branch(pair, level, n) == Branch(pair, txs, index)
        decreases size
      {
        FlatStep(pair, level);
        BranchStep(pair, level, n);
        var i := Sibling(n, size);
        SplitTree(tree, j, level, Flat(pair, Up(pair, level)), i);
        MoveOver(branch, level[i], Branch(pair, Up(pair, level), n / 2));
        branch := branch + [tree[j + i]];
        n := n / 2;
        j := j + size;
        size := Half(size);
        level := Up(pair, level);
      }
      NoBranch(pair, level, n);
    }
  }

  lemma SplitTree(tree: seq<Hash>, j: nat, level: seq<Hash>, above: seq<Hash>, i: nat)
    requires j <= |tree| && tree[j..] == level + above && i < |level|
    ensures j + |level| <= |tree| && tree[j + |level|..] == above && tree[j + i] == level[i]
  {
    assert tree[j..][i] == level[i];
    assert tree[j + |level|..] == tree[j..][|level|..];
  }

  lemma MoveOver(a: seq<Hash>, x: Hash, b: seq<Hash>)
    ensures a + ([x] + b) == (a + [x]) + b
  {
  }

  lemma NoBranch(pair: Pairing, level: seq<Hash>, index: nat)
    requires |level| <= 1
    ensures Branch(pair, level, index) == []
  {
  }

  // An index of -1 is a transaction that is in no block.
  method CheckMerkleBranch(pair: Pairing, hash: Hash, branch: seq<Hash>, index: int) returns (r: Hash)
    ensures r == if index == -1 then 0 else Climb(pair, hash, branch, index)
  {
    if index == -1 {
      return 0;
    }
    r := hash;
    var n := index;
    for k := 0 to |branch|
      invariant Climb(pair, r, branch[k..], n) == Climb(pair, hash, branch, index)
    {
      assert branch[k..][0] == branch[k] && branch[k..][1..] == branch[k + 1..];
      r := if n % 2 == 1 then Pair(pair, branch[k], r) else Pair(pair, r, branch[k]);
      n := n / 2;
    }
  }
}
