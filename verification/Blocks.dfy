/** Cutting a stream of bytes or bits into blocks of one length. */
module Blocks {
  function Concat<T>(bs: seq<seq<T>>): seq<T> {
    if bs == [] then [] else bs[0] + Concat(bs[1..])
  }

  predicate Whole<T>(bs: seq<seq<T>>, lim: nat) {
    forall i :: 0 <= i < |bs| ==> |bs[i]| == lim
  }

  lemma WholeSnoc<T>(bs: seq<seq<T>>, b: seq<T>, lim: nat)
    requires Whole(bs, lim) && |b| == lim
    ensures Whole(bs + [b], lim)
  {
  }

  // The same stream behind the blocks, split at another place.
  lemma Resplit<T>(c: seq<T>, a: seq<T>, b: seq<T>, x: seq<T>, y: seq<T>)
    requires a + b == x + y
    ensures c + a + b == c + x + y
  {
    assert c + a + b == c + (a + b);
  }

  // A full piece becomes a block.
  lemma Completed<T>(c: seq<T>, b: seq<T>, rest: seq<T>)
    ensures c + b + rest == (c + b) + [] + rest
  {
  }

  // The full blocks of m; what is left over is shorter than a block.
  function Cut<T>(m: seq<T>, lim: nat): (bs: seq<seq<T>>)
    requires lim > 0
    ensures Whole(bs, lim)
    decreases |m|
  {
    if |m| < lim then [] else [m[..lim]] + Cut(m[lim..], lim)
  }

  lemma {:induction false} ConcatSnoc<T>(bs: seq<seq<T>>, b: seq<T>)
    ensures Concat(bs + [b]) == Concat(bs) + b
  {
    if bs == [] {
      assert bs + [b] == [b];
      assert Concat([b]) == b + Concat([]);
    } else {
      assert (bs + [b])[1..] == bs[1..] + [b];
      ConcatSnoc(bs[1..], b);
      assert Concat(bs + [b]) == bs[0] + (Concat(bs[1..]) + b);
    }
  }

  // Block i of a cut.
  lemma {:induction false} CutAt<T>(m: seq<T>, lim: nat, i: nat)
    requires lim > 0 && i < |Cut(m, lim)|
    ensures |Cut(m, lim)| * lim <= |m| < |Cut(m, lim)| * lim + lim
    ensures i * lim <= (i + 1) * lim <= |m| && Cut(m, lim)[i] == m[i * lim..(i + 1) * lim]
    decreases i
  {
    var rest := Cut(m[lim..], lim);
    CutLength(m, lim);
    Distribute(i + 1, lim);
    if i > 0 {
      CutAt(m[lim..], lim, i - 1);
      Distribute(i, lim);
      assert m[lim..][(i - 1) * lim..i * lim] == m[i * lim..(i + 1) * lim];
    }
  }

  lemma {:induction false} CutLength<T>(m: seq<T>, lim: nat)
    requires lim > 0
    ensures |Cut(m, lim)| * lim <= |m| < |Cut(m, lim)| * lim + lim
    decreases |m|
  {
    if |m| >= lim {
      CutLength(m[lim..], lim);
      Distribute(|Cut(m, lim)|, lim);
    }
  }

  // A stream has only one cut.
  lemma {:induction false} CutConcat<T>(bs: seq<seq<T>>, rest: seq<T>, lim: nat)
    requires lim > 0 && Whole(bs, lim) && |rest| < lim
    ensures Cut(Concat(bs) + rest, lim) == bs
  {
    if bs != [] {
      CutConcat(bs[1..], rest, lim);
      var m := Concat(bs) + rest;
      assert m == bs[0] + (Concat(bs[1..]) + rest);
      assert m[..lim] == bs[0] && m[lim..] == Concat(bs[1..]) + rest;
      assert bs == [bs[0]] + bs[1..];
    }
  }

  lemma {:induction false} ConcatLength<T>(bs: seq<seq<T>>, lim: nat)
    requires Whole(bs, lim)
    ensures |Concat(bs)| == |bs| * lim
  {
    if bs != [] {
      ConcatLength(bs[1..], lim);
      Distribute(|bs|, lim);
    }
  }

  lemma Distribute(n: nat, lim: nat)
    requires n > 0
    ensures n * lim == (n - 1) * lim + lim
  {
  }
}
