/** The selection of a tried entry to replace: what the draws do to the bucket, and which entry the
    position that comes out of them holds. */
module AddrSelect {
  import opened AddrTypes
  import opened Arith

  // The bucket after the draws, the place of the oldest entry drawn, and the position it was drawn from.
  datatype Selection = Selection(bucket: seq<int>, found: nat, pos: nat)

  // Draw i takes the place of an entry that has not been drawn.
  predicate AreDraws(draws: seq<nat>, size: nat) {
    |draws| <= size && forall i :: 0 <= i < |draws| ==> i <= draws[i] < size
  }

  function Exchanged(bucket: seq<int>, i: nat, j: nat): (r: seq<int>)
    requires i < |bucket| && j < |bucket|
    ensures |r| == |bucket| && multiset(r) == multiset(bucket)
  {
    bucket[j := bucket[i]][i := bucket[j]]
  }

  lemma ExchangedIs(bucket: seq<int>, i: nat, j: nat)
    requires i < |bucket| && j < |bucket|
    ensures Exchanged(bucket, i, j) == bucket[j := bucket[i]][i := bucket[j]]
    ensures Exchanged(bucket, i, j)[i] == bucket[j]
  {
  }

  // Draw i, which takes the entry at n. The entry goes to the front, the one that was there to its place.
  function Drawn(entries: Entries, s: Selection, i: nat, n: nat): (r: Selection)
    requires i <= n < |s.bucket| && s.found < i && forall j :: 0 <= j < |s.bucket| ==> s.bucket[j] in entries
    ensures multiset(r.bucket) == multiset(s.bucket) && |r.bucket| == |s.bucket|
    ensures (r.found == s.found && r.pos == s.pos) || (r.found == i && r.pos == n)
  {
    var b := Exchanged(s.bucket, i, n);
    if entries[s.bucket[n]].lastSuccess < entries[s.bucket[s.found]].lastSuccess then Selection(b, i, n)
    else Selection(b, s.found, s.pos)
  }

  // After all the draws.
  function Selected(entries: Entries, bucket: seq<int>, draws: seq<nat>): (s: Selection)
    requires AreDraws(draws, |bucket|) && draws != [] && forall id :: id in bucket ==> id in entries
    ensures multiset(s.bucket) == multiset(bucket) && |s.bucket| == |bucket|
    ensures s.found < |draws| && s.pos == draws[s.found] && s.pos < |bucket|
    decreases |draws|
  {
    var i := |draws| - 1;
    if i == 0 then Selection(Exchanged(bucket, 0, draws[0]), 0, draws[0])
    else
      var s := Selected(entries, bucket, draws[..i]);
      MembersStay(bucket, s.bucket, entries);
      Drawn(entries, s, i, draws[i])
  }

  lemma MembersStay(a: seq<int>, b: seq<int>, entries: Entries)
    requires multiset(a) == multiset(b) && forall id :: id in a ==> id in entries
    ensures forall id :: id in b ==> id in a && id in entries
    ensures forall j :: 0 <= j < |b| ==> b[j] in entries && b[j] in a
  {
    forall id | id in b ensures id in a && id in entries {
      assert id in multiset(b);
      assert id in multiset(a);
    }
    assert forall j :: 0 <= j < |b| ==> b[j] in b;
  }

  lemma EarlierDraws(draws: seq<nat>, size: nat)
    requires AreDraws(draws, size) && draws != []
    ensures AreDraws(draws[..|draws| - 1], size)
    ensures draws == draws[..|draws| - 1] + [draws[|draws| - 1]] && |draws| - 1 <= draws[|draws| - 1] < size
  {
  }

  lemma MoreDraws(draws: seq<nat>, size: nat, n: nat)
    requires AreDraws(draws, size) && |draws| <= n < size
    ensures AreDraws(draws + [n], size) && (draws + [n])[..|draws|] == draws && (draws + [n])[|draws|] == n
  {
  }

  lemma OneMoreDraw(entries: Entries, bucket: seq<int>, draws: seq<nat>, n: nat)
    requires AreDraws(draws, |bucket|) && draws != [] && |draws| <= n < |bucket|
    requires forall id :: id in bucket ==> id in entries
    ensures AreDraws(draws + [n], |bucket|)
    ensures var s := Selected(entries, bucket, draws);
            && (forall j :: 0 <= j < |s.bucket| ==> s.bucket[j] in entries)
            && Selected(entries, bucket, draws + [n]) == Drawn(entries, s, |draws|, n)
  {
    hide Drawn, Exchanged, AreDraws;
    var all := draws + [n];
    MoreDraws(draws, |bucket|, n);
    MembersStay(bucket, Selected(entries, bucket, draws).bucket, entries);
  }

  lemma FirstDraw(entries: Entries, bucket: seq<int>, n: nat)
    requires n < |bucket| && forall id :: id in bucket ==> id in entries
    ensures AreDraws([n], |bucket|) && Selected(entries, bucket, [n]) == Selection(Exchanged(bucket, 0, n), 0, n)
  {
  }

  lemma DrawInRange(draws: seq<nat>, size: nat, i: nat)
    requires AreDraws(draws, size) && i < |draws|
    ensures i <= draws[i] < size
  {
  }

  lemma NoDraws(size: nat)
    ensures AreDraws([], size)
  {
  }

  // One draw in full: the oldest so far and where it was found.
  lemma DrawnAt(entries: Entries, s: Selection, i: nat, n: nat) returns (r: Selection)
    requires i <= n < |s.bucket| && s.found < i && forall j :: 0 <= j < |s.bucket| ==> s.bucket[j] in entries
    ensures r == Drawn(entries, s, i, n)
    ensures r.bucket == s.bucket[n := s.bucket[i]][i := s.bucket[n]] && multiset(r.bucket) == multiset(s.bucket)
    ensures var x := s.bucket[n];
            if entries[x].lastSuccess < entries[s.bucket[s.found]].lastSuccess then r.pos == n && r.bucket[r.found] == x
            else r.pos == s.pos && r.bucket[r.found] == s.bucket[s.found]
  {
    r := Drawn(entries, s, i, n);
  }

  // The selection reads nothing but the last successes of the bucket.
  lemma {:induction false} SelectedAlike(e: Entries, e': Entries, bucket: seq<int>, draws: seq<nat>)
    requires AreDraws(draws, |bucket|) && draws != []
    requires forall id :: id in bucket ==> id in e && id in e' && e[id].lastSuccess == e'[id].lastSuccess
    ensures Selected(e', bucket, draws) == Selected(e, bucket, draws)
    decreases |draws|
  {
    hide Selected, Drawn, Exchanged, AreDraws;
    EarlierDraws(draws, |bucket|);
    var i := |draws| - 1;
    if i == 0 {
      FirstDraw(e, bucket, draws[0]);
      FirstDraw(e', bucket, draws[0]);
      assert draws == [draws[0]];
    } else {
      SelectedAlike(e, e', bucket, draws[..i]);
      var s := Selected(e, bucket, draws[..i]);
      OneMoreDraw(e, bucket, draws[..i], draws[i]);
      OneMoreDraw(e', bucket, draws[..i], draws[i]);
      MembersStay(bucket, s.bucket, e);
      DrawnAlike(e, e', s, i, draws[i]);
    }
  }

  lemma DrawnAlike(e: Entries, e': Entries, s: Selection, i: nat, n: nat)
    requires i <= n < |s.bucket| && s.found < i
    requires forall j :: 0 <= j < |s.bucket| ==>
               s.bucket[j] in e && s.bucket[j] in e' && e[s.bucket[j]].lastSuccess == e'[s.bucket[j]].lastSuccess
    ensures Drawn(e', s, i, n) == Drawn(e, s, i, n)
  {
  }

  predicate NoNewer(entries: Entries, x: int, y: int) {
    x in entries && y in entries && entries[x].lastSuccess <= entries[y].lastSuccess
  }

  // The entries drawn end up at the front in the order of the draws, and the one of them that succeeded the
  // longest time ago, the first of equals, at the place where it was found.
  lemma {:induction false} FoundIsOldest(entries: Entries, bucket: seq<int>, draws: seq<nat>)
    requires AreDraws(draws, |bucket|) && draws != [] && forall id :: id in bucket ==> id in entries
    ensures var s := Selected(entries, bucket, draws);
            && (forall j :: 0 <= j < |draws| ==> NoNewer(entries, s.bucket[s.found], s.bucket[j]))
            && (forall j :: 0 <= j < s.found ==> !NoNewer(entries, s.bucket[j], s.bucket[s.found]))
    decreases |draws|
  {
    hide Selected, Drawn, Exchanged, NoNewer, AreDraws;
    EarlierDraws(draws, |bucket|);
    var i := |draws| - 1;
    if i == 0 {
      MembersStay(bucket, Selected(entries, bucket, draws).bucket, entries);
      OneDrawn(entries, Selected(entries, bucket, draws));
    } else {
      FoundIsOldest(entries, bucket, draws[..i]);
      OneMoreDraw(entries, bucket, draws[..i], draws[i]);
      DrawnIsOldest(entries, Selected(entries, bucket, draws[..i]), i, draws[i]);
    }
  }

  lemma OneDrawn(entries: Entries, s: Selection)
    requires s.found == 0 && s.bucket != [] && s.bucket[0] in entries
    ensures NoNewer(entries, s.bucket[s.found], s.bucket[0])
  {
  }

  lemma DrawnIsOldest(entries: Entries, s: Selection, i: nat, n: nat)
    requires i <= n < |s.bucket| && s.found < i && forall j :: 0 <= j < |s.bucket| ==> s.bucket[j] in entries
    requires forall j :: 0 <= j < i ==> NoNewer(entries, s.bucket[s.found], s.bucket[j])
    requires forall j :: 0 <= j < s.found ==> !NoNewer(entries, s.bucket[j], s.bucket[s.found])
    ensures var r := Drawn(entries, s, i, n);
            && (forall j :: 0 <= j <= i ==> NoNewer(entries, r.bucket[r.found], r.bucket[j]))
            && (forall j :: 0 <= j < r.found ==> !NoNewer(entries, r.bucket[j], r.bucket[r.found]))
            && r.bucket[i] == s.bucket[n] && r.bucket[..i] == s.bucket[..i]
  {
    var r := Drawn(entries, s, i, n);
    DrawnFront(entries, s, i, n);
    hide Drawn, Exchanged;
    forall j | 0 <= j < i ensures r.bucket[j] == s.bucket[j] {
      assert r.bucket[..i][j] == s.bucket[..i][j];
    }
  }

  lemma DrawnFront(entries: Entries, s: Selection, i: nat, n: nat)
    requires i <= n < |s.bucket| && s.found < i && forall j :: 0 <= j < |s.bucket| ==> s.bucket[j] in entries
    ensures var r := Drawn(entries, s, i, n);
            && r.bucket[i] == s.bucket[n] && r.bucket[..i] == s.bucket[..i]
            && r.found == if entries[s.bucket[n]].lastSuccess < entries[s.bucket[s.found]].lastSuccess then i
                          else s.found
  {
  }

  // ----- whether the position that is returned holds the oldest of the entries drawn

  ghost predicate HoldsOldest(entries: Entries, bucket: seq<int>, draws: seq<nat>)
    requires AreDraws(draws, |bucket|) && draws != [] && forall id :: id in bucket ==> id in entries
  {
    var s := Selected(entries, bucket, draws);
    forall j :: 0 <= j < |draws| ==> NoNewer(entries, s.bucket[s.pos], s.bucket[j])
  }

  // The draws that the code makes on a bucket.
  predicate IsRun(draws: seq<nat>, bucket: seq<int>) {
    AreDraws(draws, |bucket|) && |draws| == Min(TRIED_ENTRIES_INSPECTED, |bucket|)
  }

  // Whatever is drawn.
  ghost predicate AlwaysOldest(entries: Entries, bucket: seq<int>)
    requires bucket != [] && forall id :: id in bucket ==> id in entries
  {
    forall draws :: IsRun(draws, bucket) ==> HoldsOldest(entries, bucket, draws)
  }

  // All entries succeeded at the same time; of two, the first no later than the second.
  predicate Settled(entries: Entries, bucket: seq<int>) {
    if |bucket| == 2 then NoNewer(entries, bucket[0], bucket[1])
    else forall i, j :: 0 <= i < |bucket| && 0 <= j < |bucket| ==> NoNewer(entries, bucket[i], bucket[j])
  }

  // Entry x succeeded no later than any other.
  ghost predicate IsOldest(entries: Entries, bucket: seq<int>, x: int) {
    forall id :: id in bucket ==> NoNewer(entries, x, id)
  }

  // Further draws that leave every entry where it is.
  function Idle(draws: seq<nat>, k: nat): seq<nat>
    decreases k - |draws|
  {
    if |draws| >= k then draws else Idle(draws + [|draws|], k)
  }

  lemma DrawnIdle(entries: Entries, s: Selection, i: nat)
    requires i < |s.bucket| && s.found < i && forall j :: 0 <= j < |s.bucket| ==> s.bucket[j] in entries
    requires NoNewer(entries, s.bucket[s.found], s.bucket[i])
    ensures Drawn(entries, s, i, i) == s
  {
    assert Exchanged(s.bucket, i, i) == s.bucket;
  }

  // Once the oldest of all is found, they change nothing.
  lemma {:induction false} IdleKeeps(entries: Entries, bucket: seq<int>, draws: seq<nat>, k: nat)
    requires AreDraws(draws, |bucket|) && 0 < |draws| <= k <= |bucket| && forall id :: id in bucket ==> id in entries
    requires var s := Selected(entries, bucket, draws); IsOldest(entries, bucket, s.bucket[s.found])
    ensures AreDraws(Idle(draws, k), |bucket|) && |Idle(draws, k)| == k
    ensures Selected(entries, bucket, Idle(draws, k)) == Selected(entries, bucket, draws)
    decreases k - |draws|
  {
    hide Selected, Drawn, NoNewer, Exchanged;
    if |draws| < k {
      var s := Selected(entries, bucket, draws);
      OneMoreDraw(entries, bucket, draws, |draws|);
      MembersStay(bucket, s.bucket, entries);
      DrawnIdle(entries, s, |draws|);
      IdleKeeps(entries, bucket, draws + [|draws|], k);
    }
  }

  // Draws that find the oldest of all and leave a newer one at its position.
  lemma Missed(entries: Entries, bucket: seq<int>, draws: seq<nat>, j: nat)
    requires AreDraws(draws, |bucket|) && 0 < |draws| <= Min(TRIED_ENTRIES_INSPECTED, |bucket|)
    requires forall id :: id in bucket ==> id in entries
    requires j < |draws|
    requires var s := Selected(entries, bucket, draws);
             IsOldest(entries, bucket, s.bucket[s.found]) && !NoNewer(entries, s.bucket[s.pos], s.bucket[j])
    ensures !AlwaysOldest(entries, bucket)
  {
    hide Selected, NoNewer;
    var k := Min(TRIED_ENTRIES_INSPECTED, |bucket|);
    IdleKeeps(entries, bucket, draws, k);
    assert IsRun(Idle(draws, k), bucket);
  }

  // The first entry is not the oldest: it ends up at the position of the one that is.
  lemma MissedAtOnce(entries: Entries, bucket: seq<int>, m: nat)
    requires m < |bucket| && (forall id :: id in bucket ==> id in entries) && IsOldest(entries, bucket, bucket[m])
    requires !NoNewer(entries, bucket[0], bucket[m])
    ensures !AlwaysOldest(entries, bucket)
  {
    FirstDraw(entries, bucket, m);
    ExchangedIs(bucket, 0, m);
    hide Exchanged, NoNewer, AlwaysOldest;
    assert m > 0;
    Missed(entries, bucket, [m], 0);
  }

  lemma TwoDraws(entries: Entries, bucket: seq<int>, m: nat, n: nat)
    requires m < |bucket| && 1 <= n < |bucket| && forall id :: id in bucket ==> id in entries
    ensures AreDraws([m, n], |bucket|)
    ensures var b := Exchanged(Exchanged(bucket, 0, m), 1, n);
            var drawn, first := Exchanged(bucket, 0, m)[n], bucket[m];
            && drawn in entries && first in entries
            && Selected(entries, bucket, [m, n]) ==
               if entries[drawn].lastSuccess < entries[first].lastSuccess then Selection(b, 1, n)
               else Selection(b, 0, m)
  {
    FirstDraw(entries, bucket, m);
    ExchangedIs(bucket, 0, m);
    OneMoreDraw(entries, bucket, [m], n);
    assert [m] + [n] == [m, n];
  }

  // The first entry is the oldest, the second is not: with the third drawn first and the oldest drawn
  // from there, the second ends up at that position.
  lemma MissedBehindThird(entries: Entries, bucket: seq<int>)
    requires |bucket| >= 3 && (forall id :: id in bucket ==> id in entries) && IsOldest(entries, bucket, bucket[0])
    requires !NoNewer(entries, bucket[1], bucket[0])
    ensures !AlwaysOldest(entries, bucket)
  {
    TwoDraws(entries, bucket, 2, 2);
    hide Selected, AlwaysOldest;
    var s := Selected(entries, bucket, [2, 2]);
    assert s.bucket[0] == bucket[2] && s.bucket[1] == bucket[0] && s.bucket[2] == bucket[1];
    assert IsOldest(entries, bucket, s.bucket[s.found]);
    Missed(entries, bucket, [2, 2], 1);
  }

  // The first two are the oldest, entry x is not: with the second drawn first, x ends up at its position.
  lemma MissedBehindSecond(entries: Entries, bucket: seq<int>, x: nat)
    requires 2 <= x < |bucket| && forall id :: id in bucket ==> id in entries
    requires IsOldest(entries, bucket, bucket[0]) && IsOldest(entries, bucket, bucket[1])
    requires !NoNewer(entries, bucket[x], bucket[0])
    ensures !AlwaysOldest(entries, bucket)
  {
    TwoDraws(entries, bucket, 1, x);
    hide Selected, AlwaysOldest;
    var s := Selected(entries, bucket, [1, x]);
    assert s.bucket[0] == bucket[1] && s.bucket[1] == bucket[x];
    assert bucket[0] in bucket && NoNewer(entries, bucket[1], bucket[0]);
    Missed(entries, bucket, [1, x], 0);
  }

  lemma {:induction false} SomeOldest(entries: Entries, bucket: seq<int>) returns (m: nat)
    requires bucket != [] && forall id :: id in bucket ==> id in entries
    ensures m < |bucket| && IsOldest(entries, bucket, bucket[m])
  {
    m := 0;
    if |bucket| > 1 {
      var n := |bucket| - 1;
      m := SomeOldest(entries, bucket[..n]);
      assert bucket == bucket[..n] + [bucket[n]];
      MembersStay(bucket, bucket, entries);
      if entries[bucket[n]].lastSuccess < entries[bucket[m]].lastSuccess { m := n; }
    }
  }

  lemma OfTwo(entries: Entries, bucket: seq<int>, draws: seq<nat>)
    requires |bucket| == 2 && IsRun(draws, bucket) && forall id :: id in bucket ==> id in entries
    requires NoNewer(entries, bucket[0], bucket[1])
    ensures HoldsOldest(entries, bucket, draws)
  {
    assert draws == [draws[0], 1];
    TwoDraws(entries, bucket, draws[0], 1);
  }

  lemma OfAlike(entries: Entries, bucket: seq<int>, draws: seq<nat>)
    requires IsRun(draws, bucket) && bucket != [] && forall id :: id in bucket ==> id in entries
    requires |bucket| != 2 && Settled(entries, bucket)
    ensures HoldsOldest(entries, bucket, draws)
  {
    var s := Selected(entries, bucket, draws);
    MembersStay(bucket, s.bucket, entries);
    hide Selected, NoNewer;
    DrawInRange(draws, |bucket|, s.found);
    assert s.bucket[s.pos] in bucket;
    forall j | 0 <= j < |draws| ensures NoNewer(entries, s.bucket[s.pos], s.bucket[j]) {
      assert s.bucket[j] in bucket;
    }
  }

  // The entry left at the returned position is the oldest of those drawn, whatever is drawn, if and
  // only if the bucket is settled: for three entries and more, if all succeeded at the same time.
  lemma AlwaysOldestExactly(entries: Entries, bucket: seq<int>)
    requires bucket != [] && forall id :: id in bucket ==> id in entries
    ensures AlwaysOldest(entries, bucket) <==> Settled(entries, bucket)
  {
    hide NoNewer, HoldsOldest;
    if Settled(entries, bucket) {
      forall draws | IsRun(draws, bucket) ensures HoldsOldest(entries, bucket, draws) {
        if |bucket| == 2 { OfTwo(entries, bucket, draws); } else { OfAlike(entries, bucket, draws); }
      }
    } else {
      UnsettledMissed(entries, bucket);
    }
  }

  lemma UnsettledMissed(entries: Entries, bucket: seq<int>)
    requires bucket != [] && (forall id :: id in bucket ==> id in entries) && !Settled(entries, bucket)
    ensures !AlwaysOldest(entries, bucket)
  {
    hide AlwaysOldest;
    var m := SomeOldest(entries, bucket);
    if !NoNewer(entries, bucket[0], bucket[m]) {
      MissedAtOnce(entries, bucket, m);
    } else {
      assert IsOldest(entries, bucket, bucket[0]);
      if !NoNewer(entries, bucket[1], bucket[0]) {
        MissedBehindThird(entries, bucket);
      } else {
        assert IsOldest(entries, bucket, bucket[1]);
        if forall x :: 0 <= x < |bucket| ==> NoNewer(entries, bucket[x], bucket[0]) {
          AlikeIsSettled(entries, bucket);
          return;
        }
        var x :| 0 <= x < |bucket| && !NoNewer(entries, bucket[x], bucket[0]);
        MissedBehindSecond(entries, bucket, x);
      }
    }
  }

  lemma AlikeIsSettled(entries: Entries, bucket: seq<int>)
    requires bucket != [] && IsOldest(entries, bucket, bucket[0])
    requires forall x :: 0 <= x < |bucket| ==> NoNewer(entries, bucket[x], bucket[0])
    ensures Settled(entries, bucket)
  {
    forall i, j | 0 <= i < |bucket| && 0 <= j < |bucket| ensures NoNewer(entries, bucket[i], bucket[j]) {
      assert bucket[j] in bucket;
    }
  }

  // A full bucket whose last entry is older than the first four: with these draws it is found at once,
  // and the position returned holds the entry that was first.
  lemma OldestCanBeMissed(entries: Entries, bucket: seq<int>)
    requires |bucket| == TRIED_BUCKET_SIZE && forall id :: id in bucket ==> id in entries
    requires forall i :: 0 <= i < 4 ==> !NoNewer(entries, bucket[i], bucket[63])
    ensures IsRun([63, 1, 2, 3], bucket)
    ensures var s := Selected(entries, bucket, [63, 1, 2, 3]);
            && s.pos == 63 && s.bucket[63] == bucket[0] && s.bucket[0] == bucket[63]
            && !NoNewer(entries, s.bucket[s.pos], s.bucket[0])
  {
    hide Selected, Exchanged, Drawn;
    var s := Selection(Exchanged(bucket, 0, 63), 0, 63);
    ExchangedIs(bucket, 0, 63);
    FirstDraw(entries, bucket, 63);
    MembersStay(bucket, s.bucket, entries);
    IdleDraw(entries, bucket, [63], s);
    assert [63] + [1] == [63, 1];
    IdleDraw(entries, bucket, [63, 1], s);
    assert [63, 1] + [2] == [63, 1, 2];
    IdleDraw(entries, bucket, [63, 1, 2], s);
    assert [63, 1, 2] + [3] == [63, 1, 2, 3];
  }

  lemma IdleDraw(entries: Entries, bucket: seq<int>, draws: seq<nat>, s: Selection)
    requires AreDraws(draws, |bucket|) && 0 < |draws| < |bucket| && forall id :: id in bucket ==> id in entries
    requires s == Selected(entries, bucket, draws) && !NoNewer(entries, s.bucket[|draws|], s.bucket[s.found])
    ensures AreDraws(draws + [|draws|], |bucket|) && Selected(entries, bucket, draws + [|draws|]) == s
  {
    OneMoreDraw(entries, bucket, draws, |draws|);
    hide Selected, Drawn;
    DrawnIdle(entries, s, |draws|);
  }
}
