/** The address manager's own consistency check, and what it decides. */
module AddrCheck {
  import opened AddrTypes
  import opened AddrTables
  import opened FiniteSets

  // ----- what the check looks for

  // Reading a missing key of the address index yields zero.
  function IdAt(idOf: map<NetAddr, int>, a: NetAddr): int {
    if a in idOf then idOf[a] else 0
  }

  predicate EntryConsistent(entries: Entries, idOf: map<NetAddr, int>, order: seq<int>, id: int)
    requires id in entries
  {
    var e := entries[id];
    && (if e.inTried then e.lastSuccess != 0 && e.refCount == 0 else 1 <= e.refCount <= NEW_BUCKETS_PER_ADDRESS)
    && IdAt(idOf, e.Net()) == id
    && 0 <= e.pos < |order| && order[e.pos] == id
    && e.addr.lastTry >= 0
    && e.lastSuccess >= 0
  }

  function Flat(tried: seq<seq<int>>): seq<int> {
    if tried == [] then [] else Flat(tried[..|tried| - 1]) + tried[|tried| - 1]
  }

  // Every tried id fills exactly one slot of the tried table, and nothing else does.
  ghost predicate TriedConsistent(tried: seq<seq<int>>, ids: set<int>) {
    Distinct(Flat(tried)) && forall id :: id in Flat(tried) <==> id in ids
  }

  // Every new id sits in exactly as many new buckets as its count says, and nothing else does.
  ghost predicate NewConsistent(news: seq<set<int>>, entries: Entries, ids: set<int>)
    requires forall id :: id in ids ==> id in entries
  {
    && (forall b, id :: 0 <= b < |news| && id in news[b] ==> id in ids)
    && (forall id :: id in ids ==> |BucketsOf(news, id)| == entries[id].refCount)
  }

  ghost predicate Consistent(t: Tables) {
    && |t.order| == t.triedCount + t.newCount
    && (forall id :: id in t.entries ==> EntryConsistent(t.entries, t.idOf, t.order, id))
    && |TriedIds(t.entries)| == t.triedCount
    && |NewIds(t.entries)| == t.newCount
    && TriedConsistent(t.tried, TriedIds(t.entries))
    && NewConsistent(t.news, t.entries, NewIds(t.entries))
  }

  // ----- the invariant implies it

  lemma {:induction false} FlatMember(tried: seq<seq<int>>, x: int)
    ensures x in Flat(tried) <==> exists b :: 0 <= b < |tried| && x in tried[b]
  {
    if tried != [] {
      var n := |tried| - 1;
      FlatMember(tried[..n], x);
      if x in Flat(tried[..n]) {
        var b :| 0 <= b < n && x in tried[..n][b];
        assert x in tried[b];
      }
      if b :| 0 <= b < |tried| && x in tried[b] {
        assert b < n ==> x in tried[..n][b];
      }
    }
  }

  lemma DistinctConcat(a: seq<int>, b: seq<int>)
    requires Distinct(a) && Distinct(b) && forall x :: x in a ==> x !in b
    ensures Distinct(a + b)
  {
    var s := a + b;
    forall i, j | 0 <= i < j < |s| ensures s[i] != s[j] {
      if |a| <= i {
        assert b[i - |a|] != b[j - |a|];
      } else if |a| <= j {
        assert a[i] in a && b[j - |a|] in b;
      }
    }
  }

  lemma {:induction false} FlatDistinct(tried: seq<seq<int>>)
    requires forall b :: 0 <= b < |tried| ==> Distinct(tried[b])
    requires forall b, c, x :: 0 <= b < c < |tried| && x in tried[b] ==> x !in tried[c]
    ensures Distinct(Flat(tried))
  {
    if tried != [] {
      var n := |tried| - 1;
      FlatDistinct(tried[..n]);
      assert Distinct(tried[n]);
      forall x | x in Flat(tried[..n]) ensures x !in tried[n] {
        FlatMember(tried[..n], x);
      }
      DistinctConcat(Flat(tried[..n]), tried[n]);
    }
  }

  lemma InvTriedConsistent(h: Hashing, key: Bytes, entries: Entries, tried: seq<seq<int>>)
    requires TriedPlaced(h, key, entries, tried)
    ensures TriedConsistent(tried, TriedIds(entries))
  {
    forall b | 0 <= b < |tried| ensures Distinct(tried[b]) {
      assert TriedBucketOk(h, key, entries, b, tried[b]);
    }
    forall b, c, x | 0 <= b < c < |tried| && x in tried[b] ensures x !in tried[c] {
      assert TriedBucketOk(h, key, entries, b, tried[b]);
      assert TriedBucketOk(h, key, entries, c, tried[c]);
    }
    FlatDistinct(tried);
    forall id ensures id in Flat(tried) <==> id in TriedIds(entries) {
      FlatMember(tried, id);
      if id in Flat(tried) {
        var b :| 0 <= b < |tried| && id in tried[b];
        assert TriedBucketOk(h, key, entries, b, tried[b]);
      }
    }
  }

  lemma InvIsConsistent(h: Hashing, key: Bytes, t: Tables)
    requires Inv(h, key, t, NONE)
    ensures Consistent(t)
  {
    ViewSize(h, key, t, NONE);
    InvTriedConsistent(h, key, t.entries, t.tried);
    InvNewConsistent(h, key, t);
    InvEntriesConsistent(h, key, t);
  }

  lemma InvEntriesConsistent(h: Hashing, key: Bytes, t: Tables)
    requires Inv(h, key, t, NONE)
    ensures forall id :: id in t.entries ==> EntryConsistent(t.entries, t.idOf, t.order, id)
  {
  }

  lemma InvNewConsistent(h: Hashing, key: Bytes, t: Tables)
    requires Inv(h, key, t, NONE)
    ensures NewConsistent(t.news, t.entries, NewIds(t.entries))
  {
    forall b, id | 0 <= b < |t.news| && id in t.news[b] ensures id in NewIds(t.entries) {
      assert NewBucketOk(t.entries, t.news[b]);
    }
  }

  lemma ValidIsConsistent(h: Hashing, key: Bytes, t: Tables)
    ensures Inv(h, key, t, NONE) ==>
              Consistent(t) && forall id :: id in t.entries ==> t.entries[id].Net() in t.idOf
  {
    if Inv(h, key, t, NONE) {
      InvIsConsistent(h, key, t);
    }
  }

  // ----- what the check does not look at

  // Ids, stale names, and whether the buckets have their sizes and their members belong there.
  ghost predicate Unchecked(h: Hashing, key: Bytes, t: Tables) {
    && IdsIssued(t.entries, t.nextId)
    && (forall id {:trigger id in t.entries} :: id in t.entries ==> t.entries[id].Net() in t.idOf)
    && (forall a {:trigger a in t.idOf} :: a in t.idOf ==>
         t.idOf[a] in t.entries && t.entries[t.idOf[a]].Net() == a)
    && |t.tried| == TRIED_BUCKET_COUNT && |t.news| == NEW_BUCKET_COUNT
    && (forall b :: 0 <= b < |t.tried| ==>
         |t.tried[b]| <= TRIED_BUCKET_SIZE && InTheirBucket(h, key, t.entries, b, t.tried[b]))
    && (forall b :: 0 <= b < |t.news| ==> |t.news[b]| <= NEW_BUCKET_SIZE)
  }

  ghost predicate InTheirBucket(h: Hashing, key: Bytes, entries: Entries, b: int, bucket: seq<int>) {
    forall id :: id in bucket && id in entries ==> h.TriedBucket(key, entries[id].addr.svc) == b
  }

  lemma {:induction false} PositionsSize(entries: Entries, order: seq<int>, ids: set<int>)
    requires forall id :: id in ids ==> id in entries && 0 <= entries[id].pos < |order| && order[entries[id].pos] == id
    ensures |set id | id in ids :: entries[id].pos| == |ids|
    decreases |ids|
  {
    var s := set id | id in ids :: entries[id].pos;
    if ids == {} {
      assert s == {};
    } else {
      var x := AnyOf(ids);
      PositionsSize(entries, order, ids - {x});
      var t := set id | id in ids - {x} :: entries[id].pos;
      forall id | id in ids - {x} ensures entries[id].pos != entries[x].pos { }
      assert entries[x].pos !in t;
      assert s == t + {entries[x].pos};
    }
  }

  // As many places as ids, and every id at its place: no place is left over.
  lemma OrderIsFull(entries: Entries, order: seq<int>)
    requires |order| == |entries.Keys|
    requires forall id :: id in entries ==> 0 <= entries[id].pos < |order| && order[entries[id].pos] == id
    ensures Ordered(entries, order)
  {
    var s := set id | id in entries.Keys :: entries[id].pos;
    PositionsSize(entries, order, entries.Keys);
    forall i | 0 <= i < |order| ensures order[i] in entries && entries[order[i]].pos == i {
      if i !in s {
        RangeBound(s + {i}, |order|);
        assert false;
      }
      var id :| id in entries.Keys && entries[id].pos == i;
    }
  }

  lemma {:induction false} FlatParts(tried: seq<seq<int>>, b: nat)
    requires Distinct(Flat(tried)) && b < |tried|
    ensures Distinct(tried[b])
  {
    var n := |tried| - 1;
    var front := Flat(tried[..n]);
    assert Flat(tried) == front + tried[n];
    if b == n {
      forall i, j | 0 <= i < j < |tried[n]| ensures tried[n][i] != tried[n][j] {
        assert Flat(tried)[|front| + i] == tried[n][i] && Flat(tried)[|front| + j] == tried[n][j];
      }
    } else {
      forall i, j | 0 <= i < j < |front| ensures front[i] != front[j] {
        assert Flat(tried)[i] == front[i] && Flat(tried)[j] == front[j];
      }
      FlatParts(tried[..n], b);
    }
  }

  lemma ConsistentTried(h: Hashing, key: Bytes, t: Tables)
    requires TriedConsistent(t.tried, TriedIds(t.entries)) && Unchecked(h, key, t)
    ensures TriedPlaced(h, key, t.entries, t.tried)
  {
    forall b | 0 <= b < |t.tried| ensures TriedBucketOk(h, key, t.entries, b, t.tried[b]) {
      FlatParts(t.tried, b);
      assert InTheirBucket(h, key, t.entries, b, t.tried[b]);
      forall id | id in t.tried[b]
        ensures id in t.entries && t.entries[id].inTried && h.TriedBucket(key, t.entries[id].addr.svc) == b
      {
        FlatMember(t.tried, id);
        assert id in TriedIds(t.entries);
      }
    }
    forall id | id in t.entries && t.entries[id].inTried
      ensures id in t.tried[h.TriedBucket(key, t.entries[id].addr.svc)]
    {
      assert id in TriedIds(t.entries);
      FlatMember(t.tried, id);
      var b :| 0 <= b < |t.tried| && id in t.tried[b];
      assert InTheirBucket(h, key, t.entries, b, t.tried[b]);
    }
  }

  lemma ConsistentNew(h: Hashing, key: Bytes, t: Tables)
    requires NewConsistent(t.news, t.entries, NewIds(t.entries)) && Unchecked(h, key, t)
    requires forall id :: id in t.entries ==> EntryConsistent(t.entries, t.idOf, t.order, id)
    ensures NewPlaced(t.entries, t.news, NONE)
  {
    forall b | 0 <= b < |t.news| ensures NewBucketOk(t.entries, t.news[b]) {
      forall id | id in t.news[b] ensures id in t.entries && !t.entries[id].inTried {
        assert id in NewIds(t.entries);
      }
    }
    forall id | id in t.entries && !t.entries[id].inTried
      ensures 1 <= t.entries[id].refCount <= NEW_BUCKETS_PER_ADDRESS && id != NONE
      ensures t.entries[id].refCount == |BucketsOf(t.news, id)|
    {
      assert id in NewIds(t.entries);
      assert EntryConsistent(t.entries, t.idOf, t.order, id);
    }
  }

  lemma ConsistentFrame(h: Hashing, key: Bytes, t: Tables)
    requires Consistent(t) && Unchecked(h, key, t)
    ensures Frame(t)
  {
    hide TriedConsistent, NewConsistent, InTheirBucket, EntryConsistent, Indexed, EntriesOk, Ordered;
    assert TriedIds(t.entries) + NewIds(t.entries) == t.entries.Keys;
    ConsistentEntries(h, key, t);
    OrderIsFull(t.entries, t.order);
  }

  lemma ConsistentEntries(h: Hashing, key: Bytes, t: Tables)
    requires (forall id :: id in t.entries ==> EntryConsistent(t.entries, t.idOf, t.order, id)) && Unchecked(h, key, t)
    ensures EntriesOk(t.entries) && Indexed(t.entries, t.idOf)
    ensures forall id :: id in t.entries ==>
              0 <= t.entries[id].pos < |t.order| && t.order[t.entries[id].pos] == id
  {
    hide InTheirBucket;
    forall id | id in t.entries
      ensures EntryOk(t.entries[id]) && t.idOf[t.entries[id].Net()] == id
      ensures 0 <= t.entries[id].pos < |t.order| && t.order[t.entries[id].pos] == id
    {
      assert EntryConsistent(t.entries, t.idOf, t.order, id);
    }
  }

  // The check finds everything that can be wrong but that.
  lemma CheckedExactly(h: Hashing, key: Bytes, t: Tables)
    ensures Inv(h, key, t, NONE) <==> Consistent(t) && Unchecked(h, key, t)
  {
    if Inv(h, key, t, NONE) {
      InvIsConsistent(h, key, t);
      InvUnchecked(h, key, t);
    }
    if Consistent(t) && Unchecked(h, key, t) {
      hide Unchecked, Frame, TriedPlaced, NewPlaced, TriedConsistent, NewConsistent, EntryConsistent;
      ConsistentFrame(h, key, t);
      ConsistentTried(h, key, t);
      ConsistentNew(h, key, t);
    }
  }

  lemma InvUnchecked(h: Hashing, key: Bytes, t: Tables)
    requires Inv(h, key, t, NONE)
    ensures Unchecked(h, key, t)
  {
    forall b | 0 <= b < |t.tried|
      ensures |t.tried[b]| <= TRIED_BUCKET_SIZE && InTheirBucket(h, key, t.entries, b, t.tried[b])
    {
      assert TriedBucketOk(h, key, t.entries, b, t.tried[b]);
    }
    forall b | 0 <= b < |t.news| ensures |t.news[b]| <= NEW_BUCKET_SIZE {
      assert NewBucketOk(t.entries, t.news[b]);
    }
  }

  lemma ConsistentParts(t: Tables)
    ensures Consistent(t) <==>
      && |t.order| == t.triedCount + t.newCount
      && (forall id :: id in t.entries ==> EntryConsistent(t.entries, t.idOf, t.order, id))
      && |TriedIds(t.entries)| == t.triedCount
      && |NewIds(t.entries)| == t.newCount
      && TriedConsistent(t.tried, TriedIds(t.entries))
      && NewConsistent(t.news, t.entries, NewIds(t.entries))
  {
  }

  // ----- the check itself, loop by loop

  method CheckEntry(e: Entry, n: int, idOf: map<NetAddr, int>, order: seq<int>)
    returns (r: int, idOf': map<NetAddr, int>)
    ensures r == 0 <==> EntryConsistent(map[n := e], idOf, order, n)
    ensures forall a :: IdAt(idOf', a) == IdAt(idOf, a)
    ensures forall a :: a in idOf ==> a in idOf' && idOf'[a] == idOf[a]
    ensures e.Net() in idOf ==> idOf' == idOf
  {
    idOf' := idOf;
    if e.inTried {
      if e.lastSuccess == 0 { return -1, idOf'; }
      if e.refCount != 0 { return -2, idOf'; }
    } else {
      if e.refCount < 0 || e.refCount > NEW_BUCKETS_PER_ADDRESS { return -3, idOf'; }
      if e.refCount == 0 { return -4, idOf'; }
    }
    if e.Net() !in idOf' {
      idOf' := idOf'[e.Net() := 0];
    }
    if idOf'[e.Net()] != n { return -5, idOf'; }
    if e.pos < 0 || e.pos >= |order| || order[e.pos] != n { return -14, idOf'; }
    if e.addr.lastTry < 0 { return -6, idOf'; }
    if e.lastSuccess < 0 { return -8, idOf'; }
    r := 0;
  }

  lemma SameIdConsistent(e: Entry, n: int, entries: Entries, idOf: map<NetAddr, int>,
                         idOf': map<NetAddr, int>, order: seq<int>)
    requires n in entries && entries[n] == e && forall a :: IdAt(idOf', a) == IdAt(idOf, a)
    ensures EntryConsistent(map[n := e], idOf', order, n) <==> EntryConsistent(entries, idOf, order, n)
    ensures EntryConsistent(entries, idOf, order, n) && !e.inTried ==> e.refCount > 0
  {
  }

  method CheckEntries(entries: Entries, idOf: map<NetAddr, int>, order: seq<int>)
    returns (r: int, triedSet: set<int>, pending: map<int, int>, idOf': map<NetAddr, int>)
    ensures r == 0 <==> forall id :: id in entries ==> EntryConsistent(entries, idOf, order, id)
    ensures r == 0 ==> triedSet == TriedIds(entries) && pending.Keys == NewIds(entries)
    ensures r == 0 ==> forall id :: id in pending ==> pending[id] == entries[id].refCount > 0
    ensures (forall id :: id in entries ==> entries[id].Net() in idOf) ==> idOf' == idOf
  {
    triedSet, pending, idOf' := {}, map[], idOf;
    var rest := entries.Keys;
    while rest != {}
      invariant rest <= entries.Keys
      invariant forall id :: id in entries && id !in rest ==> EntryConsistent(entries, idOf, order, id)
      invariant forall id :: id in triedSet <==> id in entries && id !in rest && entries[id].inTried
      invariant forall id :: id in pending <==> id in entries && id !in rest && !entries[id].inTried
      invariant forall id :: id in pending ==> pending[id] == entries[id].refCount > 0
      invariant forall a :: IdAt(idOf', a) == IdAt(idOf, a)
      invariant (forall id :: id in entries ==> entries[id].Net() in idOf) ==> idOf' == idOf
      decreases |rest|
    {
      hide EntryConsistent, IdAt;
      var n := Least(rest);
      SameIdConsistent(entries[n], n, entries, idOf, idOf', order);
      r, idOf' := CheckEntry(entries[n], n, idOf', order);
      if r != 0 {
        return;
      }
      if entries[n].inTried {
        triedSet := triedSet + {n};
      } else {
        pending := pending[n := entries[n].refCount];
      }
      rest := rest - {n};
    }
    assert triedSet == TriedIds(entries) by {
      forall id ensures id in triedSet <==> id in TriedIds(entries) { }
    }
    assert pending.Keys == NewIds(entries) by {
      forall id ensures id in pending <==> id in NewIds(entries) { }
    }
    r := 0;
  }

  method CheckTried(tried: seq<seq<int>>, ids: set<int>) returns (r: int, left: set<int>)
    ensures r == 0 || r == -11
    ensures r == 0 && left == {} <==> TriedConsistent(tried, ids)
  {
    left := ids;
    var n := 0;
    ghost var seen: seq<int> := [];
    while n < |tried|
      invariant 0 <= n <= |tried| && seen == Flat(tried[..n])
      invariant Distinct(seen) && left <= ids
      invariant forall id :: id in ids <==> id in left || id in seen
      invariant forall id :: id in seen ==> id !in left
    {
      var i := 0;
      ghost var before := seen;
      assert tried[..n + 1][..n] == tried[..n];
      while i < |tried[n]|
        invariant 0 <= i <= |tried[n]| && seen == before + tried[n][..i]
        invariant Distinct(seen) && left <= ids
        invariant forall id :: id in ids <==> id in left || id in seen
        invariant forall id :: id in seen ==> id !in left
      {
        var id := tried[n][i];
        if id !in left {
          SlotInFlat(tried, n, i);
          SlotRefuted(tried, ids, n, i, seen);
          return -11, left;
        }
        left := left - {id};
        seen := seen + [id];
        i := i + 1;
      }
      assert tried[n][..i] == tried[n];
      n := n + 1;
    }
    assert tried[..n] == tried;
    if left != {} {
      var id := AnyOf(left);
    }
    r := 0;
  }

  lemma {:induction false} SlotInFlat(tried: seq<seq<int>>, n: nat, i: nat)
    requires n < |tried| && i < |tried[n]|
    ensures |Flat(tried[..n])| + i < |Flat(tried)|
    ensures Flat(tried[..n]) + tried[n][..i + 1] <= Flat(tried)
    decreases |tried|
  {
    var m := |tried| - 1;
    if n == m {
      assert tried[..n] == tried[..m];
      assert tried[n][..i + 1] <= tried[n];
    } else {
      SlotInFlat(tried[..m], n, i);
      assert tried[..m][..n] == tried[..n];
    }
  }

  // A slot whose id is not expected any more is a fault.
  lemma SlotRefuted(tried: seq<seq<int>>, ids: set<int>, n: nat, i: nat, seen: seq<int>)
    requires n < |tried| && i < |tried[n]| && seen == Flat(tried[..n]) + tried[n][..i]
    requires tried[n][i] !in ids || tried[n][i] in seen
    ensures !TriedConsistent(tried, ids)
  {
    SlotInFlat(tried, n, i);
    var flat := Flat(tried);
    assert tried[n][..i + 1] == tried[n][..i] + [tried[n][i]];
    assert seen + [tried[n][i]] <= flat;
    assert flat[|seen|] == tried[n][i];
    if tried[n][i] in seen {
      var k :| 0 <= k < |seen| && seen[k] == tried[n][i];
      assert flat[k] == flat[|seen|];
    }
  }

  method CheckNew(news: seq<set<int>>, entries: Entries, counts: map<int, int>) returns (r: int, pending: map<int, int>)
    requires forall id :: id in counts ==> id in entries && counts[id] == entries[id].refCount > 0
    ensures r == 0 || r == -12
    ensures r == 0 && pending == map[] <==> NewConsistent(news, entries, counts.Keys)
  {
    pending := counts;
    var n := 0;
    PendingStart(news, counts);
    while n < |news|
      invariant 0 <= n <= |news|
      invariant PendingOk(counts, pending, news[..n])
      invariant forall b, id :: 0 <= b < n && id in news[b] ==> id in counts
    {
      var rest := news[n];
      ghost var done: set<int> := {};
      PendingNext(counts, pending, news[..n]);
      while rest != {}
        invariant done + rest == news[n] && done !! rest
        invariant PendingOk(counts, pending, news[..n] + [done])
        invariant forall id :: id in done ==> id in counts
        decreases |rest|
      {
        var id := Least(rest);
        if id !in pending {
          NewRefuted(news, entries, counts, pending, n, done, id);
          return -12, pending;
        }
        PendingStep(counts, pending, news[..n], done, id);
        pending := pending[id := pending[id] - 1];
        if pending[id] == 0 {
          pending := pending - {id};
        }
        done := done + {id};
        rest := rest - {id};
      }
      assert done == news[n];
      assert news[..n] + [done] == news[..n + 1];
      n := n + 1;
    }
    assert news[..n] == news;
    PendingEnd(news, entries, counts, pending);
    r := 0;
  }

  // pending holds what is still expected of each id once the buckets seen are taken away.
  ghost predicate PendingOk(counts: map<int, int>, pending: map<int, int>, seen: seq<set<int>>) {
    && (forall id :: id in pending ==> id in counts && pending[id] > 0)
    && (forall id :: id in counts ==> counts[id] - |BucketsOf(seen, id)| == if id in pending then pending[id] else 0)
  }

  lemma PendingStart(news: seq<set<int>>, counts: map<int, int>)
    requires forall id :: id in counts ==> counts[id] > 0
    ensures PendingOk(counts, counts, news[..0])
  {
    forall id ensures BucketsOf(news[..0], id) == {} { }
  }

  lemma PendingNext(counts: map<int, int>, pending: map<int, int>, seen: seq<set<int>>)
    requires PendingOk(counts, pending, seen)
    ensures PendingOk(counts, pending, seen + [{}])
  {
    forall id ensures BucketsOf(seen + [{}], id) == BucketsOf(seen, id) { }
  }

  lemma PendingStep(counts: map<int, int>, pending: map<int, int>, seen: seq<set<int>>, done: set<int>, id: int)
    requires PendingOk(counts, pending, seen + [done]) && id in pending && id !in done
    ensures var p := pending[id := pending[id] - 1];
            PendingOk(counts, if p[id] == 0 then p - {id} else p, seen + [done + {id}])
  {
    var n := |seen|;
    var a, b := seen + [done], seen + [done + {id}];
    assert b == a[n := a[n] + {id}];
    BucketsAfterInsertion(a, n, id);
  }

  lemma NewRefuted(news: seq<set<int>>, entries: Entries, counts: map<int, int>, pending: map<int, int>,
                   n: nat, done: set<int>, id: int)
    requires forall x :: x in counts ==> x in entries && counts[x] == entries[x].refCount
    requires n < |news| && PendingOk(counts, pending, news[..n] + [done]) && done <= news[n]
    requires id in news[n] && id !in done && id !in pending
    ensures !NewConsistent(news, entries, counts.Keys)
  {
    if id in counts {
      var seen := BucketsOf(news[..n] + [done], id);
      assert n !in seen && n in BucketsOf(news, id);
      assert seen <= BucketsOf(news, id);
      OneLess(seen, BucketsOf(news, id), n);
    }
  }

  lemma PendingEnd(news: seq<set<int>>, entries: Entries, counts: map<int, int>, pending: map<int, int>)
    requires forall x :: x in counts ==> x in entries && counts[x] == entries[x].refCount
    requires PendingOk(counts, pending, news)
    requires forall b, id :: 0 <= b < |news| && id in news[b] ==> id in counts
    ensures pending == map[] <==> NewConsistent(news, entries, counts.Keys)
  {
    if pending != map[] {
      assert pending.Keys != {};
      var id := AnyOf(pending.Keys);
      assert |BucketsOf(news, id)| != entries[id].refCount;
    }
  }
}
