/** The stochastic address manager: the class that keeps the tables, changed in place. */
module AddrMan {
  import opened AddrTypes
  import opened Arith
  import opened AddrBook
  import opened AddrTables
  import opened AddrCheck
  import opened AddrDisk
  import AddrLoad
  import opened AddrSelect
  import opened FiniteSets

  // A random number below n; zero when there is nothing to choose from.
  method GetRandInt(n: nat) returns (r: nat)
    ensures if n == 0 then r == 0 else r < n
  {
    if n == 0 {
      r := 0;
    } else {
      r :| r < n;
    }
  }

  // Position of x in s when s is walked in ascending order.
  function Rank(s: set<int>, x: int): nat {
    |set y | y in s && y < x|
  }

  // Among the members of s seen whose rank in s was drawn, x was announced the longest time ago
  // (ties: lowest id); NONE when no such member was seen.
  ghost predicate OldestSeen(entries: Entries, s: set<int>, seen: set<int>, draws: set<nat>, x: int) {
    if x == NONE then forall y :: y in seen ==> Rank(s, y) !in draws
    else
      && x in seen && x in entries && Rank(s, x) in draws
      && forall y :: y in seen && Rank(s, y) in draws ==>
           y in entries && (entries[x].addr.time < entries[y].addr.time ||
                            (entries[x].addr.time == entries[y].addr.time && x <= y))
  }

  lemma OldestStep(entries: Entries, s: set<int>, seen: set<int>, draws: set<nat>, x: int, it: int)
    requires OldestSeen(entries, s, seen, draws, x) && it in entries && it != NONE
    requires forall y :: y in seen ==> y < it
    ensures x != NONE ==> x in entries && x in seen
    ensures Rank(s, it) !in draws ==> OldestSeen(entries, s, seen + {it}, draws, x)
    ensures Rank(s, it) in draws ==>
              OldestSeen(entries, s, seen + {it}, draws,
                         if x == NONE || entries[it].addr.time < entries[x].addr.time then it else x)
  {
  }

  lemma RankIn(s: set<int>, seen: set<int>, x: int)
    requires x in s && seen <= s && x !in seen
    requires forall y :: y in seen ==> y < x
    requires forall y :: y in s && y !in seen ==> x <= y
    ensures Rank(s, x) == |seen|
  {
    assert (set y | y in s && y < x) == seen by {
      forall y ensures y in seen <==> y in s && y < x { }
    }
  }

  ghost function Withdrawing(t0: Tables, id: int): Tables
    requires id in t0.entries
  {
    t0.(entries := t0.entries[id := t0.entries[id].(refCount := 0)], news := Withdrawn(t0.news, id),
        newCount := t0.newCount - 1)
  }

  // One entry of tried bucket b has become new, and id has taken its place.
  function ExchangedFor(t: Tables, id: int, b: nat, pos: nat, dest: nat): Tables
    requires b < |t.tried| && pos < |t.tried[b]| && t.tried[b][pos] in t.entries
             && id in t.entries && t.tried[b][pos] != id
    requires dest < |t.news|
  {
    var evicted := t.tried[b][pos];
    t.(entries := t.entries[evicted := AsNew(t.entries[evicted])][id := t.entries[id].(inTried := true)],
       news := t.news[dest := t.news[dest] + {evicted}], newCount := t.newCount + 1,
       tried := t.tried[b := t.tried[b][pos := id]])
  }

  lemma ExchangedIsReplaced(t: Tables, id: int, b: nat, shuffled: seq<int>, pos: nat, dest: nat)
    requires id in t.entries && b < |t.tried| && pos < |shuffled| && shuffled[pos] in t.entries && shuffled[pos] != id
    requires dest < |t.news| && t.entries[id].refCount == |BucketsOf(t.news, id)|
    ensures ExchangedFor(Withdrawing(t, id).(tried := t.tried[b := shuffled]), id, b, pos, dest) ==
            Replaced(t.(tried := t.tried[b := shuffled]), b, pos, id, dest)
  {
    var e, evicted := Withdrawing(t, id).entries[id], shuffled[pos];
    UpdatesCommute(t.entries, id, evicted, e, AsTried(e), AsNew(t.entries[evicted]));
  }

  lemma UpdatesCommute<K, V>(m: map<K, V>, a: K, b: K, x: V, x': V, y: V)
    requires a != b
    ensures m[a := x][b := y][a := x'] == m[a := x'][b := y]
  {
  }

  lemma SeenStep(bucket: set<int>, seen: set<int>, rest: set<int>, it: int)
    requires seen + rest == bucket && seen !! rest && it in rest
    requires forall id, y :: id in seen && y in rest ==> id < y
    requires forall y :: y in rest ==> it <= y
    ensures (seen + {it}) + (rest - {it}) == bucket && (seen + {it}) !! (rest - {it})
    ensures |seen + {it}| == |seen| + 1 && |rest - {it}| < |rest|
    ensures forall id, y :: id in seen + {it} && y in rest - {it} ==> id < y
  {
  }

  // Of the members of a bucket whose position was drawn, the one announced longest ago.
  method Oldest(entries: Entries, bucket: set<int>) returns (oldest: int, ghost draws: set<nat>)
    requires bucket != {}
    requires forall id :: id in bucket ==> id != NONE && id in entries
    ensures oldest in bucket
    ensures |draws| <= 4 && OldestSeen(entries, bucket, bucket, draws, oldest)
  {
    var n0 := GetRandInt(|bucket|);
    var n1 := GetRandInt(|bucket|);
    var n2 := GetRandInt(|bucket|);
    var n3 := GetRandInt(|bucket|);
    draws := {n0, n1, n2, n3};
    oldest := NONE;
    var i := 0;
    var rest := bucket;
    ghost var seen := {};
    while rest != {}
      invariant seen + rest == bucket && seen !! rest && i == |seen|
      invariant forall id, y :: id in seen && y in rest ==> id < y
      invariant oldest == NONE ==> i <= n0
      invariant OldestSeen(entries, bucket, seen, draws, oldest)
      decreases |rest|
    {
      var it := Least(rest);
      RankIn(bucket, seen, it);
      OldestStep(entries, bucket, seen, draws, oldest, it);
      SeenStep(bucket, seen, rest, it);
      hide OldestSeen, Rank;
      assert Rank(bucket, it) == i;
      if i == n0 || i == n1 || i == n2 || i == n3 {
        if oldest == NONE || entries[it].addr.time < entries[oldest].addr.time {
          oldest := it;
        }
      }
      seen := seen + {it};
      rest := rest - {it};
      i := i + 1;
    }
    assert seen == bucket;
  }

  // The n-th bucket visited when the walk over all new buckets begins at start.
  function Turn(start: nat, n: nat): (b: nat)
    ensures b < NEW_BUCKET_COUNT
  {
    (n + start) % NEW_BUCKET_COUNT
  }

  class AddrMan {
    const h: Hashing
    const key: Bytes
    var nextId: int
    var entries: map<int, Entry>
    var idOf: map<NetAddr, int>
    var order: seq<int>
    var triedCount: int
    var tried: seq<seq<int>>
    var newCount: int
    var news: seq<set<int>>

    ghost function State(): Tables
      reads this
    {
      Tables(nextId, entries, idOf, order, triedCount, tried, newCount, news)
    }

    ghost predicate Valid()
      reads this
    {
      Inv(h, key, State(), NONE)
    }

    ghost function Known(): Book
      reads this
    {
      View(State())
    }

    constructor (h: Hashing, key: Bytes)
      ensures Valid() && Known() == map[]
      ensures this.h == h && this.key == key
    {
      this.h, this.key := h, key;
      nextId, entries, idOf, order := 0, map[], map[], [];
      triedCount, tried := 0, seq(TRIED_BUCKET_COUNT, _ => []);
      newCount, news := 0, seq(NEW_BUCKET_COUNT, _ => {});
      new;
      assert TriedIds(entries) == {} && NewIds(entries) == {};
    }

    // Reading a file replaces the whole state; the file may describe tables that are not consistent.
    constructor FromFile(h: Hashing, file: File)
      requires Readable(file)
      ensures this.h == h && this.key == file.key && State() == Loaded(h, file)
      ensures Valid() <==> AddrLoad.LoadsWell(h, file)
    {
      this.h, this.key := h, file.key;
      nextId, entries, idOf, order := 0, map[], map[], [];
      triedCount, tried := file.triedCount, seq(TRIED_BUCKET_COUNT, _ => []);
      newCount, news := file.newCount, seq(NEW_BUCKET_COUNT, _ => {});
      new;
      var rebuild := file.bucketCount != NEW_BUCKET_COUNT;
      ReadNewEntries(file, rebuild);
      nextId := newCount;
      ReadTriedEntries(file);
      ReadBuckets(file, rebuild);
      AddrLoad.LoadedExactly(h, file);
    }

    method ReadNewEntries(file: File, rebuild: bool)
      requires Readable(file) && key == file.key && rebuild == (file.bucketCount != NEW_BUCKET_COUNT)
      requires State() == Empty(file)
      modifies this
      ensures State() == ReadNews(h, file, |file.newEntries|)
    {
      for n := 0 to newCount
        invariant State() == ReadNews(h, file, n)
      {
        ReadNewEntry(n, file.newEntries[n], rebuild);
      }
    }

    method ReadNewEntry(n: int, d: DiskEntry, rebuild: bool)
      requires |news| == NEW_BUCKET_COUNT
      modifies this
      ensures State() == ReadNew(h, key, rebuild, old(State()), n, d)
    {
      entries := entries[n := FromDisk(d, 0, false, -1)];
      idOf := idOf[d.svc.net := n];
      entries := entries[n := entries[n].(pos := |order|)];
      order := order + [n];
      if rebuild {
        var b := h.NewBucket(key, d.svc.net, d.source);
        news := news[b := news[b] + {n}];
        entries := entries[n := entries[n].(refCount := entries[n].refCount + 1)];
      }
    }

    method ReadTriedEntries(file: File)
      requires Readable(file) && key == file.key
      requires State() == ReadTrieds(h, file, 0) && triedCount == file.triedCount
      modifies this
      ensures State() == ReadTrieds(h, file, |file.triedEntries|)
    {
      hide ReadTried, ReadNews, Hashing.TriedBucket;
      var lost := 0;
      for n := 0 to triedCount
        invariant triedCount == |file.triedEntries|
        invariant State().(triedCount := triedCount - lost) == ReadTrieds(h, file, n)
      {
        ReadTriedShift(h, key, State(), file.triedEntries[n], triedCount - lost);
        var kept := ReadTriedEntry(file.triedEntries[n]);
        if !kept {
          lost := lost + 1;
        }
      }
      triedCount := triedCount - lost;
    }

    method ReadTriedEntry(d: DiskEntry) returns (kept: bool)
      requires |tried| == TRIED_BUCKET_COUNT
      modifies this
      ensures State() == ReadTried(h, key, old(State()), d).(triedCount := old(triedCount))
      ensures kept <==> |old(tried)[h.TriedBucket(key, d.svc)]| < TRIED_BUCKET_SIZE
    {
      var b := h.TriedBucket(key, d.svc);
      kept := |tried[b]| < TRIED_BUCKET_SIZE;
      if kept {
        order := order + [nextId];
        entries := entries[nextId := FromDisk(d, 0, true, |order| - 1)];
        idOf := idOf[d.svc.net := nextId];
        tried := tried[b := tried[b] + [nextId]];
        nextId := nextId + 1;
      }
    }

    method ReadBuckets(file: File, rebuild: bool)
      requires Readable(file) && |news| == NEW_BUCKET_COUNT && rebuild == (file.bucketCount != NEW_BUCKET_COUNT)
      modifies this`entries, this`news
      ensures State() == AddrDisk.ReadBuckets(rebuild, old(State()), file.buckets)
    {
      ghost var s0 := State();
      assert file.buckets[..0] == [];
      for b := 0 to file.bucketCount
        invariant State() == AddrDisk.ReadBuckets(rebuild, s0, file.buckets[..b])
      {
        hide ReadBucket;
        ReadOneBucket(b, file.buckets[b], rebuild);
        assert file.buckets[..b + 1][..b] == file.buckets[..b];
      }
      assert file.buckets[..file.bucketCount] == file.buckets;
    }

    method ReadOneBucket(b: nat, written: seq<int>, rebuild: bool)
      requires b < |news|
      modifies this`entries, this`news
      ensures State() == ReadBucket(rebuild, old(State()), b, written)
    {
      ghost var s1 := State();
      assert written[..0] == [];
      for n := 0 to |written|
        invariant State() == ReadBucket(rebuild, s1, b, written[..n])
      {
        hide ReadIndex;
        ReadOneIndex(b, written[n], rebuild);
        assert written[..n + 1][..n] == written[..n];
      }
      assert written[..|written|] == written;
    }

    method ReadOneIndex(b: nat, i: int, rebuild: bool)
      requires b < |news|
      modifies this`entries, this`news
      ensures State() == ReadIndex(rebuild, old(State()), b, i)
    {
      if i !in entries {
        entries := entries[i := BLANK];
      }
      if !rebuild && entries[i].refCount < NEW_BUCKETS_PER_ADDRESS {
        entries := entries[i := entries[i].(refCount := entries[i].refCount + 1)];
        news := news[b := news[b] + {i}];
      }
    }

    method Save() returns (file: File)
      requires Valid()
      ensures FileFor(key, State(), file)
    {
      ghost var newIds, triedIds;
      SaveFacts(h, key, State());
      hide Inv;
      var newEntries, triedEntries, index;
      newEntries, index, newIds := WriteNew(entries, newCount);
      triedEntries, triedIds := WriteTried(entries, triedCount);
      var buckets: seq<seq<int>> := [];
      for b := 0 to |news|
        invariant |buckets| == b
        invariant forall c :: 0 <= c < b ==> BucketFile(news[c], buckets[c], newIds)
      {
        var written := WriteBucket(news[b], index, newIds);
        buckets := buckets + [written];
      }
      file := File(key, newCount, triedCount, NEW_BUCKET_COUNT, newEntries, triedEntries, buckets);
      assert FileOf(key, State(), file, newIds, triedIds);
    }

    method Find(net: NetAddr) returns (found: bool, id: int)
      ensures found <==> net in idOf && idOf[net] in entries
      ensures found ==> id == idOf[net]
    {
      if net !in idOf {
        return false, NONE;
      }
      id := idOf[net];
      found := id in entries;
    }

    // The entry starts without any reference.
    method Create(addr: Address, source: NetAddr) returns (id: int)
      modifies this
      ensures id == old(nextId)
      ensures State() == Entered(old(State()),
                           Entry(addr.(lastTry := 0), source, 0, 0, 0, false, |old(order)|)).(newCount := old(newCount))
    {
      id := nextId;
      nextId := nextId + 1;
      entries := entries[id := Entry(addr.(lastTry := 0), source, 0, 0, 0, false, -1)];
      idOf := idOf[addr.svc.net := id];
      entries := entries[id := entries[id].(pos := |order|)];
      order := order + [id];
    }

    method SwapRandom(i: nat, j: nat)
      requires i < |order| && j < |order|
      requires order[i] in entries && order[j] in entries
      modifies this
      ensures State() == Swapped(old(State()), i, j)
    {
      if i == j {
        return;
      }
      var id1, id2 := order[i], order[j];
      entries := entries[id1 := entries[id1].(pos := j)];
      entries := entries[id2 := entries[id2].(pos := i)];
      order := order[i := id2];
      order := order[j := id1];
    }

    // Takes id out of new bucket b, and forgets it when that was its last reference.
    method Unref(b: nat, id: int)
      requires MayUnref(State(), b, id)
      modifies this
      ensures State() == AddrTables.Unref(old(State()), b, id)
    {
      var e := entries[id];
      entries := entries[id := e.(refCount := e.refCount - 1)];
      if e.refCount - 1 == 0 {
        SwapRandom(e.pos, |order| - 1);
        order := order[..|order| - 1];
        idOf := idOf - {e.Net()};
        entries := entries - {id};
        newCount := newCount - 1;
      }
      news := news[b := news[b] - {id}];
    }

    // Takes one id out of bucket b: the first that is terrible at the time it is looked at,
    // else the one seen longest ago among up to four drawn at random.
    method ShrinkNew(b: nat, clock: Clock) returns (r: nat, ghost victim: int, ghost draws: set<nat>)
      requires b < |news| && news[b] != {}
      requires forall id :: id in news[b] ==> id != NONE && MayUnref(State(), b, id)
      modifies this
      ensures victim in old(news[b]) && MayUnref(old(State()), b, victim)
      ensures State() == AddrTables.Unref(old(State()), b, victim)
      ensures r == 0 || r == 1
      ensures forall id :: id in old(news[b]) ==> id in old(entries)
      ensures MayShrink(old(State()), b, victim, clock) && (r == 0 <==> IsTerrible(old(entries)[victim], clock))
      ensures r == 1 ==> |draws| <= 4 && OldestSeen(old(entries), old(news[b]), old(news[b]), draws, victim)
    {
      var bucket := news[b];
      var rest := bucket;
      draws := {};
      while rest != {}
        invariant rest <= bucket && State() == old(State())
        invariant forall id, y :: id in bucket && id !in rest && y in rest ==> id < y
        invariant forall id :: id in bucket && id !in rest ==> !IsTerrible(entries[id], clock)
        decreases |rest|
      {
        var it := Least(rest);
        assert MayUnref(State(), b, it);
        if IsTerrible(entries[it], clock) {
          Unref(b, it);
          return 0, it, {};
        }
        rest := rest - {it};
      }
      var oldest;
      oldest, draws := Oldest(entries, bucket);
      assert MayUnref(State(), b, oldest);
      Unref(b, oldest);
      r, victim := 1, oldest;
    }

    // A position in tried bucket b to replace, and the draws that led to it. The bucket is shuffled on
    // the way.
    method SelectTried(b: nat) returns (pos: int, ghost draws: seq<nat>)
      requires b < |tried|
      requires forall id :: id in tried[b] ==> id in entries && id != NONE
      modifies this`tried
      ensures |tried| == |old(tried)| && tried == old(tried)[b := tried[b]]
      ensures multiset(tried[b]) == multiset(old(tried)[b])
      ensures AreDraws(draws, |old(tried)[b]|) && |draws| == Min(TRIED_ENTRIES_INSPECTED, |old(tried)[b]|)
      ensures |tried[b]| == |old(tried)[b]| && (tried[b] != [] ==> 0 <= pos < |tried[b]|)
      ensures if old(tried)[b] == [] then pos == -1
              else var s := Selected(entries, old(tried)[b], draws); tried[b] == s.bucket && pos == s.pos
    {
      hide Selected, Drawn, AreDraws, Exchanged;
      ghost var was := tried[b];
      NoDraws(|was|);
      ghost var s := Selection(was, 0, 0);
      var oldest := NONE;
      pos, draws := -1, [];
      var i := 0;
      while i < TRIED_ENTRIES_INSPECTED && i < |tried[b]|
        invariant |tried| == |old(tried)| && 0 <= i <= |was| && i <= TRIED_ENTRIES_INSPECTED
        invariant tried == old(tried)[b := s.bucket] && |s.bucket| == |was|
        invariant |draws| == i && AreDraws(draws, |was|)
        invariant i == 0 ==> pos == -1 && oldest == NONE && s.bucket == was
        invariant i > 0 ==> s == Selected(entries, was, draws) && pos == s.pos && oldest == s.bucket[s.found]
        invariant i > 0 ==> oldest in was
      {
        var k := GetRandInt(|tried[b]| - i);
        var n := k + i;
        if i > 0 {
          OneMoreDraw(entries, was, draws, n);
          s := DrawnAt(entries, s, i, n);
        } else {
          FirstDraw(entries, was, n);
          assert draws + [n] == [n];
          s := Selection(Exchanged(was, 0, n), 0, n);
          ExchangedIs(was, 0, n);
        }
        MembersStay(was, tried[b], entries);
        var bucket := tried[b];
        var x := bucket[n];
        bucket := bucket[n := bucket[i]][i := x];
        assert bucket == s.bucket;
        tried := tried[b := bucket];
        draws := draws + [n];
        if oldest == NONE || entries[x].lastSuccess < entries[oldest].lastSuccess {
          oldest := x;
          pos := n;
        }
        i := i + 1;
      }
      if was != [] {
        MembersStay(was, s.bucket, entries);
        DrawInRange(draws, |was|, s.found);
      }
    }

    // Takes id out of every new bucket, lowering its count each time.
    method WithdrawAll(id: int)
      requires id in entries
      modifies this`news, this`entries
      ensures news == Withdrawn(old(news), id)
      ensures entries ==
              old(entries)[id := old(entries)[id].(refCount := old(entries)[id].refCount - |BucketsOf(old(news), id)|)]
    {
      hide BucketsOf;
      ghost var news0, e0 := news, entries[id];
      var i := 0;
      WithdrawnNone(news, id);
      while i < |news|
        invariant 0 <= i <= |news| == |news0|
        invariant forall c :: 0 <= c < |news| ==> news[c] == if c < i then news0[c] - {id} else news0[c]
        invariant entries == old(entries)[id := e0.(refCount := e0.refCount - |BucketsOf(news0[..i], id)|)]
      {
        BucketsOfPrefix(news0, i, id);
        if id in news[i] {
          news := news[i := news[i] - {id}];
          entries := entries[id := entries[id].(refCount := entries[id].refCount - 1)];
        }
        i := i + 1;
      }
      assert news0[..i] == news0;
      assert news == Withdrawn(news0, id);
    }

    // Moves id, which is in new bucket origin, to the tried table.
    method MakeTried(id: int, origin: nat)
      requires MoveReady(h, key, State(), origin, id)
      modifies this
      ensures Moved(h, key, old(State()), origin, id, State())
    {
      ghost var t0 := State();
      WithdrawAll(id);
      newCount := newCount - 1;
      assert entries[id].refCount == 0;
      var b := h.TriedBucket(key, entries[id].addr.svc);
      if |tried[b]| < TRIED_BUCKET_SIZE {
        tried := tried[b := tried[b] + [id]];
        triedCount := triedCount + 1;
        entries := entries[id := entries[id].(inTried := true)];
        return;
      }
      ReplaceInTried(id, origin, b, t0);
    }

    // The tried bucket is full: one of its entries makes room for id and becomes new again.
    method ReplaceInTried(id: int, origin: nat, b: nat, ghost t0: Tables)
      requires MoveReady(h, key, t0, origin, id) && State() == Withdrawing(t0, id)
      requires b == h.TriedBucket(key, t0.entries[id].addr.svc) && |tried[b]| == TRIED_BUCKET_SIZE
      modifies this
      ensures Moved(h, key, t0, origin, id, State())
    {
      hide Selected, AreDraws;
      var pos, draws := SelectTried(b);
      ghost var shuffled := tried[b];
      SelectedAlike(t0.entries, Withdrawing(t0, id).entries, t0.tried[b], draws);
      var evicted := tried[b][pos];
      assert evicted in t0.tried[b] by { assert evicted in multiset(tried[b]); }
      var home := h.NewBucket(key, entries[evicted].Net(), entries[evicted].source);
      var dest := if |news[home]| < NEW_BUCKET_SIZE then home else origin;
      Exchange(id, b, pos, dest);
      ExchangedIsReplaced(t0, id, b, shuffled, pos, dest);
      assert MovedInto(h, key, t0, b, origin, id, State(), draws, dest);
    }

    // The entry at pos goes to new bucket dest, and id takes its place.
    method Exchange(id: int, b: nat, pos: nat, dest: nat)
      requires b < |tried| && pos < |tried[b]| && tried[b][pos] in entries && id in entries && tried[b][pos] != id
      requires dest < |news|
      modifies this
      ensures State() == ExchangedFor(old(State()), id, b, pos, dest)
    {
      var evicted := tried[b][pos];
      entries := entries[evicted := entries[evicted].(inTried := false, refCount := 1)];
      news := news[dest := news[dest] + {evicted}];
      newCount := newCount + 1;
      tried := tried[b := tried[b][pos := id]];
      entries := entries[id := entries[id].(inTried := true)];
    }

    method Good(svc: Service, time: int)
      requires Valid() && time > 0
      modifies this
      ensures Valid()
      ensures GoodStep(h, key, old(Known()), svc, time, Known())
      ensures GoodTables(h, key, old(State()), svc, time, State())
    {
      hide Inv, View;
      ghost var t0 := State();
      FindFacts(h, key, t0, svc.net);
      var found, id := Find(svc.net);
      if !found {
        return;
      }
      if entries[id].addr.svc != svc {
        return;
      }
      RecordIsUpdate(h, key, t0, id, SucceededEntry(entries[id], time));
      entries := entries[id := entries[id].(lastSuccess := time)];
      entries := entries[id := entries[id].(addr := entries[id].addr.(lastTry := time, time := ToUint32(time)))];
      entries := entries[id := entries[id].(attempts := 0)];
      ghost var t1 := State();
      assert t1 == Recorded(t0, id, SucceededEntry(t0.entries[id], time));
      if entries[id].inTried {
        return;
      }
      var origin := FindBucket(id);
      // The bail-out for an entry without a bucket is never taken.
      assert origin != -1;
      if origin == -1 {
        return;
      }
      MemberMoveReady(h, key, t1, origin, id);
      MakeTried(id, origin);
      MovedIsStep(h, key, t1, origin, id, State());
    }

    // A new bucket that holds id, the search starting at a random one.
    method FindBucket(id: int) returns (b: int)
      requires Valid() && id in entries && !entries[id].inTried
      ensures 0 <= b < |news| && id in news[b]
    {
      hide Inv;
      var c := SomeBucket(h, key, State(), id);
      var start := GetRandInt(|news|);
      ghost var hit := (c + NEW_BUCKET_COUNT - start) % NEW_BUCKET_COUNT;
      assert Turn(start, hit) == c;
      for n := 0 to |news|
        invariant n <= hit
      {
        b := Turn(start, n);
        if id in news[b] {
          return;
        }
      }
      b := -1;
      assert false;
    }

    method Attempt(svc: Service, time: int)
      requires Valid() && time >= 0
      modifies this
      ensures Valid()
      ensures AttemptStep(old(Known()), svc, time, Known())
    {
      hide Inv, View;
      ghost var t0 := State();
      FindFacts(h, key, t0, svc.net);
      var found, id := Find(svc.net);
      if !found {
        return;
      }
      if entries[id].addr.svc != svc {
        return;
      }
      RecordIsUpdate(h, key, t0, id, AttemptedEntry(entries[id], time));
      entries := entries[id := entries[id].(addr := entries[id].addr.(lastTry := time))];
      entries := entries[id := entries[id].(attempts := entries[id].attempts + 1)];
      assert State() == Recorded(t0, id, AttemptedEntry(t0.entries[id], time));
    }

    method Connected(svc: Service, time: int)
      requires Valid()
      modifies this
      ensures Valid()
      ensures ConnectedStep(old(Known()), svc, time, Known())
    {
      hide Inv, View;
      ghost var t0 := State();
      FindFacts(h, key, t0, svc.net);
      var found, id := Find(svc.net);
      if !found {
        return;
      }
      if entries[id].addr.svc != svc {
        return;
      }
      RecordIsUpdate(h, key, t0, id, ConnectedEntry(entries[id], time));
      var interval := 20 * 60;
      if time - entries[id].addr.time > interval {
        entries := entries[id := entries[id].(addr := entries[id].addr.(time := ToUint32(time)))];
      }
      assert entries == t0.entries[id := ConnectedEntry(t0.entries[id], time)];
      assert State() == Recorded(t0, id, ConnectedEntry(t0.entries[id], time));
    }

    // Puts id, whose count has been raised, into bucket b, making room there first if needed.
    method PlaceIn(b: nat, id: int, clock: Clock)
      requires Inv(h, key, State(), id) && PlaceReady(State(), b, id)
      modifies this
      ensures Valid()
      ensures old(entries)[id].Net() in old(Known()) && old(Known())[old(entries)[id].Net()].place.New?
      ensures PlaceStep(old(Known()), old(entries)[id].Net(), b, clock, Known())
    {
      hide Inv, View, PlaceStep, AddrTables.Unref;
      ghost var t0 := State();
      if |news[b]| == NEW_BUCKET_SIZE {
        assert news[b] != {};
        var r;
        ghost var victim, draws;
        r, victim, draws := ShrinkNew(b, clock);
        PlaceAfterUnref(h, key, t0, b, id, victim, clock);
        ghost var t1 := State();
        news := news[b := news[b] + {id}];
        assert State() == Inserted(t1, b, id);
      } else {
        PlaceDirect(h, key, t0, b, id, clock);
        news := news[b := news[b] + {id}];
        assert State() == Inserted(t0, b, id);
      }
    }

    method Add(addr: Address, source: NetAddr, penalty: int, now: int, clock: Clock)
      returns (added: bool, ghost luck: nat)
      requires Valid()
      modifies this
      ensures Valid()
      ensures AddStep(h, key, old(Known()), addr, source, penalty, now, clock, luck, Known(), added)
    {
      hide Inv, View, PlaceStep;
      luck := 0;
      if !h.routable(addr.svc.net) {
        return false, 0;
      }
      FindFacts(h, key, State(), addr.svc.net);
      var found, id := Find(addr.svc.net);
      if found {
        Reannounce(id, addr, penalty, now);
        luck := AddReference(id, addr, source, clock);
        added := false;
      } else {
        AddFirst(addr, source, penalty, clock);
        added := true;
      }
    }

    // Time and services of a known address announced again.
    method Reannounce(id: int, addr: Address, penalty: int, now: int)
      requires Valid() && id in entries && entries[id].Net() == addr.svc.net
      modifies this`entries
      ensures Valid() && id in entries && entries[id].Net() == addr.svc.net
      ensures addr.svc.net in old(Known())
      ensures Known() == old(Known())[addr.svc.net := Reannounced(old(Known())[addr.svc.net], addr, penalty, now)]
    {
      hide Inv, View;
      ghost var t0 := State();
      ReannounceKeeps(h, key, t0, id, addr, penalty, now);
      var online := now - addr.time < 24 * 60 * 60;
      var interval := if online then 60 * 60 else 24 * 60 * 60;
      var e := entries[id];
      var time := e.addr.time;
      if addr.time != 0 && (time == 0 || time < addr.time - interval - penalty) {
        time := ToUint32(Max(0, addr.time - penalty));
      }
      assert time == ReannouncedTime(e.addr.time, addr, penalty, now);
      e := e.(addr := e.addr.(time := time));
      e := e.(addr := e.addr.(services := e.addr.services + addr.services));
      entries := entries[id := e];
      assert State() == Recorded(t0, id, ReannouncedEntry(t0.entries[id], addr, penalty, now));
    }

    // One more reference for a known address, if this announcement is news and luck allows it.
    method AddReference(id: int, addr: Address, source: NetAddr, clock: Clock) returns (ghost luck: nat)
      requires Valid() && id in entries && entries[id].Net() == addr.svc.net
      modifies this
      ensures Valid() && addr.svc.net in old(Known())
      ensures var k := old(Known())[addr.svc.net];
              if !MayAddReference(k, addr) then Known() == old(Known())
              else if luck != 0 then luck < Pow2(|k.place.buckets|) && Known() == old(Known())
              else PlaceStep(old(Known()), addr.svc.net, h.NewBucket(key, addr.svc.net, source), clock, Known())
    {
      hide Inv, View, PlaceStep;
      var b := h.NewBucket(key, addr.svc.net, source);
      ghost var t1 := State();
      ReferenceFacts(h, key, t1, id, b);
      luck := 0;
      if addr.time == 0 || (entries[id].addr.time != 0 && addr.time <= entries[id].addr.time) {
        return;
      }
      if entries[id].inTried {
        return;
      }
      if entries[id].refCount == NEW_BUCKETS_PER_ADDRESS {
        return;
      }
      // each reference already held makes another one half as likely
      var factor := 1;
      for n := 0 to entries[id].refCount
        invariant factor == Pow2(n)
      {
        factor := factor * 2;
      }
      var r := GetRandInt(factor);
      luck := r;
      if factor > 1 && r != 0 {
        return;
      }
      if id !in news[b] {
        RaiseKeeps(h, key, t1, id);
        entries := entries[id := entries[id].(refCount := entries[id].refCount + 1)];
        assert State() == Raised(t1, id);
        AheadPlaceReady(h, key, State(), b, id);
        PlaceIn(b, id, clock);
      } else {
        PlacedAlready(Known(), addr.svc.net, b, clock);
      }
    }

    method AddFirst(addr: Address, source: NetAddr, penalty: int, clock: Clock)
      requires Valid() && addr.svc.net !in idOf
      modifies this
      ensures Valid()
      ensures PlaceStep(old(Known())[addr.svc.net := FirstSeen(addr, source, penalty)], addr.svc.net,
                        h.NewBucket(key, addr.svc.net, source), clock, Known())
    {
      hide Inv, View, PlaceStep;
      ghost var t0 := State();
      FirstEntryKeeps(h, key, t0, addr, source, penalty);
      var id := Create(addr, source);
      var time := ToUint32(Max(0, entries[id].addr.time - penalty));
      entries := entries[id := entries[id].(addr := entries[id].addr.(time := time))];
      newCount := newCount + 1;
      var b := h.NewBucket(key, addr.svc.net, source);
      if id !in news[b] {
        entries := entries[id := entries[id].(refCount := entries[id].refCount + 1)];
        ghost var x := FirstEntry(addr, source, penalty, |t0.order|);
        assert entries == t0.entries[id := x];
        assert State() == Entered(t0, x);
        AheadPlaceReady(h, key, State(), b, id);
        PlaceIn(b, id, clock);
      }
    }

    // The consistency check: zero if every index agrees with every other, else what is wrong.
    method Check() returns (r: int)
      modifies this`idOf
      ensures r == 0 <==> Consistent(old(State()))
      ensures old(Valid()) ==> r == 0 && State() == old(State())
    {
      ghost var t0 := State();
      ValidIsConsistent(h, key, t0);
      hide Inv, Consistent;
      if |order| != triedCount + newCount {
        ConsistentParts(t0);
        return -7;
      }
      var triedSet, pending, index;
      r, triedSet, pending, index := CheckEntries(entries, idOf, order);
      idOf := index;
      ConsistentParts(t0);
      if r != 0 {
        return;
      }
      if |triedSet| != triedCount {
        return -9;
      }
      if |pending.Keys| != newCount {
        return -10;
      }
      var left, unseen;
      r, left := CheckTried(tried, triedSet);
      if r != 0 {
        return;
      }
      r, unseen := CheckNew(news, entries, pending);
      if r != 0 {
        return;
      }
      if left != {} {
        return -13;
      }
      if unseen != map[] {
        return -15;
      }
    }

    // Up to 2500 addresses, at most 23 percent of all, drawn without repetition.
    method GetAddr() returns (addrs: seq<Address>)
      requires Valid()
      modifies this
      ensures Valid() && Known() == old(Known())
      ensures multiset(order) == multiset(old(order))
      ensures |addrs| == Min(2500, 23 * |Known()| / 100)
      ensures forall i :: 0 <= i < |addrs| ==> addrs[i].svc.net in Known() && addrs[i] == Known()[addrs[i].svc.net].addr
      ensures forall i, j :: 0 <= i < j < |addrs| ==> addrs[i].svc.net != addrs[j].svc.net
    {
      hide Inv, View, Swapped;
      var nodes := GETADDR_MAX_PERCENT * |order| / 100;
      if nodes > GETADDR_MAX {
        nodes := GETADDR_MAX;
      }
      addrs := [];
      ghost var book := Known();
      ViewSize(h, key, State(), NONE);
      for n := 0 to nodes
        invariant Valid() && Known() == book && |order| == |old(order)| && n <= nodes <= |order|
        invariant multiset(order) == multiset(old(order))
        invariant |addrs| == n
        invariant forall i :: 0 <= i < n ==> order[i] in entries && addrs[i] == entries[order[i]].addr
      {
        var k := GetRandInt(|order| - n);
        var pos := k + n;
        ghost var t0 := State();
        SwapKeeps(h, key, t0, n, pos, NONE);
        DrawStep(t0, n, pos, addrs);
        SwapRandom(n, pos);
        addrs := addrs + [entries[order[n]].addr];
      }
      DrawnDistinct(h, key, State(), addrs);
    }
  }
}
