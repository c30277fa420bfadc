/** The file format of the address manager: what is written, what reading it back builds,
    and that a saved book is read back complete. */
module AddrDisk {
  import opened AddrTypes
  import opened AddrBook
  import opened AddrTables
  import opened FiniteSets

  // One entry as written: no time of the last try, no count, no place, no position.
  datatype DiskEntry = DiskEntry(svc: Service, services: set<nat>, time: nat, source: NetAddr,
                                 lastSuccess: int, attempts: int)

  // buckets[b] lists, for new bucket b, positions among the new entries.
  datatype File = File(key: Bytes, newCount: int, triedCount: int, bucketCount: int,
                       newEntries: seq<DiskEntry>, triedEntries: seq<DiskEntry>, buckets: seq<seq<int>>)

  function OnDisk(e: Entry): DiskEntry {
    DiskEntry(e.addr.svc, e.addr.services, e.addr.time, e.source, e.lastSuccess, e.attempts)
  }

  function FromDisk(d: DiskEntry, refCount: int, inTried: bool, pos: int): Entry {
    Entry(Address(d.svc, d.services, d.time, 0), d.source, d.lastSuccess, d.attempts, refCount, inTried, pos)
  }

  // ----- what saving writes

  function IndexIn(ids: seq<int>, id: int): (i: int)
    requires id in ids
    ensures 0 <= i < |ids| && ids[i] == id
  {
    if ids[|ids| - 1] == id then |ids| - 1 else IndexIn(ids[..|ids| - 1], id)
  }

  ghost predicate Lists(ids: seq<int>, s: set<int>) {
    Distinct(ids) && forall id :: id in ids <==> id in s
  }

  // The file written for tables t, its new and tried entries being those of the ids listed.
  ghost predicate FileOf(key: Bytes, t: Tables, file: File, newIds: seq<int>, triedIds: seq<int>) {
    && file.key == key && file.newCount == t.newCount && file.triedCount == t.triedCount
    && file.bucketCount == NEW_BUCKET_COUNT
    && Lists(newIds, NewIds(t.entries)) && Lists(triedIds, TriedIds(t.entries))
    && |file.newEntries| == |newIds| && |file.triedEntries| == |triedIds|
    && (forall i :: 0 <= i < |newIds| ==> newIds[i] in t.entries && file.newEntries[i] == OnDisk(t.entries[newIds[i]]))
    && (forall i :: 0 <= i < |triedIds| ==>
         triedIds[i] in t.entries && file.triedEntries[i] == OnDisk(t.entries[triedIds[i]]))
    && |file.buckets| == |t.news|
    && (forall b :: 0 <= b < |t.news| ==> BucketFile(t.news[b], file.buckets[b], newIds))
  }

  // A file that holds the tables, in some order of the ids.
  ghost predicate FileFor(key: Bytes, t: Tables, file: File) {
    exists newIds: seq<int>, triedIds: seq<int> :: FileOf(key, t, file, newIds, triedIds)
  }

  // A bucket is written as the positions of its ids among the new ids, each once.
  ghost predicate BucketFile(bucket: set<int>, written: seq<int>, newIds: seq<int>) {
    && Distinct(written)
    && (forall i :: i in written ==> 0 <= i < |newIds|)
    && (forall i :: 0 <= i < |newIds| ==> (i in written <==> newIds[i] in bucket))
  }

  // ----- what loading builds

  function Empty(file: File): (s: Tables)
    ensures |s.tried| == TRIED_BUCKET_COUNT && forall b :: 0 <= b < |s.tried| ==> s.tried[b] == []
    ensures |s.news| == NEW_BUCKET_COUNT && forall b :: 0 <= b < |s.news| ==> s.news[b] == {}
  {
    Tables(0, map[], map[], [], file.triedCount, seq(TRIED_BUCKET_COUNT, _ => []),
           file.newCount, seq(NEW_BUCKET_COUNT, _ => {}))
  }

  // One new entry read. With a different number of buckets its bucket is computed anew.
  function ReadNew(h: Hashing, key: Bytes, rebuild: bool, s: Tables, n: int, d: DiskEntry): Tables
    requires |s.news| == NEW_BUCKET_COUNT
  {
    var b := h.NewBucket(key, d.svc.net, d.source);
    s.(entries := s.entries[n := FromDisk(d, if rebuild then 1 else 0, false, |s.order|)],
       idOf := s.idOf[d.svc.net := n],
       order := s.order + [n],
       news := if rebuild then s.news[b := s.news[b] + {n}] else s.news)
  }

  function ReadNews(h: Hashing, file: File, n: nat): (s: Tables)
    requires n <= |file.newEntries|
    ensures |s.news| == NEW_BUCKET_COUNT && |s.tried| == TRIED_BUCKET_COUNT
    ensures s.newCount == file.newCount && s.triedCount == file.triedCount && s.nextId == 0
  {
    if n == 0 then Empty(file)
    else ReadNew(h, file.key, file.bucketCount != NEW_BUCKET_COUNT,
                 ReadNews(h, file, n - 1), n - 1, file.newEntries[n - 1])
  }

  // One tried entry read: it is lost when its bucket is full.
  function ReadTried(h: Hashing, key: Bytes, s: Tables, d: DiskEntry): Tables
    requires |s.tried| == TRIED_BUCKET_COUNT
  {
    var b := h.TriedBucket(key, d.svc);
    if |s.tried[b]| < TRIED_BUCKET_SIZE then
      s.(nextId := s.nextId + 1,
         entries := s.entries[s.nextId := FromDisk(d, 0, true, |s.order|)],
         idOf := s.idOf[d.svc.net := s.nextId],
         order := s.order + [s.nextId],
         tried := s.tried[b := s.tried[b] + [s.nextId]])
    else s.(triedCount := s.triedCount - 1)
  }

  lemma ReadTriedShift(h: Hashing, key: Bytes, s: Tables, d: DiskEntry, c: int)
    requires |s.tried| == TRIED_BUCKET_COUNT
    ensures ReadTried(h, key, s.(triedCount := c), d) ==
            ReadTried(h, key, s, d).(triedCount :=
              if |s.tried[h.TriedBucket(key, d.svc)]| < TRIED_BUCKET_SIZE then c else c - 1)
  {
  }

  function ReadTrieds(h: Hashing, file: File, n: nat): (s: Tables)
    requires n <= |file.triedEntries|
    ensures |s.news| == NEW_BUCKET_COUNT && |s.tried| == TRIED_BUCKET_COUNT
  {
    if n == 0 then ReadNews(h, file, |file.newEntries|).(nextId := file.newCount)
    else ReadTried(h, file.key, ReadTrieds(h, file, n - 1), file.triedEntries[n - 1])
  }

  const BLANK := Entry(Address(Service(NetAddr(0), 0), {0}, 100000000, 0), NetAddr(0), 0, 0, 0, false, -1)

  // One position of bucket b read; an unknown position stands for a blank entry.
  function ReadIndex(rebuild: bool, s: Tables, b: nat, i: int): Tables
    requires b < |s.news|
  {
    var e := if i in s.entries then s.entries[i] else BLANK;
    if !rebuild && e.refCount < NEW_BUCKETS_PER_ADDRESS then
      s.(entries := s.entries[i := e.(refCount := e.refCount + 1)], news := s.news[b := s.news[b] + {i}])
    else s.(entries := s.entries[i := e])
  }

  function ReadBucket(rebuild: bool, s: Tables, b: nat, written: seq<int>): (r: Tables)
    requires b < |s.news|
    ensures |r.news| == |s.news|
    decreases |written|
  {
    if written == [] then s
    else ReadIndex(rebuild, ReadBucket(rebuild, s, b, written[..|written| - 1]), b, written[|written| - 1])
  }

  function ReadBuckets(rebuild: bool, s: Tables, buckets: seq<seq<int>>): (r: Tables)
    requires |buckets| <= |s.news|
    ensures |r.news| == |s.news|
    decreases |buckets|
  {
    if buckets == [] then s
    else
      var n := |buckets| - 1;
      ReadBucket(rebuild, ReadBuckets(rebuild, s, buckets[..n]), n, buckets[n])
  }

  // Files that can be read at all: the lists are as long as announced, and no more buckets
  // than there are.
  predicate Readable(file: File) {
    && file.newCount == |file.newEntries| && file.triedCount == |file.triedEntries|
    && file.bucketCount == |file.buckets| <= NEW_BUCKET_COUNT
  }

  function Loaded(h: Hashing, file: File): Tables
    requires Readable(file)
  {
    ReadBuckets(file.bucketCount != NEW_BUCKET_COUNT, ReadTrieds(h, file, |file.triedEntries|), file.buckets)
  }

  // ----- reading back what was saved

  // The book, except for the times of the last tries, which are not saved.
  function Unstamped(k: Known): Known { k.(addr := k.addr.(lastTry := 0)) }

  function UnstampedBook(v: Book): Book { map a | a in v :: Unstamped(v[a]) }

  predicate At(m: map<NetAddr, int>, a: NetAddr, i: int) { a in m && m[a] == i }

  // The saved ids in the order in which they are read: first the new, then the tried.
  ghost predicate AllIds(t: Tables, all: seq<int>, newLen: nat) {
    && newLen <= |all| && Distinct(all)
    && (forall i :: 0 <= i < |all| ==> all[i] in t.entries && (t.entries[all[i]].inTried <==> newLen <= i))
    && (forall id :: id in t.entries ==> id in all)
  }

  // m entries have been read: the i-th id read is i, and stands for saved id all[i].
  ghost predicate EntriesRead(t: Tables, all: seq<int>, newLen: nat, s: Tables, m: nat)
    requires AllIds(t, all, newLen)
  {
    && m <= |all|
    && |s.order| == m
    && (forall i :: 0 <= i < m ==> s.order[i] == i)
    && (forall i :: i in s.entries <==> 0 <= i < m)
    && (forall i :: 0 <= i < m ==> s.entries[i] == FromDisk(OnDisk(t.entries[all[i]]), 0, newLen <= i, i))
    && (forall i :: 0 <= i < m ==> At(s.idOf, t.entries[all[i]].Net(), i))
    && (forall a :: a in s.idOf ==> 0 <= s.idOf[a] < m && t.entries[all[s.idOf[a]]].Net() == a)
    && (forall b :: 0 <= b < |s.news| ==> s.news[b] == {})
    && s.newCount == t.newCount && s.triedCount == t.triedCount
  }

  ghost predicate SlotBucket(h: Hashing, key: Bytes, t: Tables, all: seq<int>, newLen: nat,
                             b: nat, bucket: seq<int>, m: nat)
    requires AllIds(t, all, newLen) && m <= |all|
  {
    && |bucket| <= TRIED_BUCKET_SIZE && Distinct(bucket)
    && forall x :: x in bucket ==> newLen <= x < m && h.TriedBucket(key, t.entries[all[x]].addr.svc) == b
  }

  // The tried ones among the first m entries fill the tried buckets their hashes name.
  ghost predicate SlotsRead(h: Hashing, key: Bytes, t: Tables, all: seq<int>, newLen: nat, s: Tables, m: nat)
    requires AllIds(t, all, newLen)
  {
    && m <= |all| && |s.tried| == TRIED_BUCKET_COUNT
    && (forall b :: 0 <= b < |s.tried| ==> SlotBucket(h, key, t, all, newLen, b, s.tried[b], m))
    && (forall x :: newLen <= x < m ==> x in s.tried[h.TriedBucket(key, t.entries[all[x]].addr.svc)])
  }

  lemma NetsDiffer(t: Tables, all: seq<int>, newLen: nat, m: nat)
    requires Indexed(t.entries, t.idOf) && AllIds(t, all, newLen) && m < |all|
    ensures forall i :: 0 <= i < m ==> t.entries[all[i]].Net() != t.entries[all[m]].Net()
  {
    forall i | 0 <= i < m ensures t.entries[all[i]].Net() != t.entries[all[m]].Net() {
      assert all[i] != all[m];
      assert all[i] in t.entries && all[m] in t.entries;
    }
  }

  lemma EntryStep(t: Tables, all: seq<int>, newLen: nat, s: Tables, m: nat, s': Tables)
    requires AllIds(t, all, newLen) && EntriesRead(t, all, newLen, s, m) && m < |all|
    requires forall i :: 0 <= i < m ==> t.entries[all[i]].Net() != t.entries[all[m]].Net()
    requires s'.entries == s.entries[m := FromDisk(OnDisk(t.entries[all[m]]), 0, newLen <= m, m)]
    requires s'.idOf == s.idOf[t.entries[all[m]].Net() := m] && s'.order == s.order + [m] && s'.news == s.news
    requires s'.newCount == s.newCount && s'.triedCount == s.triedCount
    ensures EntriesRead(t, all, newLen, s', m + 1)
  {
    hide FromDisk, OnDisk, Distinct;
  }

  lemma NothingRead(h: Hashing, key: Bytes, t: Tables, all: seq<int>, newLen: nat, file: File)
    requires AllIds(t, all, newLen) && file.newCount == t.newCount && file.triedCount == t.triedCount
    ensures EntriesRead(t, all, newLen, Empty(file), 0)
    ensures SlotsRead(h, key, t, all, newLen, Empty(file), 0)
  {
  }

  lemma OrderLength(t: Tables, all: seq<int>, newLen: nat, s: Tables, m: nat)
    requires AllIds(t, all, newLen) && EntriesRead(t, all, newLen, s, m)
    ensures |s.order| == m
  {
  }

  lemma SameSlots(h: Hashing, key: Bytes, t: Tables, all: seq<int>, newLen: nat, s: Tables, m: nat, s': Tables)
    requires AllIds(t, all, newLen) && SlotsRead(h, key, t, all, newLen, s, m) && m < newLen && s'.tried == s.tried
    ensures SlotsRead(h, key, t, all, newLen, s', m + 1)
  {
    forall c | 0 <= c < |s'.tried| ensures SlotBucket(h, key, t, all, newLen, c, s'.tried[c], m + 1) {
      assert SlotBucket(h, key, t, all, newLen, c, s.tried[c], m);
    }
  }

  lemma {:induction false} NewsRead(h: Hashing, key: Bytes, t: Tables, file: File, newIds: seq<int>,
                                    triedIds: seq<int>, n: nat)
    requires Indexed(t.entries, t.idOf) && FileOf(key, t, file, newIds, triedIds) && n <= |newIds|
    requires AllIds(t, newIds + triedIds, |newIds|)
    ensures EntriesRead(t, newIds + triedIds, |newIds|, ReadNews(h, file, n), n)
    ensures SlotsRead(h, key, t, newIds + triedIds, |newIds|, ReadNews(h, file, n), n)
  {
    var all := newIds + triedIds;
    if n == 0 {
      NothingRead(h, key, t, all, |newIds|, file);
    } else {
      hide EntriesRead, SlotsRead;
      NewsRead(h, key, t, file, newIds, triedIds, n - 1);
      var s := ReadNews(h, file, n - 1);
      var s' := ReadNews(h, file, n);
      assert all[n - 1] == newIds[n - 1];
      assert s' == ReadNew(h, key, false, s, n - 1, OnDisk(t.entries[all[n - 1]]));
      NetsDiffer(t, all, |newIds|, n - 1);
      OrderLength(t, all, |newIds|, s, n - 1);
      EntryStep(t, all, |newIds|, s, n - 1, s');
      SameSlots(h, key, t, all, |newIds|, s, n - 1, s');
    }
  }

  lemma InItsBucket(h: Hashing, key: Bytes, entries: Entries, tried: seq<seq<int>>, id: int)
    requires TriedPlaced(h, key, entries, tried) && id in entries && entries[id].inTried
    ensures id in tried[h.TriedBucket(key, entries[id].addr.svc)]
  {
    hide TriedBucketOk;
  }

  // The bucket of the next tried entry is not full yet: nothing is lost.
  lemma RoomForTried(h: Hashing, key: Bytes, t: Tables, all: seq<int>, newLen: nat, s: Tables, m: nat)
    requires TriedPlaced(h, key, t.entries, t.tried) && AllIds(t, all, newLen)
    requires SlotsRead(h, key, t, all, newLen, s, m) && newLen <= m < |all|
    ensures |s.tried[h.TriedBucket(key, t.entries[all[m]].addr.svc)]| < TRIED_BUCKET_SIZE
  {
    var b := h.TriedBucket(key, t.entries[all[m]].addr.svc);
    assert all[m] in t.entries && t.entries[all[m]].inTried;
    InItsBucket(h, key, t.entries, t.tried, all[m]);
    var slots := s.tried[b];
    assert SlotBucket(h, key, t, all, newLen, b, slots, m);
    assert TriedBucketOk(h, key, t.entries, b, t.tried[b]);
    forall k | 0 <= k < |slots|
      ensures 0 <= slots[k] < |all| && all[slots[k]] in t.tried[b] && slots[k] != m
    {
      assert slots[k] in slots;
      assert all[slots[k]] in t.entries && t.entries[all[slots[k]]].inTried;
      InItsBucket(h, key, t.entries, t.tried, all[slots[k]]);
    }
    hide TriedPlaced, SlotsRead, TriedBucketOk, SlotBucket;
    FewerSlots(all, slots, t.tried[b], m);
  }

  // Slots for different ids of a bucket leave room when one of its ids has none.
  lemma FewerSlots(all: seq<int>, slots: seq<int>, bucket: seq<int>, m: nat)
    requires Distinct(all) && Distinct(slots) && Distinct(bucket) && m < |all| && all[m] in bucket
    requires forall k :: 0 <= k < |slots| ==> 0 <= slots[k] < |all| && all[slots[k]] in bucket && slots[k] != m
    ensures |slots| < |bucket|
  {
    var images := seq(|slots|, k requires 0 <= k < |slots| => all[slots[k]]);
    OneOver(bucket, images, all[m]);
  }

  lemma OneOver(bucket: seq<int>, images: seq<int>, x: int)
    requires Distinct(bucket) && Distinct(images) && x in bucket
    requires forall k :: 0 <= k < |images| ==> images[k] in bucket && images[k] != x
    ensures |images| < |bucket|
  {
    DistinctSize(images);
    DistinctSize(bucket);
    OneLess((set y | y in images), (set y | y in bucket), x);
  }

  lemma SlotStep(h: Hashing, key: Bytes, t: Tables, all: seq<int>, newLen: nat, s: Tables, m: nat, s': Tables)
    requires AllIds(t, all, newLen) && SlotsRead(h, key, t, all, newLen, s, m) && newLen <= m < |all|
    requires var b := h.TriedBucket(key, t.entries[all[m]].addr.svc);
             |s.tried[b]| < TRIED_BUCKET_SIZE && s'.tried == s.tried[b := s.tried[b] + [m]]
    ensures SlotsRead(h, key, t, all, newLen, s', m + 1)
  {
    var b := h.TriedBucket(key, t.entries[all[m]].addr.svc);
    assert SlotBucket(h, key, t, all, newLen, b, s.tried[b], m);
    assert m !in s.tried[b];
    forall c | 0 <= c < |s'.tried| ensures SlotBucket(h, key, t, all, newLen, c, s'.tried[c], m + 1) {
      assert SlotBucket(h, key, t, all, newLen, c, s.tried[c], m);
    }
    forall x | newLen <= x < m + 1 ensures x in s'.tried[h.TriedBucket(key, t.entries[all[x]].addr.svc)] {
      assert x < m ==> x in s.tried[h.TriedBucket(key, t.entries[all[x]].addr.svc)];
    }
  }

  lemma NextIdSet(h: Hashing, key: Bytes, t: Tables, all: seq<int>, m: nat, s: Tables, nextId: int)
    requires AllIds(t, all, m) && EntriesRead(t, all, m, s, m) && SlotsRead(h, key, t, all, m, s, m)
    ensures EntriesRead(t, all, m, s.(nextId := nextId), m) && SlotsRead(h, key, t, all, m, s.(nextId := nextId), m)
  {
  }

  lemma FileParts(key: Bytes, t: Tables, file: File, newIds: seq<int>, triedIds: seq<int>, k: nat)
    requires FileOf(key, t, file, newIds, triedIds) && k < |triedIds|
    ensures file.key == key && |file.newEntries| == |newIds| && |file.triedEntries| == |triedIds|
    ensures triedIds[k] in t.entries && file.triedEntries[k] == OnDisk(t.entries[triedIds[k]])
  {
  }

  lemma {:induction false} TriedsRead(h: Hashing, key: Bytes, t: Tables, file: File, newIds: seq<int>,
                                      triedIds: seq<int>, n: nat)
    requires Indexed(t.entries, t.idOf) && TriedPlaced(h, key, t.entries, t.tried)
    requires FileOf(key, t, file, newIds, triedIds) && n <= |triedIds|
    requires AllIds(t, newIds + triedIds, |newIds|) && t.newCount == |newIds|
    ensures EntriesRead(t, newIds + triedIds, |newIds|, ReadTrieds(h, file, n), |newIds| + n)
    ensures SlotsRead(h, key, t, newIds + triedIds, |newIds|, ReadTrieds(h, file, n), |newIds| + n)
    ensures ReadTrieds(h, file, n).nextId == |newIds| + n
  {
    hide EntriesRead, SlotsRead, AllIds, TriedPlaced, Indexed, OnDisk, ReadTried;
    var all := newIds + triedIds;
    if n == 0 {
      TriedsReadNone(h, key, t, file, newIds, triedIds);
    } else {
      FileParts(key, t, file, newIds, triedIds, n - 1);
      hide FileOf;
      TriedsRead(h, key, t, file, newIds, triedIds, n - 1);
      assert all[|newIds| + n - 1] == triedIds[n - 1];
      ReadTriedStep(h, key, t, all, |newIds|, ReadTrieds(h, file, n - 1), |newIds| + n - 1);
    }
  }

  lemma TriedsReadNone(h: Hashing, key: Bytes, t: Tables, file: File, newIds: seq<int>, triedIds: seq<int>)
    requires Indexed(t.entries, t.idOf) && FileOf(key, t, file, newIds, triedIds)
    requires AllIds(t, newIds + triedIds, |newIds|) && t.newCount == |newIds|
    ensures EntriesRead(t, newIds + triedIds, |newIds|, ReadTrieds(h, file, 0), |newIds|)
    ensures SlotsRead(h, key, t, newIds + triedIds, |newIds|, ReadTrieds(h, file, 0), |newIds|)
    ensures ReadTrieds(h, file, 0).nextId == |newIds|
  {
    hide EntriesRead, SlotsRead, AllIds, Indexed;
    NewsRead(h, key, t, file, newIds, triedIds, |newIds|);
    NextIdSet(h, key, t, newIds + triedIds, |newIds|, ReadNews(h, file, |newIds|), file.newCount);
  }

  lemma ReadTriedStep(h: Hashing, key: Bytes, t: Tables, all: seq<int>, newLen: nat, s: Tables, m: nat)
    requires Indexed(t.entries, t.idOf) && TriedPlaced(h, key, t.entries, t.tried) && AllIds(t, all, newLen)
    requires EntriesRead(t, all, newLen, s, m) && SlotsRead(h, key, t, all, newLen, s, m)
    requires newLen <= m < |all| && s.nextId == m && |s.tried| == TRIED_BUCKET_COUNT
    ensures var s' := ReadTried(h, key, s, OnDisk(t.entries[all[m]]));
            && EntriesRead(t, all, newLen, s', m + 1) && SlotsRead(h, key, t, all, newLen, s', m + 1)
            && s'.nextId == m + 1
  {
    hide EntriesRead, SlotsRead;
    var s' := ReadTried(h, key, s, OnDisk(t.entries[all[m]]));
    RoomForTried(h, key, t, all, newLen, s, m);
    NetsDiffer(t, all, newLen, m);
    OrderLength(t, all, newLen, s, m);
    EntryStep(t, all, newLen, s, m, s');
    SlotStep(h, key, t, all, newLen, s, m, s');
  }

  // ----- the buckets read back

  // s differs from s0 only in the new buckets and in the counts that go with them.
  ghost predicate CountsRead(s0: Tables, s: Tables) {
    && s == s0.(entries := s.entries, news := s.news)
    && |s.news| == NEW_BUCKET_COUNT
    && s.entries.Keys == s0.entries.Keys
    && forall i :: i in s0.entries ==> s.entries[i] == s0.entries[i].(refCount := |BucketsOf(s.news, i)|)
  }

  // Whatever a new bucket holds so far, it held when it was saved.
  ghost predicate BucketWasThere(all: seq<int>, newLen: nat, bucket: set<int>, saved: set<int>)
    requires newLen <= |all|
  {
    forall x :: x in bucket ==> 0 <= x < newLen && all[x] in saved
  }

  ghost predicate WasThere(t: Tables, all: seq<int>, newLen: nat, news: seq<set<int>>) {
    && newLen <= |all| && |news| == |t.news|
    && forall b :: 0 <= b < |news| ==> BucketWasThere(all, newLen, news[b], t.news[b])
  }

  lemma IndexStep(t: Tables, all: seq<int>, newLen: nat, s0: Tables, s: Tables, b: nat, i: int)
    requires AllIds(t, all, newLen) && NewPlaced(t.entries, t.news, NONE) && CountsRead(s0, s)
    requires forall id :: id in t.entries ==> id != NONE
    requires WasThere(t, all, newLen, s.news)
    requires b < |s.news| && 0 <= i < newLen && i in s.entries && all[i] in t.news[b] && i !in s.news[b]
    ensures ReadIndex(false, s, b, i).news == s.news[b := s.news[b] + {i}]
    ensures CountsRead(s0, ReadIndex(false, s, b, i))
    ensures WasThere(t, all, newLen, ReadIndex(false, s, b, i).news)
  {
    var seen, saved := BucketsOf(s.news, i), BucketsOf(t.news, all[i]);
    assert all[i] in t.entries && |saved| <= NEW_BUCKETS_PER_ADDRESS;
    assert b in saved && b !in seen && seen <= saved;
    OneLess(seen, saved, b);
    BucketsAfterInsertion(s.news, b, i);
  }

  lemma CountsReadKeys(s0: Tables, s: Tables)
    requires CountsRead(s0, s)
    ensures s.entries.Keys == s0.entries.Keys && |s.news| == NEW_BUCKET_COUNT
  {
  }

  lemma LastMember(s: seq<int>, n: nat)
    requires n + 1 == |s| && Distinct(s)
    ensures s[n] in s && s[n] !in s[..n] && Distinct(s[..n])
    ensures forall i :: i in s <==> i in s[..n] || i == s[n]
    ensures (set i | i in s) == (set i | i in s[..n]) + {s[n]}
  {
    assert s == s[..n] + [s[n]];
  }

  lemma {:induction false} BucketRead(t: Tables, all: seq<int>, newLen: nat, s0: Tables, s: Tables,
                                      b: nat, written: seq<int>)
    requires AllIds(t, all, newLen) && NewPlaced(t.entries, t.news, NONE) && CountsRead(s0, s)
    requires forall id :: id in t.entries ==> id != NONE
    requires WasThere(t, all, newLen, s.news)
    requires b < |s.news| && s.news[b] == {} && Distinct(written)
    requires forall i :: i in written ==> 0 <= i < newLen && i in s0.entries && all[i] in t.news[b]
    ensures var r := ReadBucket(false, s, b, written);
            && CountsRead(s0, r) && WasThere(t, all, newLen, r.news)
            && r.news == s.news[b := set i | i in written]
    decreases |written|
  {
    if written == [] {
      assert (set i | i in written) == {};
      assert s.news == s.news[b := {}];
    } else {
      hide CountsRead, NewPlaced, AllIds, WasThere, ReadIndex;
      var n := |written| - 1;
      LastMember(written, n);
      BucketRead(t, all, newLen, s0, s, b, written[..n]);
      var r := ReadBucket(false, s, b, written[..n]);
      CountsReadKeys(s0, r);
      IndexStep(t, all, newLen, s0, r, b, written[n]);
    }
  }

  // The first n buckets are back as they were; the others are still empty.
  ghost predicate BucketsBack(t: Tables, all: seq<int>, newLen: nat, news: seq<set<int>>, n: nat) {
    && WasThere(t, all, newLen, news) && n <= |news|
    && (forall b, i :: 0 <= b < n && 0 <= i < newLen && all[i] in t.news[b] ==> i in news[b])
    && (forall b :: n <= b < |news| ==> news[b] == {})
  }

  lemma {:induction false} BucketsRead(t: Tables, all: seq<int>, newLen: nat, s0: Tables, buckets: seq<seq<int>>,
                                       newIds: seq<int>)
    requires AllIds(t, all, newLen) && NewPlaced(t.entries, t.news, NONE) && CountsRead(s0, s0)
    requires forall id :: id in t.entries ==> id != NONE
    requires forall b :: 0 <= b < |s0.news| ==> s0.news[b] == {}
    requires newLen == |newIds| && newIds <= all && |buckets| <= |t.news|
    requires forall i :: 0 <= i < newLen ==> i in s0.entries
    requires forall b :: 0 <= b < |buckets| ==> BucketFile(t.news[b], buckets[b], newIds)
    ensures var r := ReadBuckets(false, s0, buckets);
            CountsRead(s0, r) && BucketsBack(t, all, newLen, r.news, |buckets|)
    decreases |buckets|
  {
    if buckets != [] {
      var n := |buckets| - 1;
      BucketsRead(t, all, newLen, s0, buckets[..n], newIds);
      var r := ReadBuckets(false, s0, buckets[..n]);
      assert BucketFile(t.news[n], buckets[n], newIds);
      hide CountsRead, NewPlaced, AllIds;
      CountsReadKeys(s0, r);
      BucketRead(t, all, newLen, s0, r, n, buckets[n]);
      BackStep(t, all, newIds, r.news, n, buckets[n]);
    }
  }

  lemma BackStep(t: Tables, all: seq<int>, newIds: seq<int>, news: seq<set<int>>, n: nat, written: seq<int>)
    requires newIds <= all && BucketsBack(t, all, |newIds|, news, n) && n < |news|
    requires BucketFile(t.news[n], written, newIds)
    requires WasThere(t, all, |newIds|, news[n := set i | i in written])
    ensures BucketsBack(t, all, |newIds|, news[n := set i | i in written], n + 1)
  {
    forall i | 0 <= i < |newIds| && all[i] in t.news[n] ensures i in written {
      assert newIds[i] == all[i];
    }
  }

  // ----- a saved book is read back complete

  lemma SavedIds(t: Tables, newIds: seq<int>, triedIds: seq<int>)
    requires Lists(newIds, NewIds(t.entries)) && Lists(triedIds, TriedIds(t.entries))
    ensures AllIds(t, newIds + triedIds, |newIds|)
    ensures |newIds| == |NewIds(t.entries)| && |triedIds| == |TriedIds(t.entries)|
  {
    var all := newIds + triedIds;
    forall i | 0 <= i < |all|
      ensures all[i] in t.entries && (t.entries[all[i]].inTried <==> |newIds| <= i)
    {
      if i < |newIds| {
        assert all[i] == newIds[i];
        assert newIds[i] in newIds;
      } else {
        assert all[i] == triedIds[i - |newIds|];
        assert all[i] in triedIds;
      }
    }
    DistinctAll(t, newIds, triedIds);
    forall id | id in t.entries ensures id in all {
      if t.entries[id].inTried { assert id in triedIds; } else { assert id in newIds; }
    }
    ListsSize(newIds, NewIds(t.entries));
    ListsSize(triedIds, TriedIds(t.entries));
  }

  lemma ListsSize(ids: seq<int>, s: set<int>)
    requires Lists(ids, s)
    ensures |ids| == |s|
  {
    DistinctSize(ids);
    assert (set x | x in ids) == s by { forall x ensures x in ids <==> x in s { } }
  }

  lemma DistinctAll(t: Tables, newIds: seq<int>, triedIds: seq<int>)
    requires Lists(newIds, NewIds(t.entries)) && Lists(triedIds, TriedIds(t.entries))
    ensures Distinct(newIds + triedIds)
  {
    var all := newIds + triedIds;
    forall i, j | 0 <= i < j < |all| ensures all[i] != all[j] {
      if i < |newIds| <= j {
        assert newIds[i] in newIds && triedIds[j - |newIds|] in triedIds;
      } else if |newIds| <= i {
        assert triedIds[i - |newIds|] != triedIds[j - |newIds|];
      }
    }
  }

  // What has been read when the file has been read to its end.
  ghost predicate ReadBack(h: Hashing, key: Bytes, t: Tables, all: seq<int>, newLen: nat, s: Tables) {
    && AllIds(t, all, newLen) && s.nextId == |all|
    && SlotsRead(h, key, t, all, newLen, s, |all|)
    && (exists s0 :: EntriesRead(t, all, newLen, s0, |all|) && CountsRead(s0, s))
    && BucketsBack(t, all, newLen, s.news, NEW_BUCKET_COUNT)
  }

  // A saved file can be read, and what loading it does.
  lemma FileFacts(h: Hashing, key: Bytes, t: Tables, file: File, newIds: seq<int>, triedIds: seq<int>)
    requires Inv(h, key, t, NONE) && FileOf(key, t, file, newIds, triedIds)
    ensures |triedIds| == |file.triedEntries| && |newIds| == |file.newEntries| == t.newCount && Readable(file)
    ensures Loaded(h, file) == ReadBuckets(false, ReadTrieds(h, file, |triedIds|), file.buckets)
    ensures AllIds(t, newIds + triedIds, |newIds|) && |t.news| == NEW_BUCKET_COUNT
    ensures Indexed(t.entries, t.idOf) && TriedPlaced(h, key, t.entries, t.tried)
  {
    SavedIds(t, newIds, triedIds);
    hide AllIds, TriedPlaced, Indexed, ReadTrieds, ReadBuckets, BucketFile;
  }

  lemma FileReadBack(h: Hashing, key: Bytes, t: Tables, file: File, newIds: seq<int>, triedIds: seq<int>)
    requires Inv(h, key, t, NONE) && FileOf(key, t, file, newIds, triedIds)
    ensures Readable(file)
    ensures ReadBack(h, key, t, newIds + triedIds, |newIds|, Loaded(h, file))
  {
    hide Inv, FileOf, AllIds, EntriesRead, SlotsRead, BucketsBack, Readable, Loaded;
    hide ReadTrieds, ReadBuckets, Indexed, TriedPlaced;
    var all := newIds + triedIds;
    FileFacts(h, key, t, file, newIds, triedIds);
    TriedsRead(h, key, t, file, newIds, triedIds, |triedIds|);
    var s0 := ReadTrieds(h, file, |triedIds|);
    EntriesCounted(t, all, |newIds|, s0);
    BucketsReadFile(h, key, t, file, newIds, triedIds, s0);
    SlotsSame(h, key, t, all, |newIds|, s0, Loaded(h, file));
  }

  lemma SlotsSame(h: Hashing, key: Bytes, t: Tables, all: seq<int>, newLen: nat, s: Tables, s': Tables)
    requires AllIds(t, all, newLen) && SlotsRead(h, key, t, all, newLen, s, |all|) && s'.tried == s.tried
    ensures SlotsRead(h, key, t, all, newLen, s', |all|)
  {
  }

  lemma BucketsReadFile(h: Hashing, key: Bytes, t: Tables, file: File, newIds: seq<int>, triedIds: seq<int>, s0: Tables)
    requires Inv(h, key, t, NONE) && FileOf(key, t, file, newIds, triedIds)
    requires AllIds(t, newIds + triedIds, |newIds|)
             && EntriesRead(t, newIds + triedIds, |newIds|, s0, |newIds + triedIds|)
    requires |s0.news| == NEW_BUCKET_COUNT && CountsRead(s0, s0)
    ensures |file.buckets| == NEW_BUCKET_COUNT
    ensures var r := ReadBuckets(false, s0, file.buckets);
            CountsRead(s0, r) && BucketsBack(t, newIds + triedIds, |newIds|, r.news, NEW_BUCKET_COUNT)
  {
    BucketsRead(t, newIds + triedIds, |newIds|, s0, file.buckets, newIds);
  }

  lemma EntriesCounted(t: Tables, all: seq<int>, newLen: nat, s0: Tables)
    requires AllIds(t, all, newLen) && EntriesRead(t, all, newLen, s0, |all|) && |s0.news| == NEW_BUCKET_COUNT
    ensures CountsRead(s0, s0)
  {
    forall i ensures BucketsOf(s0.news, i) == {} { }
  }

  // ----- the tables read back satisfy the invariant and stand for the same book

  // What an id read back stands for.
  ghost predicate Mirrors(t: Tables, all: seq<int>, newLen: nat, s: Tables)
    requires AllIds(t, all, newLen)
  {
    && |s.order| == |all| && s.nextId == |all|
    && (forall i :: 0 <= i < |all| ==> s.order[i] == i)
    && (forall i :: i in s.entries <==> 0 <= i < |all|)
    && (forall i :: 0 <= i < |all| ==>
         s.entries[i] == FromDisk(OnDisk(t.entries[all[i]]), |BucketsOf(s.news, i)|, newLen <= i, i))
    && (forall i :: 0 <= i < |all| ==> At(s.idOf, t.entries[all[i]].Net(), i))
    && (forall a :: a in s.idOf ==> 0 <= s.idOf[a] < |all| && t.entries[all[s.idOf[a]]].Net() == a)
    && s.newCount == t.newCount && s.triedCount == t.triedCount
  }

  lemma ReadBackMirrors(h: Hashing, key: Bytes, t: Tables, all: seq<int>, newLen: nat, s: Tables)
    requires ReadBack(h, key, t, all, newLen, s)
    ensures Mirrors(t, all, newLen, s)
    ensures |s.news| == NEW_BUCKET_COUNT
  {
    hide SlotsRead, BucketsBack;
    var s0 :| EntriesRead(t, all, newLen, s0, |all|) && CountsRead(s0, s);
  }

  lemma WasThereAt(t: Tables, all: seq<int>, newLen: nat, news: seq<set<int>>, b: int, x: int)
    requires WasThere(t, all, newLen, news) && 0 <= b < |news| && x in news[b]
    ensures 0 <= x < newLen && all[x] in t.news[b]
  {
    assert BucketWasThere(all, newLen, news[b], t.news[b]);
  }

  lemma NewMember(t: Tables, b: int, id: int)
    requires NewPlaced(t.entries, t.news, NONE) && 0 <= b < |t.news| && id in t.news[b]
    ensures id in t.entries && !t.entries[id].inTried
  {
    assert NewBucketOk(t.entries, t.news[b]);
  }

  // The new buckets an id read back is in are those its saved id was in.
  lemma SameBuckets(t: Tables, all: seq<int>, newLen: nat, s: Tables)
    requires AllIds(t, all, newLen) && BucketsBack(t, all, newLen, s.news, |s.news|)
    requires NewPlaced(t.entries, t.news, NONE)
    ensures forall i :: 0 <= i < |all| ==> BucketsOf(s.news, i) == BucketsOf(t.news, all[i])
  {
    forall i | 0 <= i < |all| ensures BucketsOf(s.news, i) == BucketsOf(t.news, all[i]) {
      forall b: nat | b < |s.news| ensures i in s.news[b] <==> all[i] in t.news[b] {
        if i in s.news[b] { WasThereAt(t, all, newLen, s.news, b, i); }
        if all[i] in t.news[b] {
          NewMember(t, b, all[i]);
          assert i < newLen;
        }
      }
      forall b: nat ensures b in BucketsOf(s.news, i) <==> b in BucketsOf(t.news, all[i]) { }
    }
  }

  lemma MirrorFrame(h: Hashing, key: Bytes, t: Tables, all: seq<int>, newLen: nat, s: Tables)
    requires Inv(h, key, t, NONE) && AllIds(t, all, newLen) && Mirrors(t, all, newLen, s)
    requires forall i :: newLen <= i < |all| ==> BucketsOf(s.news, i) == {}
    ensures Frame(s)
  {
    hide Inv, BucketsOf;
    forall i | i in s.entries ensures EntryOk(s.entries[i]) {
      assert all[i] in t.entries;
      EntryOkAt(h, key, t, all[i]);
    }
  }

  lemma EntryOkAt(h: Hashing, key: Bytes, t: Tables, id: int)
    requires Inv(h, key, t, NONE) && id in t.entries
    ensures EntryOk(t.entries[id])
  {
  }

  lemma MirrorCounted(t: Tables, all: seq<int>, newLen: nat, s: Tables)
    requires AllIds(t, all, newLen) && Mirrors(t, all, newLen, s)
    requires t.newCount == newLen && t.triedCount == |all| - newLen
    ensures Counted(s.entries, s.triedCount, s.newCount)
  {
    forall i ensures i in TriedIds(s.entries) <==> newLen <= i < |all| { }
    RangeSize(newLen, |all|, TriedIds(s.entries));
    forall i ensures i in NewIds(s.entries) <==> 0 <= i < newLen { }
    RangeSize(0, newLen, NewIds(s.entries));
  }

  lemma MirrorTried(h: Hashing, key: Bytes, t: Tables, all: seq<int>, newLen: nat, s: Tables)
    requires AllIds(t, all, newLen) && Mirrors(t, all, newLen, s) && SlotsRead(h, key, t, all, newLen, s, |all|)
    ensures TriedPlaced(h, key, s.entries, s.tried)
  {
    forall b | 0 <= b < |s.tried| ensures TriedBucketOk(h, key, s.entries, b, s.tried[b]) {
      assert SlotBucket(h, key, t, all, newLen, b, s.tried[b], |all|);
    }
  }

  lemma MirrorNew(h: Hashing, key: Bytes, t: Tables, all: seq<int>, newLen: nat, s: Tables)
    requires AllIds(t, all, newLen) && Mirrors(t, all, newLen, s) && NewPlaced(t.entries, t.news, NONE)
    requires forall id :: id in t.entries ==> id != NONE
    requires BucketsBack(t, all, newLen, s.news, |s.news|) && |s.news| == NEW_BUCKET_COUNT
    requires forall i :: 0 <= i < |all| ==> BucketsOf(s.news, i) == BucketsOf(t.news, all[i])
    ensures NewPlaced(s.entries, s.news, NONE)
  {
    forall b | 0 <= b < |s.news| ensures NewBucketOk(s.entries, s.news[b]) {
      assert NewBucketOk(t.entries, t.news[b]);
      forall i | i in s.news[b] ensures 0 <= i < newLen && all[i] in t.news[b] {
        WasThereAt(t, all, newLen, s.news, b, i);
      }
      ImagesSize(all, newLen, s.news[b], t.news[b]);
    }
    forall i | i in s.entries && !s.entries[i].inTried
      ensures 1 <= s.entries[i].refCount <= NEW_BUCKETS_PER_ADDRESS
    {
      assert all[i] in t.entries;
    }
  }

  lemma {:induction false} ImagesSize(all: seq<int>, newLen: nat, a: set<int>, b: set<int>)
    requires Distinct(all) && newLen <= |all|
    requires forall i :: i in a ==> 0 <= i < newLen && all[i] in b
    ensures |a| <= |b|
    decreases |a|
  {
    if a != {} {
      var i := AnyOf(a);
      ImagesSize(all, newLen, a - {i}, b - {all[i]});
    }
  }

  lemma MirrorKeys(t: Tables, all: seq<int>, newLen: nat, s: Tables)
    requires Indexed(t.entries, t.idOf) && AllIds(t, all, newLen) && Mirrors(t, all, newLen, s)
    ensures forall a :: a in s.idOf <==> a in t.idOf
    ensures forall a :: a in s.idOf ==> 0 <= s.idOf[a] < |all| && t.idOf[a] == all[s.idOf[a]] && s.idOf[a] in s.entries
  {
    forall a | a in t.idOf ensures a in s.idOf {
      var id := t.idOf[a];
      assert id in t.entries && id in all;
      var i :| 0 <= i < |all| && all[i] == id;
      assert At(s.idOf, a, i);
    }
    forall a | a in s.idOf ensures a in t.idOf && t.idOf[a] == all[s.idOf[a]] {
      var id := all[s.idOf[a]];
      assert id in t.entries && t.entries[id].Net() == a;
    }
  }

  lemma MirrorView(h: Hashing, key: Bytes, t: Tables, all: seq<int>, newLen: nat, s: Tables)
    requires Indexed(t.entries, t.idOf) && AllIds(t, all, newLen) && Mirrors(t, all, newLen, s)
    requires forall i :: 0 <= i < |all| ==> BucketsOf(s.news, i) == BucketsOf(t.news, all[i])
    ensures View(s) == UnstampedBook(View(t))
  {
    hide BucketsOf, AllIds;
    MirrorKeys(t, all, newLen, s);
    var v := UnstampedBook(View(t));
    forall a | a in s.idOf ensures a in View(s) && a in v && View(s)[a] == v[a] {
      var i := s.idOf[a];
      MirrorOne(t, all, newLen, s, i);
      assert t.idOf[a] in t.entries;
    }
    assert forall a :: a in View(s) ==> a in s.idOf;
    assert forall a :: a in v ==> a in t.idOf;
  }

  lemma MirrorOne(t: Tables, all: seq<int>, newLen: nat, s: Tables, i: int)
    requires AllIds(t, all, newLen) && Mirrors(t, all, newLen, s) && 0 <= i < |all|
    requires BucketsOf(s.news, i) == BucketsOf(t.news, all[i])
    ensures i in s.entries && all[i] in t.entries && KnownAs(s, i) == Unstamped(KnownAs(t, all[i]))
  {
  }

  // Saving tables that satisfy the invariant and loading the file again gives tables that
  // satisfy it too and stand for the same book: nothing is lost, only last-try times are.
  lemma SavedAndLoaded(h: Hashing, key: Bytes, t: Tables, file: File)
    requires Inv(h, key, t, NONE) && FileFor(key, t, file)
    ensures Readable(file)
    ensures Inv(h, key, Loaded(h, file), NONE)
    ensures View(Loaded(h, file)) == UnstampedBook(View(t))
    ensures Loaded(h, file).triedCount == t.triedCount && Loaded(h, file).newCount == t.newCount
  {
    var newIds: seq<int>, triedIds: seq<int> :| FileOf(key, t, file, newIds, triedIds);
    var all, newLen := newIds + triedIds, |newIds|;
    FileReadBack(h, key, t, file, newIds, triedIds);
    var s := Loaded(h, file);
    ReadBackMirrors(h, key, t, all, newLen, s);
    ReadBackInv(h, key, t, all, newLen, s) by { SavedIds(t, newIds, triedIds); }
  }

  lemma ReadBackInv(h: Hashing, key: Bytes, t: Tables, all: seq<int>, newLen: nat, s: Tables)
    requires Inv(h, key, t, NONE) && ReadBack(h, key, t, all, newLen, s) && |s.news| == NEW_BUCKET_COUNT
    requires Mirrors(t, all, newLen, s) && t.newCount == newLen && t.triedCount == |all| - newLen
    ensures Inv(h, key, s, NONE) && View(s) == UnstampedBook(View(t))
    ensures s.triedCount == t.triedCount && s.newCount == t.newCount
  {
    hide Mirrors, BucketsBack, SlotsRead, BucketsOf;
    InvParts(h, key, t);
    SameBuckets(t, all, newLen, s);
    TriedHaveNone(h, key, t, all, newLen);
    MirrorFrame(h, key, t, all, newLen, s);
    MirrorCounted(t, all, newLen, s);
    MirrorTried(h, key, t, all, newLen, s);
    MirrorNew(h, key, t, all, newLen, s);
    MirrorView(h, key, t, all, newLen, s);
  }

  lemma TriedHaveNone(h: Hashing, key: Bytes, t: Tables, all: seq<int>, newLen: nat)
    requires NewPlaced(t.entries, t.news, NONE) && AllIds(t, all, newLen)
    ensures forall i :: newLen <= i < |all| ==> BucketsOf(t.news, all[i]) == {}
  {
    forall i | newLen <= i < |all| ensures BucketsOf(t.news, all[i]) == {} {
      assert all[i] in t.entries;
      forall b | 0 <= b < |t.news| ensures all[i] !in t.news[b] {
        assert NewBucketOk(t.entries, t.news[b]);
      }
    }
  }

  // ----- writing

  lemma SaveFacts(h: Hashing, key: Bytes, t: Tables)
    requires Inv(h, key, t, NONE)
    ensures forall id :: id in t.entries ==> (t.entries[id].refCount != 0 <==> !t.entries[id].inTried)
    ensures t.newCount == |NewIds(t.entries)| && t.triedCount == |TriedIds(t.entries)|
    ensures |t.news| == NEW_BUCKET_COUNT
    ensures forall b, id :: 0 <= b < |t.news| && id in t.news[b] ==> id in NewIds(t.entries)
  {
    forall b, id | 0 <= b < |t.news| && id in t.news[b] ensures id in NewIds(t.entries) {
      NewMember(t, b, id);
    }
  }

  // n ids listed out of the n there are: all of them.
  lemma AllListed(ids: seq<int>, s: set<int>)
    requires Distinct(ids) && (forall id :: id in ids ==> id in s) && |ids| >= |s|
    ensures Lists(ids, s)
  {
    DistinctSize(ids);
    var listed := set id | id in ids;
    if id :| id in s && id !in ids {
      OneLess(listed, s, id);
    }
  }

  // Writes the entries that hold references, numbering them; stops once count are written.
  method WriteNew(entries: Entries, count: int)
    returns (written: seq<DiskEntry>, index: map<int, int>, ghost newIds: seq<int>)
    requires forall id :: id in entries ==> (entries[id].refCount != 0 <==> !entries[id].inTried)
    requires count == |NewIds(entries)|
    ensures Lists(newIds, NewIds(entries)) && |written| == |newIds|
    ensures forall i :: 0 <= i < |newIds| ==>
              newIds[i] in entries && written[i] == OnDisk(entries[newIds[i]])
              && newIds[i] in index && index[newIds[i]] == i
  {
    written, index, newIds := [], map[], [];
    var rest := entries.Keys;
    while rest != {}
      invariant rest <= entries.Keys && Distinct(newIds) && |written| == |newIds|
      invariant forall id :: id in newIds ==> id in entries && id !in rest && !entries[id].inTried
      invariant forall id :: id in entries && !entries[id].inTried && id !in rest ==> id in newIds
      invariant forall i :: 0 <= i < |newIds| ==> newIds[i] in entries && written[i] == OnDisk(entries[newIds[i]])
      invariant forall i :: 0 <= i < |newIds| ==> newIds[i] in index && index[newIds[i]] == i
      decreases |rest|
    {
      if |written| == count {
        break;
      }
      var id := Least(rest);
      index := index[id := |written|];
      if entries[id].refCount != 0 {
        written := written + [OnDisk(entries[id])];
        newIds := newIds + [id];
      }
      rest := rest - {id};
    }
    if rest != {} {
      AllListed(newIds, NewIds(entries));
    }
  }

  // Writes the tried entries.
  method WriteTried(entries: Entries, count: int) returns (written: seq<DiskEntry>, ghost triedIds: seq<int>)
    requires count == |TriedIds(entries)|
    ensures Lists(triedIds, TriedIds(entries)) && |written| == |triedIds|
    ensures forall i :: 0 <= i < |triedIds| ==> triedIds[i] in entries && written[i] == OnDisk(entries[triedIds[i]])
  {
    written, triedIds := [], [];
    var rest := entries.Keys;
    while rest != {}
      invariant rest <= entries.Keys && Distinct(triedIds) && |written| == |triedIds|
      invariant forall id :: id in triedIds ==> id in entries && id !in rest && entries[id].inTried
      invariant forall id :: id in entries && entries[id].inTried && id !in rest ==> id in triedIds
      invariant forall i :: 0 <= i < |triedIds| ==> triedIds[i] in entries && written[i] == OnDisk(entries[triedIds[i]])
      decreases |rest|
    {
      if |written| == count {
        break;
      }
      var id := Least(rest);
      if entries[id].inTried {
        written := written + [OnDisk(entries[id])];
        triedIds := triedIds + [id];
      }
      rest := rest - {id};
    }
    if rest != {} {
      AllListed(triedIds, TriedIds(entries));
    }
  }

  // Writes the numbers of a bucket's ids; an id without a number would be written as zero.
  method WriteBucket(bucket: set<int>, index: map<int, int>, ghost newIds: seq<int>) returns (written: seq<int>)
    requires Distinct(newIds) && forall id :: id in bucket ==> id in newIds
    requires forall i :: 0 <= i < |newIds| ==> newIds[i] in index && index[newIds[i]] == i
    ensures BucketFile(bucket, written, newIds)
  {
    written := [];
    var rest := bucket;
    while rest != {}
      invariant rest <= bucket && Distinct(written)
      invariant forall i :: i in written ==> 0 <= i < |newIds| && newIds[i] in bucket && newIds[i] !in rest
      invariant forall i :: 0 <= i < |newIds| && newIds[i] in bucket && newIds[i] !in rest ==> i in written
      decreases |rest|
    {
      var id := Least(rest);
      var k := if id in index then index[id] else 0;
      ghost var i :| 0 <= i < |newIds| && newIds[i] == id;
      assert k == i;
      written := written + [k];
      rest := rest - {id};
    }
  }
}
