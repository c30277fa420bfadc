/** Which files load to consistent tables: every file that can be read, written by a manager or not,
    with as many buckets as there are or with another number, when the buckets are computed anew. */
module AddrLoad {
  import opened AddrTypes
  import opened Arith
  import opened AddrBook
  import opened AddrTables
  import opened AddrDisk
  import opened FiniteSets

  // ----- the entries a file brings

  // The places at which the entries name tried bucket b.
  function Naming(h: Hashing, key: Bytes, ds: seq<DiskEntry>, b: nat): set<int> {
    set i | 0 <= i < |ds| && h.TriedBucket(key, ds[i].svc) == b
  }

  // Of the tried entries those that no 64 earlier ones keep out of their bucket.
  function Kept(h: Hashing, key: Bytes, ds: seq<DiskEntry>): (r: seq<DiskEntry>)
    ensures |r| <= |ds|
  {
    if ds == [] then []
    else
      var n := |ds| - 1;
      var r := Kept(h, key, ds[..n]);
      if |Naming(h, key, ds[..n], h.TriedBucket(key, ds[n].svc))| < TRIED_BUCKET_SIZE then r + [ds[n]] else r
  }

  // The entries in the order of their ids.
  function Brought(h: Hashing, file: File): (all: seq<DiskEntry>)
    ensures |all| >= |file.newEntries|
  {
    file.newEntries + Kept(h, file.key, file.triedEntries)
  }

  // Id i stands for all[i], the first newLen ids for new entries; counts and buckets are left open.
  ghost predicate Stands(s: Tables, all: seq<DiskEntry>, newLen: nat) {
    && newLen <= |all|
    && |s.order| == |all| && (forall i :: 0 <= i < |all| ==> s.order[i] == i)
    && (forall i {:trigger i in s.entries} :: i in s.entries <==> 0 <= i < |all|)
    && (forall i {:trigger s.entries[i]} :: 0 <= i < |all| ==>
         Bare(s.entries[i]) == FromDisk(all[i], 0, newLen <= i, i))
    && (forall i :: 0 <= i < |all| ==> all[i].svc.net in s.idOf)
    && (forall a :: a in s.idOf ==> 0 <= s.idOf[a] < |all| && all[s.idOf[a]].svc.net == a)
  }

  function Bare(e: Entry): Entry { e.(refCount := 0) }

  // The tried buckets hold the ids that name them, and as many as the file brings up to their size.
  ghost predicate Slots(h: Hashing, key: Bytes, s: Tables, all: seq<DiskEntry>, newLen: nat, ds: seq<DiskEntry>) {
    && newLen <= |all| && |s.tried| == TRIED_BUCKET_COUNT
    && forall b: nat :: b < |s.tried| ==> Slot(h, key, s.tried[b], all, newLen, b, |Naming(h, key, ds, b)|)
  }

  ghost predicate Slot(h: Hashing, key: Bytes, bucket: seq<int>, all: seq<DiskEntry>, newLen: nat, b: nat, named: nat) {
    && Distinct(bucket) && |bucket| == Min(TRIED_BUCKET_SIZE, named)
    && forall x :: x in bucket <==> newLen <= x < |all| && h.TriedBucket(key, all[x].svc) == b
  }

  // The new ids whose entries name bucket b as their home.
  function Homes(h: Hashing, key: Bytes, ds: seq<DiskEntry>, b: nat): set<int> {
    set i | 0 <= i < |ds| && h.NewBucket(key, ds[i].svc.net, ds[i].source) == b
  }

  // Before the buckets are read: with a rebuild every new entry has its home, else none has any bucket.
  ghost predicate Homed(h: Hashing, key: Bytes, s: Tables, ds: seq<DiskEntry>, rebuild: bool) {
    && |s.news| == NEW_BUCKET_COUNT
    && (forall b: nat :: b < |s.news| ==> s.news[b] == if rebuild then Homes(h, key, ds, b) else {})
    && (forall i :: i in s.entries ==> s.entries[i].refCount == if rebuild && i < |ds| then 1 else 0)
  }

  lemma NewStands(h: Hashing, key: Bytes, rebuild: bool, s: Tables, ds: seq<DiskEntry>, d: DiskEntry)
    requires Stands(s, ds, |ds|) && Homed(h, key, s, ds, rebuild)
    ensures var s' := ReadNew(h, key, rebuild, s, |ds|, d);
            Stands(s', ds + [d], |ds| + 1) && Homed(h, key, s', ds + [d], rebuild)
  {
    hide Hashing.NewBucket;
    var s', all := ReadNew(h, key, rebuild, s, |ds|, d), ds + [d];
    assert all[..|ds|] == ds;
    forall b: nat | b < |s'.news| && rebuild ensures s'.news[b] == Homes(h, key, all, b) {
      forall i ensures i in s'.news[b] <==> i in Homes(h, key, all, b) { }
    }
  }

  lemma NothingStands(h: Hashing, file: File)
    ensures Stands(ReadNews(h, file, 0), [], 0)
    ensures Homed(h, file.key, ReadNews(h, file, 0), [], file.bucketCount != NEW_BUCKET_COUNT)
  {
  }

  lemma {:induction false} NewsStand(h: Hashing, file: File, n: nat)
    requires n <= |file.newEntries|
    ensures Stands(ReadNews(h, file, n), file.newEntries[..n], n)
    ensures Homed(h, file.key, ReadNews(h, file, n), file.newEntries[..n], file.bucketCount != NEW_BUCKET_COUNT)
    ensures ReadNews(h, file, n).tried == Empty(file).tried
  {
    hide Stands, Homed, Hashing.NewBucket;
    if n == 0 {
      NothingStands(h, file);
      assert file.newEntries[..0] == [];
    } else {
      NewsStand(h, file, n - 1);
      NewStands(h, file.key, file.bucketCount != NEW_BUCKET_COUNT, ReadNews(h, file, n - 1), file.newEntries[..n - 1],
                file.newEntries[n - 1]);
      assert file.newEntries[..n - 1] + [file.newEntries[n - 1]] == file.newEntries[..n];
    }
  }

  // One tried entry more, kept or lost.
  function OneMore(h: Hashing, key: Bytes, all: seq<DiskEntry>, ds: seq<DiskEntry>, d: DiskEntry): seq<DiskEntry> {
    if |Naming(h, key, ds, h.TriedBucket(key, d.svc))| < TRIED_BUCKET_SIZE then all + [d] else all
  }

  lemma NamingStep(h: Hashing, key: Bytes, ds: seq<DiskEntry>, d: DiskEntry, b: nat)
    ensures |Naming(h, key, ds + [d], b)| == |Naming(h, key, ds, b)| + if h.TriedBucket(key, d.svc) == b then 1 else 0
  {
    hide Hashing.TriedBucket;
    var more := if h.TriedBucket(key, d.svc) == b then {|ds|} else {};
    assert Naming(h, key, ds + [d], b) == Naming(h, key, ds, b) + more;
  }

  lemma TriedStands(h: Hashing, key: Bytes, s: Tables, all: seq<DiskEntry>, newLen: nat, ds: seq<DiskEntry>,
                    d: DiskEntry)
    requires Stands(s, all, newLen) && Slots(h, key, s, all, newLen, ds) && s.nextId == |all|
    ensures var s', all' := ReadTried(h, key, s, d), OneMore(h, key, all, ds, d);
            && Stands(s', all', newLen) && s'.nextId == |all'| && s'.newCount == s.newCount
            && s'.triedCount - |all'| == s.triedCount - |all| - 1
  {
    hide Hashing.TriedBucket;
    var b := h.TriedBucket(key, d.svc);
    assert Slot(h, key, s.tried[b], all, newLen, b, |Naming(h, key, ds, b)|);
  }

  lemma SlotsStand(h: Hashing, key: Bytes, s: Tables, all: seq<DiskEntry>, newLen: nat, ds: seq<DiskEntry>,
                   d: DiskEntry)
    requires Slots(h, key, s, all, newLen, ds) && s.nextId == |all|
    ensures Slots(h, key, ReadTried(h, key, s, d), OneMore(h, key, all, ds, d), newLen, ds + [d])
  {
    hide Hashing.TriedBucket, Naming;
    var b := h.TriedBucket(key, d.svc);
    var s', all' := ReadTried(h, key, s, d), OneMore(h, key, all, ds, d);
    assert Slot(h, key, s.tried[b], all, newLen, b, |Naming(h, key, ds, b)|);
    forall c: nat | c < |s'.tried| ensures Slot(h, key, s'.tried[c], all', newLen, c, |Naming(h, key, ds + [d], c)|) {
      assert Slot(h, key, s.tried[c], all, newLen, c, |Naming(h, key, ds, c)|);
      NamingStep(h, key, ds, d, c);
      if all' != all {
        SlotGrows(h, key, s.tried[c], all, newLen, c, |Naming(h, key, ds, c)|, d);
      }
    }
  }

  lemma SlotGrows(h: Hashing, key: Bytes, bucket: seq<int>, all: seq<DiskEntry>, newLen: nat, b: nat, named: nat,
                  d: DiskEntry)
    requires newLen <= |all| && Slot(h, key, bucket, all, newLen, b, named)
    requires h.TriedBucket(key, d.svc) == b ==> named < TRIED_BUCKET_SIZE
    ensures if h.TriedBucket(key, d.svc) == b then Slot(h, key, bucket + [|all|], all + [d], newLen, b, named + 1)
            else Slot(h, key, bucket, all + [d], newLen, b, named)
  {
    hide Hashing.TriedBucket;
    if h.TriedBucket(key, d.svc) == b {
      assert |all| !in bucket;
      forall x
        ensures x in bucket + [|all|] <==> newLen <= x < |all + [d]| && h.TriedBucket(key, (all + [d])[x].svc) == b
      {
        assert x in bucket + [|all|] <==> x in bucket || x == |all|;
      }
    }
  }

  lemma HomesStay(h: Hashing, key: Bytes, s: Tables, all: seq<DiskEntry>, ds: seq<DiskEntry>, rebuild: bool,
                  d: DiskEntry)
    requires Stands(s, all, |ds|) && Homed(h, key, s, ds, rebuild)
    requires s.nextId == |all| && |s.tried| == TRIED_BUCKET_COUNT
    ensures Homed(h, key, ReadTried(h, key, s, d), ds, rebuild)
  {
    hide Homes;
  }

  lemma NoneTried(h: Hashing, file: File)
    ensures var s := ReadTrieds(h, file, 0);
            && Stands(s, file.newEntries, |file.newEntries|)
            && Slots(h, file.key, s, file.newEntries, |file.newEntries|, [])
            && Homed(h, file.key, s, file.newEntries, file.bucketCount != NEW_BUCKET_COUNT)
  {
    var s := ReadTrieds(h, file, 0);
    var n := |file.newEntries|;
    NewsStand(h, file, n);
    assert file.newEntries[..n] == file.newEntries;
    forall b: nat | b < |s.tried|
      ensures Slot(h, file.key, s.tried[b], file.newEntries, n, b, |Naming(h, file.key, [], b)|)
    {
      assert Naming(h, file.key, [], b) == {};
    }
  }

  // What has been read before the buckets.
  lemma {:induction false} EntriesStand(h: Hashing, file: File, n: nat)
    requires n <= |file.triedEntries| && file.newCount == |file.newEntries|
    ensures var s, ds := ReadTrieds(h, file, n), file.triedEntries[..n];
            var all := file.newEntries + Kept(h, file.key, ds);
            && Stands(s, all, |file.newEntries|) && Slots(h, file.key, s, all, |file.newEntries|, ds)
            && Homed(h, file.key, s, file.newEntries, file.bucketCount != NEW_BUCKET_COUNT)
            && s.nextId == |all| && s.newCount == file.newCount
            && s.triedCount == file.triedCount - n + |all| - |file.newEntries|
  {
    hide Stands, Slots, Homed, ReadTried, Naming;
    var ds := file.triedEntries[..n];
    if n == 0 {
      NoneTried(h, file);
      assert file.newEntries + Kept(h, file.key, ds) == file.newEntries;
    } else {
      var d := file.triedEntries[n - 1];
      EntriesStand(h, file, n - 1);
      assert ds[..n - 1] == file.triedEntries[..n - 1];
      assert ds == ds[..n - 1] + [d];
      var s, all := ReadTrieds(h, file, n - 1), file.newEntries + Kept(h, file.key, ds[..n - 1]);
      TriedStands(h, file.key, s, all, |file.newEntries|, ds[..n - 1], d);
      SlotsStand(h, file.key, s, all, |file.newEntries|, ds[..n - 1], d);
      SlotsLength(h, file.key, s, all, |file.newEntries|, ds[..n - 1]);
      HomesStay(h, file.key, s, all, file.newEntries, file.bucketCount != NEW_BUCKET_COUNT, d);
      assert OneMore(h, file.key, all, ds[..n - 1], d) == file.newEntries + Kept(h, file.key, ds);
    }
  }

  lemma SlotsLength(h: Hashing, key: Bytes, s: Tables, all: seq<DiskEntry>, newLen: nat, ds: seq<DiskEntry>)
    requires Slots(h, key, s, all, newLen, ds)
    ensures |s.tried| == TRIED_BUCKET_COUNT
  {
  }

  // ----- the parts of the invariant

  ghost predicate DistinctAddresses(all: seq<DiskEntry>) {
    forall i, j :: 0 <= i < j < |all| ==> all[i].svc.net != all[j].svc.net
  }

  // No success at a negative time, and some success of every tried entry.
  predicate Successful(all: seq<DiskEntry>, newLen: nat) {
    forall i :: 0 <= i < |all| ==> all[i].lastSuccess >= if newLen <= i then 1 else 0
  }

  lemma FrameExactly(s: Tables, all: seq<DiskEntry>, newLen: nat)
    requires Stands(s, all, newLen) && s.nextId == |all|
    requires forall i :: newLen <= i < |all| ==> s.entries[i].refCount == 0
    ensures Frame(s) <==> DistinctAddresses(all) && Successful(all, newLen)
  {
    assert forall i {:trigger s.entries[i]} :: 0 <= i < |all| ==> s.entries[i].Net() == all[i].svc.net;
    if Frame(s) {
      forall i, j | 0 <= i < j < |all| ensures all[i].svc.net != all[j].svc.net {
        assert i in s.entries && j in s.entries;
        assert s.idOf[s.entries[i].Net()] == i && s.idOf[s.entries[j].Net()] == j;
      }
      forall i | 0 <= i < |all| ensures all[i].lastSuccess >= if newLen <= i then 1 else 0 {
        assert EntryOk(s.entries[i]);
      }
    }
    if DistinctAddresses(all) && Successful(all, newLen) {
      forall i | i in s.entries ensures s.entries[i].Net() in s.idOf && s.idOf[s.entries[i].Net()] == i {
        var j := s.idOf[all[i].svc.net];
        assert all[j].svc.net == all[i].svc.net;
      }
    }
  }

  // An id that is not in the order.
  lemma Stranger(s: Tables, n: nat, i: int)
    requires |s.order| == n && forall j :: 0 <= j < n ==> s.order[j] == j
    requires i in s.entries && !(0 <= i < n)
    ensures !Frame(s)
  {
  }

  lemma TriedArePlaced(h: Hashing, key: Bytes, s: Tables, all: seq<DiskEntry>, newLen: nat, ds: seq<DiskEntry>)
    requires Stands(s, all, newLen) && Slots(h, key, s, all, newLen, ds)
    ensures TriedPlaced(h, key, s.entries, s.tried)
  {
    hide Hashing.TriedBucket, Naming;
    assert forall i {:trigger s.entries[i]} :: 0 <= i < |all| ==>
             s.entries[i].inTried == (newLen <= i) && s.entries[i].addr.svc == all[i].svc;
    forall b: nat | b < |s.tried| ensures TriedBucketOk(h, key, s.entries, b, s.tried[b]) {
      assert Slot(h, key, s.tried[b], all, newLen, b, |Naming(h, key, ds, b)|);
    }
    forall i | i in s.entries && s.entries[i].inTried
      ensures i in s.tried[h.TriedBucket(key, s.entries[i].addr.svc)]
    {
      var b := h.TriedBucket(key, s.entries[i].addr.svc);
      assert Slot(h, key, s.tried[b], all, newLen, b, |Naming(h, key, ds, b)|);
    }
  }

  lemma AllCounted(s: Tables, all: seq<DiskEntry>, newLen: nat)
    requires Stands(s, all, newLen) && s.newCount == newLen && s.triedCount == |all| - newLen
    ensures Counted(s.entries, s.triedCount, s.newCount)
  {
    assert forall i {:trigger s.entries[i]} :: 0 <= i < |all| ==> s.entries[i].inTried == (newLen <= i);
    forall i ensures i in TriedIds(s.entries) <==> newLen <= i < |all| { }
    RangeSize(newLen, |all|, TriedIds(s.entries));
    forall i ensures i in NewIds(s.entries) <==> 0 <= i < newLen { }
    RangeSize(0, newLen, NewIds(s.entries));
  }

  // ----- another number of buckets: they are computed anew

  // Every id listed is below n.
  predicate Within(buckets: seq<seq<int>>, n: int) {
    forall b, k :: 0 <= b < |buckets| && 0 <= k < |buckets[b]| ==> 0 <= buckets[b][k] < n
  }

  lemma {:induction false} BucketIgnored(s: Tables, b: nat, written: seq<int>, n: nat)
    requires b < |s.news| && forall i :: 0 <= i < n ==> i in s.entries
    ensures var r := ReadBucket(true, s, b, written);
            && (forall i :: i in s.entries ==> i in r.entries) && r.order == s.order
            && (forall k :: 0 <= k < |written| ==> written[k] in r.entries)
            && ((forall k :: 0 <= k < |written| ==> 0 <= written[k] < n) ==> r == s)
    decreases |written|
  {
    if written != [] {
      var m := |written| - 1;
      BucketIgnored(s, b, written[..m], n);
      assert forall k :: 0 <= k < m ==> written[..m][k] == written[k];
      var r := ReadBucket(true, s, b, written[..m]);
      if r == s && written[m] in s.entries { assert s.entries[written[m] := s.entries[written[m]]] == s.entries; }
    }
  }

  // The lists are read over, except that an unknown id brings a blank entry.
  lemma {:induction false} BucketsIgnored(s: Tables, buckets: seq<seq<int>>, n: nat)
    requires |buckets| <= |s.news| && forall i {:trigger i in s.entries} :: i in s.entries <==> 0 <= i < n
    ensures var r := ReadBuckets(true, s, buckets);
            && r.order == s.order && (forall i :: i in s.entries ==> i in r.entries)
            && (forall b, k :: 0 <= b < |buckets| && 0 <= k < |buckets[b]| ==> buckets[b][k] in r.entries)
            && (Within(buckets, n) ==> r == s)
    decreases |buckets|
  {
    if buckets != [] {
      var m := |buckets| - 1;
      BucketsIgnored(s, buckets[..m], n);
      BucketIgnored(ReadBuckets(true, s, buckets[..m]), m, buckets[m], n);
      assert forall b :: 0 <= b < m ==> buckets[..m][b] == buckets[b];
    }
  }

  lemma HomesPlaced(h: Hashing, key: Bytes, s: Tables, all: seq<DiskEntry>, ds: seq<DiskEntry>)
    requires Stands(s, all, |ds|) && ds <= all && Homed(h, key, s, ds, true)
    ensures NewPlaced(s.entries, s.news, NONE) <==>
            forall b: nat :: b < NEW_BUCKET_COUNT ==> |Homes(h, key, ds, b)| <= NEW_BUCKET_SIZE
  {
    hide Hashing.NewBucket;
    assert forall i {:trigger s.entries[i]} :: 0 <= i < |all| ==> s.entries[i].inTried == (|ds| <= i);
    forall b: nat | b < |s.news|
      ensures NewBucketOk(s.entries, s.news[b]) <==> |Homes(h, key, ds, b)| <= NEW_BUCKET_SIZE
    {
    }
    forall i | i in s.entries && !s.entries[i].inTried
      ensures s.entries[i].refCount == |BucketsOf(s.news, i)| == 1
    {
      assert BucketsOf(s.news, i) == {h.NewBucket(key, ds[i].svc.net, ds[i].source)};
    }
  }

  // ----- the same number of buckets: they are read as listed

  // The bucket, once for each time that the list names id i.
  function Times(written: seq<int>, b: nat, i: int): (l: seq<nat>)
    ensures forall k :: 0 <= k < |l| ==> l[k] == b
  {
    if written == [] then []
    else Times(written[..|written| - 1], b, i) + if written[|written| - 1] == i then [b] else []
  }

  // The buckets that list id i, each as often as it does, in the order in which they are read.
  function Listings(buckets: seq<seq<int>>, i: int): (l: seq<nat>)
    ensures forall k :: 0 <= k < |l| ==> l[k] < |buckets|
  {
    if buckets == [] then []
    else
      var n := |buckets| - 1;
      Listings(buckets[..n], i) + Times(buckets[n], n, i)
  }

  // Of these the first four count.
  function Counting(l: seq<nat>): (r: seq<nat>)
    ensures |r| == Min(NEW_BUCKETS_PER_ADDRESS, |l|)
  {
    l[..Min(NEW_BUCKETS_PER_ADDRESS, |l|)]
  }

  // Those read when the lists of some buckets are read and part of the next.
  function ReadSoFar(buckets: seq<seq<int>>, written: seq<int>, i: int): seq<nat> {
    Listings(buckets, i) + Times(written, |buckets|, i)
  }

  function EntryBefore(s0: Tables, i: int): Entry {
    if i in s0.entries then s0.entries[i] else BLANK
  }

  // How the tables s have come from s0, in which no id had a bucket.
  ghost predicate Follows(s0: Tables, s: Tables, buckets: seq<seq<int>>, written: seq<int>) {
    && s == s0.(entries := s.entries, news := s.news) && |s.news| == NEW_BUCKET_COUNT
    && (forall i {:trigger i in s.entries} ::
         i in s.entries <==> i in s0.entries || ReadSoFar(buckets, written, i) != [])
    && (forall i {:trigger s.entries[i]} :: i in s.entries ==>
         s.entries[i] == EntryBefore(s0, i).(refCount := |Counting(ReadSoFar(buckets, written, i))|))
    && (forall b: nat, i {:trigger i in s.news[b]} :: b < NEW_BUCKET_COUNT ==>
         (i in s.news[b] <==> b in Counting(ReadSoFar(buckets, written, i))))
  }

  lemma CountingStep(l: seq<nat>, b: nat)
    ensures Counting(l + [b]) == if |l| < NEW_BUCKETS_PER_ADDRESS then Counting(l) + [b] else Counting(l)
  {
    if |l| < NEW_BUCKETS_PER_ADDRESS {
      assert (l + [b])[..|l| + 1] == l + [b] && l[..|l|] == l;
    }
  }

  lemma SoFarStep(buckets: seq<seq<int>>, written: seq<int>, i: int, x: int)
    ensures ReadSoFar(buckets, written + [i], x) ==
            if x == i then ReadSoFar(buckets, written, x) + [|buckets|] else ReadSoFar(buckets, written, x)
  {
    assert (written + [i])[..|written|] == written;
  }

  lemma FollowsStep(s0: Tables, s: Tables, buckets: seq<seq<int>>, written: seq<int>, i: int)
    requires Follows(s0, s, buckets, written) && |buckets| < NEW_BUCKET_COUNT
    ensures Follows(s0, ReadIndex(false, s, |buckets|, i), buckets, written + [i])
  {
    hide ReadSoFar, Counting, EntryBefore;
    var s', l := ReadIndex(false, s, |buckets|, i), ReadSoFar(buckets, written, i);
    CountingStep(l, |buckets|);
    CountingLength(l);
    forall x
      ensures ReadSoFar(buckets, written + [i], x) ==
              if x == i then l + [|buckets|] else ReadSoFar(buckets, written, x)
    {
      SoFarStep(buckets, written, i, x);
    }
    assert i !in s.entries ==> l == [] && EntryBefore(s0, i) == BLANK by { EntryBeforeIs(s0, i); }
  }

  lemma CountingLength(l: seq<nat>)
    ensures |Counting(l)| == Min(NEW_BUCKETS_PER_ADDRESS, |l|) && (|l| < NEW_BUCKETS_PER_ADDRESS ==> Counting(l) == l)
  {
  }

  lemma EntryBeforeIs(s0: Tables, i: int)
    ensures i !in s0.entries ==> EntryBefore(s0, i) == BLANK
  {
  }

  lemma {:induction false} BucketFollows(s0: Tables, s: Tables, buckets: seq<seq<int>>, written: seq<int>)
    requires Follows(s0, s, buckets, []) && |buckets| < NEW_BUCKET_COUNT && |buckets| < |s.news|
    ensures Follows(s0, ReadBucket(false, s, |buckets|, written), buckets, written)
    decreases |written|
  {
    hide Follows, ReadIndex;
    if written != [] {
      var n := |written| - 1;
      BucketFollows(s0, s, buckets, written[..n]);
      FollowsStep(s0, ReadBucket(false, s, |buckets|, written[..n]), buckets, written[..n], written[n]);
      assert written[..n] + [written[n]] == written;
    }
  }

  lemma NextBucket(s0: Tables, s: Tables, buckets: seq<seq<int>>)
    requires buckets != [] && Follows(s0, s, buckets[..|buckets| - 1], buckets[|buckets| - 1])
    ensures Follows(s0, s, buckets, [])
  {
    var n := |buckets| - 1;
    assert forall i :: ReadSoFar(buckets, [], i) == ReadSoFar(buckets[..n], buckets[n], i);
  }

  lemma NoBucketYet(s0: Tables)
    requires |s0.news| == NEW_BUCKET_COUNT && forall b: nat :: b < |s0.news| ==> s0.news[b] == {}
    requires forall i :: i in s0.entries ==> s0.entries[i].refCount == 0
    ensures Follows(s0, s0, [], [])
  {
  }

  lemma {:induction false} BucketsFollow(s0: Tables, buckets: seq<seq<int>>)
    requires |buckets| <= |s0.news| == NEW_BUCKET_COUNT && forall b: nat :: b < |s0.news| ==> s0.news[b] == {}
    requires forall i :: i in s0.entries ==> s0.entries[i].refCount == 0
    ensures Follows(s0, ReadBuckets(false, s0, buckets), buckets, [])
    decreases |buckets|
  {
    hide Follows;
    if buckets == [] {
      NoBucketYet(s0);
    } else {
      var n := |buckets| - 1;
      BucketsFollow(s0, buckets[..n]);
      BucketFollows(s0, ReadBuckets(false, s0, buckets[..n]), buckets[..n], buckets[n]);
      NextBucket(s0, ReadBuckets(false, s0, buckets), buckets);
    }
  }

  lemma {:induction false} TimesNamed(written: seq<int>, b: nat, i: int)
    ensures Times(written, b, i) != [] <==> i in written
  {
    if written != [] {
      var n := |written| - 1;
      TimesNamed(written[..n], b, i);
      assert written == written[..n] + [written[n]];
    }
  }

  lemma ListingsStep(buckets: seq<seq<int>>, i: int)
    ensures var n := |buckets| - 1;
            Listings(buckets, i) ==
            if buckets == [] then [] else Listings(buckets[..n], i) + Times(buckets[n], n, i)
  {
  }

  lemma {:induction false} ListingsNamed(buckets: seq<seq<int>>, i: int)
    ensures Listings(buckets, i) != [] <==> exists b :: 0 <= b < |buckets| && i in buckets[b]
    decreases |buckets|
  {
    hide Times, Listings;
    ListingsStep(buckets, i);
    if buckets != [] {
      var n := |buckets| - 1;
      ListingsNamed(buckets[..n], i);
      TimesNamed(buckets[n], n, i);
      assert forall b :: 0 <= b < n ==> buckets[..n][b] == buckets[b];
    }
  }

  lemma WithinExactly(buckets: seq<seq<int>>, n: int)
    ensures Within(buckets, n) ==> forall i :: Listings(buckets, i) != [] ==> 0 <= i < n
    ensures !Within(buckets, n) ==> exists i :: Listings(buckets, i) != [] && !(0 <= i < n)
  {
    hide Listings;
    if Within(buckets, n) {
      forall i | Listings(buckets, i) != [] ensures 0 <= i < n {
        ListingsNamed(buckets, i);
        var b :| 0 <= b < |buckets| && i in buckets[b];
        var k :| 0 <= k < |buckets[b]| && buckets[b][k] == i;
      }
    } else {
      var b, k :| 0 <= b < |buckets| && 0 <= k < |buckets[b]| && !(0 <= buckets[b][k] < n);
      ListingsNamed(buckets, buckets[b][k]);
      assert Listings(buckets, buckets[b][k]) != [];
    }
  }

  function Members(l: seq<nat>): set<nat> { set b | b in l }

  // A list has as many members as places if and only if no two places are alike.
  lemma {:induction false} SizeExactly(l: seq<nat>)
    ensures |Members(l)| <= |l| && (|Members(l)| == |l| <==> Distinct(l))
  {
    if l != [] {
      var n := |l| - 1;
      SizeExactly(l[..n]);
      assert l == l[..n] + [l[n]];
      assert Members(l) == Members(l[..n]) + {l[n]};
      if l[n] in l[..n] {
        assert Members(l) == Members(l[..n]);
        var k :| 0 <= k < n && l[..n][k] == l[n];
        assert !Distinct(l) by { assert l[k] == l[n]; }
      } else {
        assert |Members(l)| == |Members(l[..n])| + 1;
        assert Distinct(l[..n]) ==> Distinct(l);
        assert Distinct(l) ==> Distinct(l[..n]) by { assert forall i :: 0 <= i < n ==> l[..n][i] == l[i]; }
      }
    }
  }

  // The new ids that bucket b holds in the end.
  function Holding(buckets: seq<seq<int>>, n: nat, b: nat): set<int> {
    set i | 0 <= i < n && b in Counting(Listings(buckets, i))
  }

  // Every new id, and no other, is listed, the listings that count are in different buckets, and no
  // bucket holds too many.
  ghost predicate ListedWell(buckets: seq<seq<int>>, n: nat) {
    && Within(buckets, n)
    && (forall i :: 0 <= i < n ==> Listings(buckets, i) != [] && Distinct(Counting(Listings(buckets, i))))
    && (forall b: nat :: b < NEW_BUCKET_COUNT ==> |Holding(buckets, n, b)| <= NEW_BUCKET_SIZE)
  }

  lemma FollowsAt(s0: Tables, s: Tables, buckets: seq<seq<int>>, i: int)
    requires Follows(s0, s, buckets, [])
    ensures i in s.entries <==> i in s0.entries || Listings(buckets, i) != []
    ensures i in s.entries ==> s.entries[i] == EntryBefore(s0, i).(refCount := |Counting(Listings(buckets, i))|)
    ensures |s.news| == NEW_BUCKET_COUNT && |Counting(Listings(buckets, i))| <= NEW_BUCKETS_PER_ADDRESS
    ensures forall b: nat :: b < NEW_BUCKET_COUNT ==> (i in s.news[b] <==> b in Counting(Listings(buckets, i)))
    ensures Listings(buckets, i) != [] <==> Counting(Listings(buckets, i)) != []
  {
    assert ReadSoFar(buckets, [], i) == Listings(buckets, i);
  }

  lemma BucketsAreListed(s0: Tables, s: Tables, buckets: seq<seq<int>>, i: int)
    requires Follows(s0, s, buckets, []) && |buckets| <= NEW_BUCKET_COUNT
    ensures BucketsOf(s.news, i) == Members(Counting(Listings(buckets, i)))
  {
    hide Follows, Listings;
    FollowsAt(s0, s, buckets, i);
    var l := Counting(Listings(buckets, i));
    assert forall k :: 0 <= k < |l| ==> l[k] < |buckets|;
    forall b: nat ensures b in BucketsOf(s.news, i) <==> b in l { }
  }

  // A listed id that is not new.
  lemma ListedWrong(s0: Tables, s: Tables, all: seq<DiskEntry>, newLen: nat, buckets: seq<seq<int>>)
    requires Stands(s0, all, newLen) && Follows(s0, s, buckets, []) && |buckets| <= NEW_BUCKET_COUNT
    requires !Within(buckets, newLen)
    ensures !Frame(s) || !NewPlaced(s.entries, s.news, NONE)
  {
    hide Follows, Frame, Listings;
    WithinExactly(buckets, newLen);
    var i :| Listings(buckets, i) != [] && !(0 <= i < newLen);
    FollowsAt(s0, s, buckets, i);
    if 0 <= i < |all| {
      var b := Counting(Listings(buckets, i))[0];
      assert i in s.news[b];
      assert Bare(s0.entries[i]).inTried && s.entries[i].inTried;
      assert !NewBucketOk(s.entries, s.news[b]);
    } else {
      FollowsOrder(s0, s, buckets);
      Stranger(s, |all|, i);
    }
  }

  lemma FollowsOrder(s0: Tables, s: Tables, buckets: seq<seq<int>>)
    requires Follows(s0, s, buckets, [])
    ensures s == s0.(entries := s.entries, news := s.news)
  {
  }

  // With only new ids listed the entries stand for the same ones.
  lemma StillStands(s0: Tables, s: Tables, all: seq<DiskEntry>, newLen: nat, buckets: seq<seq<int>>)
    requires Stands(s0, all, newLen) && Follows(s0, s, buckets, []) && Within(buckets, newLen)
    ensures Stands(s, all, newLen) && forall i :: newLen <= i < |all| ==> s.entries[i].refCount == 0
  {
    hide Follows, Listings;
    WithinExactly(buckets, newLen);
    FollowsOrder(s0, s, buckets);
    forall i ensures i in s.entries <==> 0 <= i < |all| { FollowsAt(s0, s, buckets, i); }
    forall i | 0 <= i < |all|
      ensures Bare(s.entries[i]) == FromDisk(all[i], 0, newLen <= i, i) && (newLen <= i ==> s.entries[i].refCount == 0)
    {
      FollowsAt(s0, s, buckets, i);
      assert Bare(s0.entries[i]) == FromDisk(all[i], 0, newLen <= i, i);
    }
  }

  lemma BucketHolds(s0: Tables, s: Tables, newLen: nat, buckets: seq<seq<int>>, b: nat)
    requires Follows(s0, s, buckets, []) && Within(buckets, newLen) && b < NEW_BUCKET_COUNT
    ensures |s.news| == NEW_BUCKET_COUNT && s.news[b] == Holding(buckets, newLen, b)
  {
    hide Follows, Listings;
    WithinExactly(buckets, newLen);
    FollowsAt(s0, s, buckets, 0);
    forall i ensures i in s.news[b] <==> i in Holding(buckets, newLen, b) { FollowsAt(s0, s, buckets, i); }
  }

  // What the invariant asks of the count of a new id.
  ghost predicate CountOk(s: Tables, i: int)
    requires i in s.entries
  {
    1 <= s.entries[i].refCount <= NEW_BUCKETS_PER_ADDRESS && s.entries[i].refCount == |BucketsOf(s.news, i)|
  }

  lemma CountExactly(s0: Tables, s: Tables, buckets: seq<seq<int>>, i: int)
    requires Follows(s0, s, buckets, []) && |buckets| <= NEW_BUCKET_COUNT && i in s0.entries
    ensures i in s.entries
    ensures CountOk(s, i) <==> Listings(buckets, i) != [] && Distinct(Counting(Listings(buckets, i)))
  {
    hide Follows, Listings, Counting;
    FollowsAt(s0, s, buckets, i);
    BucketsAreListed(s0, s, buckets, i);
    SizeExactly(Counting(Listings(buckets, i)));
  }

  lemma NewPlacedExactly(s: Tables, all: seq<DiskEntry>, newLen: nat)
    requires Stands(s, all, newLen) && |s.news| == NEW_BUCKET_COUNT
    requires forall b: nat, i :: b < |s.news| && i in s.news[b] ==> 0 <= i < newLen
    ensures NewPlaced(s.entries, s.news, NONE) <==>
              && (forall i :: 0 <= i < newLen ==> CountOk(s, i))
              && (forall b: nat :: b < NEW_BUCKET_COUNT ==> |s.news[b]| <= NEW_BUCKET_SIZE)
  {
    hide BucketsOf;
    assert forall i {:trigger s.entries[i]} :: 0 <= i < |all| ==> s.entries[i].inTried == (newLen <= i);
    forall b: nat | b < |s.news| ensures NewBucketOk(s.entries, s.news[b]) <==> |s.news[b]| <= NEW_BUCKET_SIZE { }
    if NewPlaced(s.entries, s.news, NONE) {
      forall i | 0 <= i < newLen ensures CountOk(s, i) {
        assert i in s.entries && !s.entries[i].inTried;
      }
    }
    if forall i :: 0 <= i < newLen ==> CountOk(s, i) {
      forall i | i in s.entries && !s.entries[i].inTried
        ensures 1 <= s.entries[i].refCount <= NEW_BUCKETS_PER_ADDRESS
        ensures s.entries[i].refCount == |BucketsOf(s.news, i)| && i != NONE
      {
        assert CountOk(s, i);
      }
    }
  }

  lemma ListedPlaced(s0: Tables, s: Tables, all: seq<DiskEntry>, newLen: nat, buckets: seq<seq<int>>)
    requires Stands(s0, all, newLen) && Follows(s0, s, buckets, []) && |buckets| <= NEW_BUCKET_COUNT
    requires Within(buckets, newLen)
    ensures NewPlaced(s.entries, s.news, NONE) <==> ListedWell(buckets, newLen)
  {
    StillStands(s0, s, all, newLen, buckets);
    forall i | 0 <= i < newLen
      ensures i in s.entries
      ensures CountOk(s, i) <==> Listings(buckets, i) != [] && Distinct(Counting(Listings(buckets, i)))
    {
      CountExactly(s0, s, buckets, i);
    }
    FollowsAt(s0, s, buckets, 0);
    forall b: nat | b < |s.news| ensures s.news[b] == Holding(buckets, newLen, b) {
      BucketHolds(s0, s, newLen, buckets, b);
    }
    hide Follows, Listings, Counting, Stands, CountOk, NewPlaced, Within;
    NewPlacedExactly(s, all, newLen);
  }

  // ----- all files

  // The file describes consistent tables: different addresses, successes that can be, and buckets,
  // computed anew or listed, that are not overfull and agree with the counts.
  ghost predicate LoadsWell(h: Hashing, file: File) {
    var all, n := Brought(h, file), |file.newEntries|;
    && DistinctAddresses(all) && Successful(all, n)
    && if file.bucketCount == NEW_BUCKET_COUNT then ListedWell(file.buckets, n)
       else
         && Within(file.buckets, |all|)
         && forall b: nat :: b < NEW_BUCKET_COUNT ==> |Homes(h, file.key, file.newEntries, b)| <= NEW_BUCKET_SIZE
  }

  lemma NothingHomed(h: Hashing, key: Bytes, s: Tables, ds: seq<DiskEntry>)
    requires Homed(h, key, s, ds, false)
    ensures |s.news| == NEW_BUCKET_COUNT && forall b: nat :: b < |s.news| ==> s.news[b] == {}
    ensures forall i :: i in s.entries ==> s.entries[i].refCount == 0
  {
  }

  lemma SlotsMoved(h: Hashing, key: Bytes, s0: Tables, s: Tables, all: seq<DiskEntry>, newLen: nat, ds: seq<DiskEntry>)
    requires Slots(h, key, s0, all, newLen, ds) && s.tried == s0.tried
    ensures Slots(h, key, s, all, newLen, ds)
  {
  }

  // What is common to both ways of reading the buckets.
  lemma EntriesBrought(h: Hashing, file: File)
    requires Readable(file)
    ensures var s0, all, n := ReadTrieds(h, file, |file.triedEntries|), Brought(h, file), |file.newEntries|;
            && Stands(s0, all, n) && Slots(h, file.key, s0, all, n, file.triedEntries)
            && Homed(h, file.key, s0, file.newEntries, file.bucketCount != NEW_BUCKET_COUNT)
            && s0.nextId == |all| && s0.newCount == n && s0.triedCount == |all| - n
            && Loaded(h, file) == ReadBuckets(file.bucketCount != NEW_BUCKET_COUNT, s0, file.buckets)
  {
    hide Stands, Slots, Homed, ReadTrieds, Kept;
    EntriesStand(h, file, |file.triedEntries|);
    assert file.triedEntries[..|file.triedEntries|] == file.triedEntries;
  }

  lemma LoadedListed(h: Hashing, file: File)
    requires Readable(file) && file.bucketCount == NEW_BUCKET_COUNT
    ensures Inv(h, file.key, Loaded(h, file), NONE) <==> LoadsWell(h, file)
  {
    var all, n := Brought(h, file), |file.newEntries|;
    var s0, s := ReadTrieds(h, file, |file.triedEntries|), Loaded(h, file);
    hide Stands, Slots, Homed, ReadTrieds, Brought, Loaded, ReadBuckets, Frame, TriedPlaced, NewPlaced, Counted, Within,
         Follows, DistinctAddresses, Successful, Listings, Counting;
    EntriesBrought(h, file);
    NothingHomed(h, file.key, s0, file.newEntries);
    BucketsFollow(s0, file.buckets);
    FollowsOrder(s0, s, file.buckets);
    if Within(file.buckets, n) {
      ListedPlaced(s0, s, all, n, file.buckets);
      StillStands(s0, s, all, n, file.buckets);
      FrameExactly(s, all, n);
      SlotsMoved(h, file.key, s0, s, all, n, file.triedEntries);
      TriedArePlaced(h, file.key, s, all, n, file.triedEntries);
      AllCounted(s, all, n);
    } else {
      ListedWrong(s0, s, all, n, file.buckets);
    }
  }

  lemma StandsOrder(s: Tables, all: seq<DiskEntry>, newLen: nat)
    requires Stands(s, all, newLen)
    ensures |s.order| == |all| && forall i :: 0 <= i < |all| ==> s.order[i] == i
    ensures forall i {:trigger i in s.entries} :: i in s.entries <==> 0 <= i < |all|
  {
  }

  lemma HomedTried(h: Hashing, key: Bytes, s: Tables, all: seq<DiskEntry>, ds: seq<DiskEntry>, rebuild: bool)
    requires Stands(s, all, |ds|) && Homed(h, key, s, ds, rebuild)
    ensures forall i :: |ds| <= i < |all| ==> s.entries[i].refCount == 0
  {
  }

  lemma ListedStranger(s: Tables, buckets: seq<seq<int>>, n: nat)
    requires |s.order| == n && (forall j :: 0 <= j < n ==> s.order[j] == j) && !Within(buckets, n)
    requires forall b, k :: 0 <= b < |buckets| && 0 <= k < |buckets[b]| ==> buckets[b][k] in s.entries
    ensures !Frame(s)
  {
    hide Frame;
    var b, k :| 0 <= b < |buckets| && 0 <= k < |buckets[b]| && !(0 <= buckets[b][k] < n);
    Stranger(s, n, buckets[b][k]);
  }

  lemma LoadedAnew(h: Hashing, file: File)
    requires Readable(file) && file.bucketCount != NEW_BUCKET_COUNT
    ensures Inv(h, file.key, Loaded(h, file), NONE) <==> LoadsWell(h, file)
    ensures Within(file.buckets, |Brought(h, file)|) ==> Loaded(h, file) == ReadTrieds(h, file, |file.triedEntries|)
  {
    var all, n := Brought(h, file), |file.newEntries|;
    var s0, s := ReadTrieds(h, file, |file.triedEntries|), Loaded(h, file);
    assert file.newEntries <= all;
    hide Stands, Slots, Homed, ReadTrieds, Brought, Loaded, ReadBuckets, Frame, TriedPlaced, NewPlaced, Counted,
         DistinctAddresses, Successful, Homes, Within;
    EntriesBrought(h, file);
    StandsOrder(s0, all, n);
    BucketsIgnored(s0, file.buckets, |all|);
    if Within(file.buckets, |all|) {
      HomedTried(h, file.key, s, all, file.newEntries, true);
      HomesPlaced(h, file.key, s, all, file.newEntries);
      FrameExactly(s, all, n);
      TriedArePlaced(h, file.key, s, all, n, file.triedEntries);
      AllCounted(s, all, n);
    } else {
      ListedStranger(s, file.buckets, |all|);
    }
  }

  // A file that can be read loads to consistent tables if and only if it describes some.
  lemma LoadedExactly(h: Hashing, file: File)
    requires Readable(file)
    ensures Inv(h, file.key, Loaded(h, file), NONE) <==> LoadsWell(h, file)
  {
    hide *;
    if file.bucketCount == NEW_BUCKET_COUNT {
      LoadedListed(h, file);
    } else {
      LoadedAnew(h, file);
    }
  }

  // Nothing bounds a bucket that is computed anew: with too many entries of one home it is overfull.
  lemma OverfullBucket(h: Hashing, file: File, b: nat)
    requires Readable(file) && file.bucketCount == 0 && b < NEW_BUCKET_COUNT
    requires |file.newEntries| > NEW_BUCKET_SIZE
    requires forall i :: 0 <= i < |file.newEntries| ==>
               h.NewBucket(file.key, file.newEntries[i].svc.net, file.newEntries[i].source) == b
    ensures |Loaded(h, file).news| == NEW_BUCKET_COUNT && |Loaded(h, file).news[b]| == |file.newEntries|
    ensures !Inv(h, file.key, Loaded(h, file), NONE)
  {
    hide Stands, Slots, ReadTrieds, Brought, Loaded, ReadBuckets, Inv, Hashing.NewBucket;
    LoadedAnew(h, file);
    EntriesBrought(h, file);
    forall i ensures i in Homes(h, file.key, file.newEntries, b) <==> 0 <= i < |file.newEntries| { }
    RangeSize(0, |file.newEntries|, Homes(h, file.key, file.newEntries, b));
  }

  // ----- the book that is loaded

  function KnownFrom(d: DiskEntry, place: Place): Known {
    Known(Address(d.svc, d.services, d.time, 0), d.source, d.lastSuccess, d.attempts, place)
  }

  // Where entry i of the file is put.
  function PlaceFrom(h: Hashing, file: File, i: nat): Place
    requires i < |Brought(h, file)|
  {
    if i >= |file.newEntries| then Tried
    else if file.bucketCount == NEW_BUCKET_COUNT then New(Members(Counting(Listings(file.buckets, i))))
    else New({h.NewBucket(file.key, file.newEntries[i].svc.net, file.newEntries[i].source)})
  }

  ghost predicate StandsFor(h: Hashing, file: File, v: Book, i: nat)
    requires i < |Brought(h, file)|
  {
    var d := Brought(h, file)[i];
    d.svc.net in v && v[d.svc.net] == KnownFrom(d, PlaceFrom(h, file, i))
  }

  lemma EntryView(s: Tables, all: seq<DiskEntry>, newLen: nat, i: nat, buckets: set<nat>)
    requires Stands(s, all, newLen) && Frame(s) && i < |all|
    requires i < newLen ==> BucketsOf(s.news, i) == buckets
    ensures all[i].svc.net in View(s)
    ensures View(s)[all[i].svc.net] == KnownFrom(all[i], if newLen <= i then Tried else New(buckets))
  {
    assert i in s.entries;
    ViewAt(s, i);
    assert Bare(s.entries[i]) == FromDisk(all[i], 0, newLen <= i, i);
  }

  lemma BucketsAnew(h: Hashing, key: Bytes, s: Tables, all: seq<DiskEntry>, ds: seq<DiskEntry>, i: nat)
    requires Stands(s, all, |ds|) && ds <= all && Homed(h, key, s, ds, true) && i < |ds|
    ensures BucketsOf(s.news, i) == {h.NewBucket(key, ds[i].svc.net, ds[i].source)}
  {
    hide Hashing.NewBucket;
  }

  lemma BroughtNew(h: Hashing, file: File)
    ensures file.newEntries <= Brought(h, file)
  {
  }

  lemma LoadedStands(h: Hashing, file: File)
    requires Readable(file) && LoadsWell(h, file)
    ensures Stands(Loaded(h, file), Brought(h, file), |file.newEntries|)
  {
    var all, n := Brought(h, file), |file.newEntries|;
    var s0, s := ReadTrieds(h, file, |file.triedEntries|), Loaded(h, file);
    hide Stands, Slots, Homed, ReadTrieds, Brought, Loaded, ReadBuckets, Inv, Listings, Counting, Within, Follows;
    EntriesBrought(h, file);
    if file.bucketCount == NEW_BUCKET_COUNT {
      NothingHomed(h, file.key, s0, file.newEntries);
      BucketsFollow(s0, file.buckets);
      StillStands(s0, s, all, n, file.buckets);
    } else {
      LoadedAnew(h, file);
    }
  }

  lemma LoadedFrame(h: Hashing, file: File)
    requires Readable(file) && LoadsWell(h, file)
    ensures Frame(Loaded(h, file))
  {
    LoadedExactly(h, file);
    hide LoadsWell, Loaded, Frame, TriedPlaced, NewPlaced, Counted;
  }

  lemma LoadedEntry(h: Hashing, file: File, i: nat)
    requires Readable(file) && LoadsWell(h, file) && i < |Brought(h, file)|
    ensures StandsFor(h, file, View(Loaded(h, file)), i)
  {
    var all, n := Brought(h, file), |file.newEntries|;
    var s0, s := ReadTrieds(h, file, |file.triedEntries|), Loaded(h, file);
    hide Stands, Slots, Homed, ReadTrieds, Brought, Loaded, ReadBuckets, View, KnownFrom, Frame, Follows,
         Listings, Counting, Hashing.NewBucket, DistinctAddresses, Successful, Within;
    BroughtNew(h, file);
    EntriesBrought(h, file);
    LoadedStands(h, file);
    LoadedFrame(h, file);
    if i >= n {
      EntryView(s, all, n, i, {});
    } else if file.bucketCount == NEW_BUCKET_COUNT {
      NothingHomed(h, file.key, s0, file.newEntries);
      BucketsFollow(s0, file.buckets);
      BucketsAreListed(s0, s, file.buckets, i);
      EntryView(s, all, n, i, Members(Counting(Listings(file.buckets, i))));
    } else {
      LoadedAnew(h, file);
      BucketsAnew(h, file.key, s, all, file.newEntries, i);
      EntryView(s, all, n, i, {h.NewBucket(file.key, file.newEntries[i].svc.net, file.newEntries[i].source)});
    }
  }

  lemma ViewNamed(s: Tables, all: seq<DiskEntry>, newLen: nat, a: NetAddr)
    requires Stands(s, all, newLen) && a in View(s)
    ensures exists i :: 0 <= i < |all| && all[i].svc.net == a
  {
    assert all[s.idOf[a]].svc.net == a;
  }

  // The book such a file loads to holds its entries and nothing else: new ones in the buckets listed,
  // or in their home when the buckets are computed anew, and the tried ones that were kept.
  lemma LoadedBook(h: Hashing, file: File)
    requires Readable(file) && LoadsWell(h, file)
    ensures var v, all := View(Loaded(h, file)), Brought(h, file);
            && (forall i: nat :: i < |all| ==> StandsFor(h, file, v, i))
            && (forall a :: a in v ==> exists i :: 0 <= i < |all| && all[i].svc.net == a)
  {
    hide Stands, Brought, Loaded, LoadsWell, View, StandsFor, Readable;
    LoadedStands(h, file);
    var v, all := View(Loaded(h, file)), Brought(h, file);
    forall i: nat | i < |all| ensures StandsFor(h, file, v, i) { LoadedEntry(h, file, i); }
    forall a | a in v ensures exists i :: 0 <= i < |all| && all[i].svc.net == a {
      ViewNamed(Loaded(h, file), all, |file.newEntries|, a);
    }
  }
}
