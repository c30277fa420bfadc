/** The address manager's tables as one value, the invariant that binds them, the book they stand
    for, and the elementary changes made to them with what each change keeps. */
module AddrTables {
  import opened AddrTypes
  import opened AddrBook
  import opened AddrSelect
  import opened FiniteSets

  datatype Tables = Tables(
    nextId: int,
    entries: map<int, Entry>,       // table of all ids
    idOf: map<NetAddr, int>,        // id of a network address
    order: seq<int>,                // all ids, randomly ordered
    triedCount: int,
    tried: seq<seq<int>>,           // tried buckets
    newCount: int,
    news: seq<set<int>>             // new buckets
  )

  // ----- the invariant

  function BucketsOf(news: seq<set<int>>, id: int): set<nat> {
    set b: nat | b < |news| && id in news[b]
  }

  function TriedIds(entries: map<int, Entry>): set<int> {
    set id | id in entries && entries[id].inTried
  }

  function NewIds(entries: map<int, Entry>): set<int> {
    entries.Keys - TriedIds(entries)
  }

  ghost predicate IdsIssued(entries: Entries, nextId: int) {
    && 0 <= nextId
    && forall id {:trigger id in entries} :: id in entries ==> 0 <= id < nextId
  }

  ghost predicate Indexed(entries: Entries, idOf: map<NetAddr, int>) {
    && (forall id {:trigger id in entries} :: id in entries ==>
         entries[id].Net() in idOf && idOf[entries[id].Net()] == id)
    && (forall a {:trigger a in idOf} :: a in idOf ==> idOf[a] in entries && entries[idOf[a]].Net() == a)
  }

  ghost predicate Ordered(entries: Entries, order: seq<int>) {
    && (forall id {:trigger id in entries} :: id in entries ==>
         0 <= entries[id].pos < |order| && order[entries[id].pos] == id)
    && (forall i {:trigger order[i]} :: 0 <= i < |order| ==>
         order[i] in entries && entries[order[i]].pos == i)
  }

  ghost predicate Distinct<T>(s: seq<T>) {
    forall i, j :: 0 <= i < j < |s| ==> s[i] != s[j]
  }

  ghost predicate TriedBucketOk(h: Hashing, key: Bytes, entries: Entries, b: int, bucket: seq<int>) {
    && |bucket| <= TRIED_BUCKET_SIZE
    && Distinct(bucket)
    && (forall id :: id in bucket ==>
         id in entries && entries[id].inTried && h.TriedBucket(key, entries[id].addr.svc) == b)
  }

  ghost predicate TriedPlaced(h: Hashing, key: Bytes, entries: Entries, tried: seq<seq<int>>) {
    && |tried| == TRIED_BUCKET_COUNT
    && (forall b :: 0 <= b < |tried| ==> TriedBucketOk(h, key, entries, b, tried[b]))
    && (forall id {:trigger id in entries} :: id in entries && entries[id].inTried ==>
         id in tried[h.TriedBucket(key, entries[id].addr.svc)])
  }

  ghost predicate NewBucketOk(entries: Entries, bucket: set<int>) {
    && |bucket| <= NEW_BUCKET_SIZE
    && (forall id :: id in bucket ==> id in entries && !entries[id].inTried)
  }

  // ahead: the id whose count has been raised before it was put into the bucket, if any.
  ghost predicate NewPlaced(entries: Entries, news: seq<set<int>>, ahead: int) {
    && |news| == NEW_BUCKET_COUNT
    && (forall b :: 0 <= b < |news| ==> NewBucketOk(entries, news[b]))
    && (forall id {:trigger id in entries} :: id in entries && !entries[id].inTried ==>
         && 1 <= entries[id].refCount <= NEW_BUCKETS_PER_ADDRESS
         && entries[id].refCount == |BucketsOf(news, id)| + if id == ahead then 1 else 0)
  }

  ghost predicate EntryOk(e: Entry) {
    && e.addr.lastTry >= 0
    && e.lastSuccess >= 0
    && (e.inTried ==> e.lastSuccess > 0 && e.refCount == 0)
  }

  ghost predicate EntriesOk(entries: Entries) {
    forall id {:trigger id in entries} :: id in entries ==> EntryOk(entries[id])
  }

  ghost predicate Counted(entries: Entries, triedCount: int, newCount: int) {
    triedCount == |TriedIds(entries)| && newCount == |NewIds(entries)|
  }

  // The parts of the invariant that do not look at the buckets.
  ghost predicate Frame(t: Tables) {
    && IdsIssued(t.entries, t.nextId)
    && Indexed(t.entries, t.idOf)
    && Ordered(t.entries, t.order)
    && EntriesOk(t.entries)
  }

  ghost predicate Inv(h: Hashing, key: Bytes, t: Tables, ahead: int) {
    && Frame(t)
    && TriedPlaced(h, key, t.entries, t.tried)
    && NewPlaced(t.entries, t.news, ahead)
    && Counted(t.entries, t.triedCount, t.newCount)
  }

  const NONE := -1

  // ----- the book the tables stand for

  function KnownAs(t: Tables, id: int): Known
    requires id in t.entries
  {
    var e := t.entries[id];
    Known(e.addr, e.source, e.lastSuccess, e.attempts, if e.inTried then Tried else New(BucketsOf(t.news, id)))
  }

  function View(t: Tables): Book {
    map a | a in t.idOf && t.idOf[a] in t.entries :: KnownAs(t, t.idOf[a])
  }

  lemma ViewAt(t: Tables, id: int)
    requires Indexed(t.entries, t.idOf) && id in t.entries
    ensures t.entries[id].Net() in View(t) && View(t)[t.entries[id].Net()] == KnownAs(t, id)
  {
  }

  // ----- swapping two places in the random order

  function Swapped(t: Tables, i: int, j: int): Tables
    requires 0 <= i < |t.order| && 0 <= j < |t.order|
    requires t.order[i] in t.entries && t.order[j] in t.entries
  {
    if i == j then t else
    var id1, id2 := t.order[i], t.order[j];
    var e1 := t.entries[id1 := t.entries[id1].(pos := j)];
    t.(entries := e1[id2 := e1[id2].(pos := i)], order := t.order[i := id2][j := id1])
  }

  // Entries that differ in nothing the tables depend on, except their position in the order.
  ghost predicate SameShape(e: Entries, e': Entries) {
    && e.Keys == e'.Keys
    && forall id {:trigger id in e} {:trigger id in e'} :: id in e ==>
         && e'[id].addr.svc == e[id].addr.svc
         && e'[id].inTried == e[id].inTried
         && e'[id].refCount == e[id].refCount
  }

  lemma SameTriedIds(e: Entries, e': Entries)
    requires e.Keys == e'.Keys
    requires forall id :: id in e ==> e'[id].inTried == e[id].inTried
    ensures TriedIds(e') == TriedIds(e)
  {
    forall id ensures id in TriedIds(e') <==> id in TriedIds(e) { }
  }

  lemma SameShapeTried(h: Hashing, key: Bytes, e: Entries, e': Entries, tried: seq<seq<int>>)
    requires SameShape(e, e') && TriedPlaced(h, key, e, tried)
    ensures TriedPlaced(h, key, e', tried)
  {
    forall b | 0 <= b < |tried| ensures TriedBucketOk(h, key, e', b, tried[b]) {
      assert TriedBucketOk(h, key, e, b, tried[b]);
    }
  }

  lemma SameShapeNew(e: Entries, e': Entries, news: seq<set<int>>, ahead: int)
    requires SameShape(e, e') && NewPlaced(e, news, ahead)
    ensures NewPlaced(e', news, ahead)
  {
    forall b | 0 <= b < |news| ensures NewBucketOk(e', news[b]) {
      assert NewBucketOk(e, news[b]);
    }
  }

  lemma SameShapeKeeps(h: Hashing, key: Bytes, t: Tables, t': Tables, ahead: int)
    requires Inv(h, key, t, ahead)
    requires t' == t.(entries := t'.entries, order := t'.order)
    requires SameShape(t.entries, t'.entries) && Frame(t')
    ensures Inv(h, key, t', ahead)
  {
    SameTriedIds(t.entries, t'.entries);
    SameShapeTried(h, key, t.entries, t'.entries, t.tried);
    SameShapeNew(t.entries, t'.entries, t.news, ahead);
  }

  // Entries that differ in their random position only.
  ghost predicate SameButPos(e: Entries, e': Entries) {
    && e.Keys == e'.Keys
    && forall id {:trigger id in e} {:trigger id in e'} :: id in e ==> e'[id] == e[id].(pos := e'[id].pos)
  }

  lemma SameButPosView(t: Tables, t': Tables)
    requires SameButPos(t.entries, t'.entries) && Indexed(t.entries, t.idOf)
    requires t'.idOf == t.idOf && t'.news == t.news
    ensures View(t') == View(t)
  {
  }

  lemma SwapFrame(t: Tables, i: int, j: int)
    requires Frame(t) && 0 <= i < |t.order| && 0 <= j < |t.order| && i != j
    ensures Frame(Swapped(t, i, j))
    ensures SameButPos(t.entries, Swapped(t, i, j).entries)
  {
    var t' := Swapped(t, i, j);
    assert SameButPos(t.entries, t'.entries);
    assert Ordered(t'.entries, t'.order);
  }

  lemma SwapKeeps(h: Hashing, key: Bytes, t: Tables, i: int, j: int, ahead: int)
    requires Inv(h, key, t, ahead)
    requires 0 <= i < |t.order| && 0 <= j < |t.order|
    ensures t.order[i] in t.entries && t.order[j] in t.entries
    ensures Inv(h, key, Swapped(t, i, j), ahead)
    ensures View(Swapped(t, i, j)) == View(t)
    ensures multiset(Swapped(t, i, j).order) == multiset(t.order)
    ensures SameButPos(t.entries, Swapped(t, i, j).entries)
  {
    if i != j {
      var t' := Swapped(t, i, j);
      SwapFrame(t, i, j);
      SameShapeKeeps(h, key, t, t', ahead);
      SameButPosView(t, t');
    }
  }

  // ----- changing what is recorded about one id

  function Recorded(t: Tables, id: int, e: Entry): Tables {
    t.(entries := t.entries[id := e])
  }

  lemma RecordFrame(t: Tables, t': Tables, id: int, e: Entry)
    requires Frame(t) && id in t.entries && EntryOk(e)
    requires e.Net() == t.entries[id].Net() && e.pos == t.entries[id].pos
    requires t'.entries == t.entries[id := e] && t'.nextId == t.nextId && t'.idOf == t.idOf && t'.order == t.order
    ensures Frame(t')
  {
  }

  lemma RecordKeeps(h: Hashing, key: Bytes, t: Tables, id: int, e: Entry, ahead: int)
    requires Inv(h, key, t, ahead) && id in t.entries && EntryOk(e)
    requires e.addr.svc == t.entries[id].addr.svc && e.pos == t.entries[id].pos
    requires e.inTried == t.entries[id].inTried && e.refCount == t.entries[id].refCount
    ensures Inv(h, key, Recorded(t, id, e), ahead)
    ensures View(Recorded(t, id, e)) == View(t)[e.Net() := KnownAs(Recorded(t, id, e), id)]
  {
    var t' := Recorded(t, id, e);
    RecordFrame(t, t', id, e);
    SameShapeKeeps(h, key, t, t', ahead);
    RecordView(t, id, e);
  }

  lemma RecordView(t: Tables, id: int, e: Entry)
    requires Indexed(t.entries, t.idOf) && id in t.entries && e.Net() == t.entries[id].Net()
    ensures View(Recorded(t, id, e)) == View(t)[e.Net() := KnownAs(Recorded(t, id, e), id)]
  {
  }

  // ----- taking one reference to a new id away

  function Unreferenced(t: Tables, b: int, id: int): Tables
    requires 0 <= b < |t.news| && id in t.entries && t.entries[id].refCount > 1
  {
    t.(entries := t.entries[id := t.entries[id].(refCount := t.entries[id].refCount - 1)],
       news := t.news[b := t.news[b] - {id}])
  }

  lemma BucketsAfterRemoval(news: seq<set<int>>, b: int, id: int)
    requires 0 <= b < |news| && id in news[b]
    ensures BucketsOf(news[b := news[b] - {id}], id) == BucketsOf(news, id) - {b}
    ensures |BucketsOf(news[b := news[b] - {id}], id)| == |BucketsOf(news, id)| - 1
    ensures forall x :: x != id ==> BucketsOf(news[b := news[b] - {id}], x) == BucketsOf(news, x)
  {
    assert b in BucketsOf(news, id);
  }

  lemma UnreferenceKeeps(h: Hashing, key: Bytes, t: Tables, b: int, id: int, ahead: int)
    requires Inv(h, key, t, ahead)
    requires 0 <= b < |t.news| && id in t.news[b] && id != ahead
    requires t.entries[id].refCount > 1
    ensures Inv(h, key, Unreferenced(t, b, id), ahead)
    ensures NewBucketOk(t.entries, t.news[b])
    ensures View(Unreferenced(t, b, id)) == Dropped(View(t), t.entries[id].Net(), b)
  {
    var t' := Unreferenced(t, b, id);
    assert NewBucketOk(t.entries, t.news[b]);
    RecordFrame(t, t', id, t'.entries[id]);
    SameTriedIds(t.entries, t'.entries);
    UnreferenceTried(h, key, t, b, id);
    UnreferenceNew(t, b, id, ahead);
    UnreferenceView(t, b, id);
  }

  lemma UnreferenceTried(h: Hashing, key: Bytes, t: Tables, b: int, id: int)
    requires TriedPlaced(h, key, t.entries, t.tried)
    requires 0 <= b < |t.news| && id in t.entries && !t.entries[id].inTried && t.entries[id].refCount > 1
    ensures TriedPlaced(h, key, Unreferenced(t, b, id).entries, t.tried)
  {
    forall c | 0 <= c < |t.tried| ensures TriedBucketOk(h, key, Unreferenced(t, b, id).entries, c, t.tried[c]) {
      assert TriedBucketOk(h, key, t.entries, c, t.tried[c]);
    }
  }

  lemma UnreferenceNew(t: Tables, b: int, id: int, ahead: int)
    requires NewPlaced(t.entries, t.news, ahead)
    requires 0 <= b < |t.news| && id in t.news[b] && id != ahead
    requires id in t.entries && t.entries[id].refCount > 1
    ensures NewPlaced(Unreferenced(t, b, id).entries, Unreferenced(t, b, id).news, ahead)
  {
    var t' := Unreferenced(t, b, id);
    BucketsAfterRemoval(t.news, b, id);
    forall c | 0 <= c < |t'.news| ensures NewBucketOk(t'.entries, t'.news[c]) {
      assert NewBucketOk(t.entries, t.news[c]);
    }
    assert !t.entries[id].inTried by { assert NewBucketOk(t.entries, t.news[b]); }
  }

  lemma UnreferenceView(t: Tables, b: int, id: int)
    requires Indexed(t.entries, t.idOf)
    requires 0 <= b < |t.news| && id in t.news[b]
    requires id in t.entries && !t.entries[id].inTried && t.entries[id].refCount > 1
    requires |BucketsOf(t.news, id)| > 1
    ensures t.entries[id].Net() in View(t)
    ensures View(Unreferenced(t, b, id)) == Dropped(View(t), t.entries[id].Net(), b)
  {
    BucketsAfterRemoval(t.news, b, id);
    assert BucketsOf(t.news, id) != {b};
  }

  // ----- forgetting a new id whose only reference is in bucket b

  // The id has already been moved to the end of the order.
  function Forgotten(t: Tables, b: int, id: int): Tables
    requires 0 <= b < |t.news| && id in t.entries && |t.order| > 0
  {
    t.(entries := t.entries - {id}, idOf := t.idOf - {t.entries[id].Net()},
       order := t.order[..|t.order| - 1], newCount := t.newCount - 1,
       news := t.news[b := t.news[b] - {id}])
  }

  lemma ForgetFrame(t: Tables, b: int, id: int)
    requires Frame(t) && 0 <= b < |t.news| && id in t.entries
    requires |t.order| > 0 && t.entries[id].pos == |t.order| - 1
    ensures Frame(Forgotten(t, b, id))
  {
    var t' := Forgotten(t, b, id);
    assert t.order[|t.order| - 1] == id;
    assert forall i :: 0 <= i < |t'.order| ==> t'.order[i] == t.order[i] && t'.order[i] in t.entries;
    assert Ordered(t'.entries, t'.order);
    assert forall a :: a in t'.idOf ==> a in t.idOf;
    assert Indexed(t'.entries, t'.idOf);
  }

  lemma ForgetCounts(e: Entries, id: int)
    requires id in e && !e[id].inTried
    ensures TriedIds(e - {id}) == TriedIds(e)
    ensures NewIds(e - {id}) == NewIds(e) - {id}
  {
    forall x ensures x in TriedIds(e - {id}) <==> x in TriedIds(e) { }
  }

  lemma ForgetTried(h: Hashing, key: Bytes, e: Entries, tried: seq<seq<int>>, id: int)
    requires TriedPlaced(h, key, e, tried) && id in e && !e[id].inTried
    ensures TriedPlaced(h, key, e - {id}, tried)
  {
    forall c | 0 <= c < |tried| ensures TriedBucketOk(h, key, e - {id}, c, tried[c]) {
      assert TriedBucketOk(h, key, e, c, tried[c]);
    }
  }

  lemma ForgetNew(e: Entries, news: seq<set<int>>, b: int, id: int, ahead: int)
    requires NewPlaced(e, news, ahead) && id in e && e[id].refCount == 1 && id != ahead
    requires 0 <= b < |news| && id in news[b]
    ensures BucketsOf(news, id) == {b}
    ensures NewPlaced(e - {id}, news[b := news[b] - {id}], ahead)
  {
    var news' := news[b := news[b] - {id}];
    assert !e[id].inTried by { assert NewBucketOk(e, news[b]); }
    BucketsAfterRemoval(news, b, id);
    assert BucketsOf(news', id) == {};
    assert BucketsOf(news, id) == {b};
    forall c | 0 <= c < |news'| ensures NewBucketOk(e - {id}, news'[c]) {
      assert NewBucketOk(e, news[c]);
      assert c != b ==> id !in news[c] by { assert c in BucketsOf(news, id) <==> c == b; }
    }
  }

  lemma ForgetView(t: Tables, b: int, id: int)
    requires Indexed(t.entries, t.idOf) && id in t.entries && !t.entries[id].inTried && |t.order| > 0
    requires 0 <= b < |t.news| && id in t.news[b]
    requires BucketsOf(t.news, id) == {b}
    ensures t.entries[id].Net() in View(t)
    ensures View(Forgotten(t, b, id)) == Dropped(View(t), t.entries[id].Net(), b)
  {
    BucketsAfterRemoval(t.news, b, id);
    var t' := Forgotten(t, b, id);
    var a := t.entries[id].Net();
    assert View(t)[a].place == New({b});
    assert forall x :: x in t'.idOf ==> t'.idOf[x] != id;
    assert View(t').Keys == (View(t) - {a}).Keys;
  }

  lemma ForgetKeeps(h: Hashing, key: Bytes, t: Tables, b: int, id: int, ahead: int)
    requires Inv(h, key, t, ahead)
    requires 0 <= b < |t.news| && id in t.news[b] && id != ahead
    requires id in t.entries && t.entries[id].refCount == 1
    requires t.entries[id].pos == |t.order| - 1
    ensures |t.order| > 0
    ensures Inv(h, key, Forgotten(t, b, id), ahead)
    ensures !t.entries[id].inTried && t.entries[id].Net() in View(t)
    ensures View(Forgotten(t, b, id)) == Dropped(View(t), t.entries[id].Net(), b)
  {
    var t' := Forgotten(t, b, id);
    assert !t.entries[id].inTried by { assert NewBucketOk(t.entries, t.news[b]); }
    ForgetFrame(t, b, id);
    ForgetCounts(t.entries, id);
    ForgetTried(h, key, t.entries, t.tried, id);
    ForgetNew(t.entries, t.news, b, id, ahead);
    ForgetView(t, b, id);
  }

  // Takes new id out of bucket b, forgetting it when that was its last reference.
  function Unref(t: Tables, b: int, id: int): Tables
    requires 0 <= b < |t.news| && id in t.entries
    requires t.entries[id].refCount == 1 ==> 0 <= t.entries[id].pos < |t.order|
    requires t.entries[id].refCount == 1 ==> t.order[t.entries[id].pos] == id && t.order[|t.order| - 1] in t.entries
  {
    if t.entries[id].refCount != 1 then
      t.(entries := t.entries[id := t.entries[id].(refCount := t.entries[id].refCount - 1)],
         news := t.news[b := t.news[b] - {id}])
    else
      Forgotten(Swapped(t, t.entries[id].pos, |t.order| - 1), b, id)
  }

  // What taking id out of bucket b may rely on.
  ghost predicate MayUnref(t: Tables, b: int, id: int) {
    && 0 <= b < |t.news| && id in t.entries
    && 1 <= t.entries[id].refCount
    && 0 <= t.entries[id].pos < |t.order| && t.order[t.entries[id].pos] == id
    && t.order[|t.order| - 1] in t.entries
    && t.entries[t.order[|t.order| - 1]].pos == |t.order| - 1
  }

  lemma MemberMayUnref(h: Hashing, key: Bytes, t: Tables, b: int, id: int, ahead: int)
    requires Inv(h, key, t, ahead) && 0 <= b < |t.news| && id in t.news[b]
    ensures MayUnref(t, b, id) && !t.entries[id].inTried
    ensures t.entries[id].Net() in View(t) && View(t)[t.entries[id].Net()].place.New?
  {
    ViewAt(t, id);
    assert NewBucketOk(t.entries, t.news[b]);
  }

  lemma SwapToEnd(t: Tables, b: int, id: int)
    requires MayUnref(t, b, id) && t.entries[id].refCount == 1
    ensures var s := Swapped(t, t.entries[id].pos, |t.order| - 1);
            && s.news == t.news && |s.order| == |t.order|
            && id in s.entries && s.entries[id].refCount == 1
            && s.entries[id].pos == |s.order| - 1 && s.entries[id].Net() == t.entries[id].Net()
  {
  }

  lemma UnrefLast(h: Hashing, key: Bytes, t: Tables, b: int, id: int, ahead: int)
    requires Inv(h, key, t, ahead) && 0 <= b < |t.news| && id in t.news[b] && id != ahead
    requires MayUnref(t, b, id) && t.entries[id].refCount == 1
    requires t.entries[id].Net() in View(t) && View(t)[t.entries[id].Net()].place.New?
    ensures Inv(h, key, Unref(t, b, id), ahead)
    ensures View(Unref(t, b, id)) == Dropped(View(t), t.entries[id].Net(), b)
  {
    hide Inv, View, Forgotten, Dropped;
    SwapToEnd(t, b, id);
    SwapKeeps(h, key, t, t.entries[id].pos, |t.order| - 1, ahead);
    hide Swapped;
    ForgetKeeps(h, key, Swapped(t, t.entries[id].pos, |t.order| - 1), b, id, ahead);
  }

  lemma UnrefKeeps(h: Hashing, key: Bytes, t: Tables, b: int, id: int, ahead: int)
    requires Inv(h, key, t, ahead) && 0 <= b < |t.news| && id in t.news[b] && id != ahead
    ensures MayUnref(t, b, id)
    ensures Inv(h, key, Unref(t, b, id), ahead)
    ensures t.entries[id].Net() in View(t) && View(t)[t.entries[id].Net()].place.New?
    ensures View(Unref(t, b, id)) == Dropped(View(t), t.entries[id].Net(), b)
  {
    MemberMayUnref(h, key, t, b, id, ahead);
    if t.entries[id].refCount == 1 {
      UnrefLast(h, key, t, b, id, ahead);
    } else {
      UnreferenceKeeps(h, key, t, b, id, ahead);
      assert Unref(t, b, id) == Unreferenced(t, b, id);
    }
  }

  lemma UnrefOthers(t: Tables, b: int, id: int, x: int)
    requires MayUnref(t, b, id) && x in t.entries && x != id
    ensures x in Unref(t, b, id).entries
    ensures Unref(t, b, id).entries[x] == t.entries[x].(pos := Unref(t, b, id).entries[x].pos)
  {
  }

  // ----- a new entry, and one more reference

  function Entered(t: Tables, e: Entry): Tables {
    t.(nextId := t.nextId + 1, entries := t.entries[t.nextId := e], idOf := t.idOf[e.Net() := t.nextId],
       order := t.order + [t.nextId], newCount := t.newCount + 1)
  }

  lemma EnterTried(h: Hashing, key: Bytes, e: Entries, tried: seq<seq<int>>, id: int, x: Entry)
    requires TriedPlaced(h, key, e, tried) && id !in e && !x.inTried
    ensures TriedPlaced(h, key, e[id := x], tried)
  {
    forall c | 0 <= c < |tried| ensures TriedBucketOk(h, key, e[id := x], c, tried[c]) {
      assert TriedBucketOk(h, key, e, c, tried[c]);
    }
  }

  lemma EnterNew(e: Entries, news: seq<set<int>>, id: int, x: Entry)
    requires NewPlaced(e, news, NONE) && id !in e && !x.inTried && x.refCount == 1
    requires forall y :: y in e ==> y >= 0
    ensures BucketsOf(news, id) == {}
    ensures NewPlaced(e[id := x], news, id)
  {
    forall c | 0 <= c < |news| ensures NewBucketOk(e[id := x], news[c]) && id !in news[c] {
      assert NewBucketOk(e, news[c]);
    }
    assert BucketsOf(news, id) == {};
  }

  lemma EnterFrame(t: Tables, x: Entry)
    requires Frame(t) && x.Net() !in t.idOf && EntryOk(x) && x.pos == |t.order|
    ensures Frame(Entered(t, x))
  {
    var t' := Entered(t, x);
    assert t.nextId !in t.entries;
    assert forall i :: 0 <= i < |t.order| ==> t'.order[i] == t.order[i] && t.order[i] in t.entries;
    assert Ordered(t'.entries, t'.order);
    assert Indexed(t'.entries, t'.idOf);
  }

  lemma EnterCounts(e: Entries, id: int, x: Entry)
    requires id !in e && !x.inTried
    ensures TriedIds(e[id := x]) == TriedIds(e)
    ensures NewIds(e[id := x]) == NewIds(e) + {id}
  {
    forall y ensures y in TriedIds(e[id := x]) <==> y in TriedIds(e) { }
  }

  // The new id is one reference ahead: its count is raised, no bucket holds it yet.
  lemma EnterKeeps(h: Hashing, key: Bytes, t: Tables, x: Entry)
    requires Inv(h, key, t, NONE) && x.Net() !in t.idOf
    requires EntryOk(x) && !x.inTried && x.refCount == 1 && x.pos == |t.order|
    ensures Inv(h, key, Entered(t, x), t.nextId)
    ensures View(Entered(t, x)) ==
            View(t)[x.Net() := Known(x.addr, x.source, x.lastSuccess, x.attempts, New({}))]
  {
    assert t.nextId !in t.entries;
    EnterFrame(t, x);
    EnterTried(h, key, t.entries, t.tried, t.nextId, x);
    EnterNew(t.entries, t.news, t.nextId, x);
    EnterCounts(t.entries, t.nextId, x);
    EnterView(t, x);
  }

  lemma EnterView(t: Tables, x: Entry)
    requires Frame(t) && x.Net() !in t.idOf && !x.inTried && BucketsOf(t.news, t.nextId) == {}
    ensures View(Entered(t, x)) ==
            View(t)[x.Net() := Known(x.addr, x.source, x.lastSuccess, x.attempts, New({}))]
  {
    assert t.nextId !in t.entries;
    var t' := Entered(t, x);
    assert View(t').Keys == View(t).Keys + {x.Net()};
  }

  function Raised(t: Tables, id: int): Tables
    requires id in t.entries
  {
    Recorded(t, id, t.entries[id].(refCount := t.entries[id].refCount + 1))
  }

  lemma RaiseKeeps(h: Hashing, key: Bytes, t: Tables, id: int)
    requires Inv(h, key, t, NONE) && id in t.entries && !t.entries[id].inTried
    requires t.entries[id].refCount < NEW_BUCKETS_PER_ADDRESS
    ensures Inv(h, key, Raised(t, id), id)
    ensures View(Raised(t, id)) == View(t)
  {
    var t' := Raised(t, id);
    RecordFrame(t, t', id, t'.entries[id]);
    SameTriedIds(t.entries, t'.entries);
    RaiseBuckets(h, key, t, id);
    RaiseView(t, id);
  }

  lemma RaiseView(t: Tables, id: int)
    requires Indexed(t.entries, t.idOf) && id in t.entries
    ensures View(Raised(t, id)) == View(t)
  {
  }

  lemma RaiseBuckets(h: Hashing, key: Bytes, t: Tables, id: int)
    requires TriedPlaced(h, key, t.entries, t.tried) && NewPlaced(t.entries, t.news, NONE)
    requires id in t.entries && !t.entries[id].inTried
    requires forall y :: y in t.entries ==> y >= 0
    requires t.entries[id].refCount < NEW_BUCKETS_PER_ADDRESS
    ensures TriedPlaced(h, key, Raised(t, id).entries, t.tried)
    ensures NewPlaced(Raised(t, id).entries, t.news, id)
  {
    var e' := Raised(t, id).entries;
    forall c | 0 <= c < |t.tried| ensures TriedBucketOk(h, key, e', c, t.tried[c]) {
      assert TriedBucketOk(h, key, t.entries, c, t.tried[c]);
    }
    forall c | 0 <= c < |t.news| ensures NewBucketOk(e', t.news[c]) {
      assert NewBucketOk(t.entries, t.news[c]);
    }
  }

  // The id that is one reference ahead is put into bucket b.
  function Inserted(t: Tables, b: int, id: int): Tables
    requires 0 <= b < |t.news|
  {
    t.(news := t.news[b := t.news[b] + {id}])
  }

  lemma BucketsAfterInsertion(news: seq<set<int>>, b: int, id: int)
    requires 0 <= b < |news| && id !in news[b]
    ensures BucketsOf(news[b := news[b] + {id}], id) == BucketsOf(news, id) + {b}
    ensures |BucketsOf(news[b := news[b] + {id}], id)| == |BucketsOf(news, id)| + 1
    ensures forall x :: x != id ==> BucketsOf(news[b := news[b] + {id}], x) == BucketsOf(news, x)
  {
  }

  lemma InsertKeeps(h: Hashing, key: Bytes, t: Tables, b: int, id: int)
    requires Inv(h, key, t, id) && id in t.entries && !t.entries[id].inTried
    requires 0 <= b < |t.news| && id !in t.news[b] && |t.news[b]| < NEW_BUCKET_SIZE
    ensures Inv(h, key, Inserted(t, b, id), NONE)
    ensures t.entries[id].Net() in View(t) && View(t)[t.entries[id].Net()].place.New?
    ensures b !in View(t)[t.entries[id].Net()].place.buckets
    ensures View(Inserted(t, b, id)) == Placed(View(t), t.entries[id].Net(), b)
  {
    BucketsAfterInsertion(t.news, b, id);
    ViewAt(t, id);
    InsertNew(t.entries, t.news, b, id);
    InsertView(t, b, id);
  }

  lemma InsertNew(e: Entries, news: seq<set<int>>, b: int, id: int)
    requires NewPlaced(e, news, id) && id in e && !e[id].inTried
    requires forall x :: x in e ==> x >= 0
    requires 0 <= b < |news| && id !in news[b] && |news[b]| < NEW_BUCKET_SIZE
    ensures NewPlaced(e, news[b := news[b] + {id}], NONE)
  {
    var news' := news[b := news[b] + {id}];
    BucketsAfterInsertion(news, b, id);
    forall c | 0 <= c < |news'| ensures NewBucketOk(e, news'[c]) {
      assert NewBucketOk(e, news[c]);
    }
  }

  lemma InsertView(t: Tables, b: int, id: int)
    requires Indexed(t.entries, t.idOf) && id in t.entries && !t.entries[id].inTried
    requires 0 <= b < |t.news| && id !in t.news[b]
    ensures t.entries[id].Net() in View(t) && View(t)[t.entries[id].Net()].place.New?
    ensures View(Inserted(t, b, id)) == Placed(View(t), t.entries[id].Net(), b)
  {
    BucketsAfterInsertion(t.news, b, id);
  }

  // ----- moving a new id to the tried table

  function Withdrawn(news: seq<set<int>>, id: int): (r: seq<set<int>>)
    ensures |r| == |news|
  {
    seq(|news|, i requires 0 <= i < |news| => news[i] - {id})
  }

  lemma BucketsAfterWithdrawal(news: seq<set<int>>, id: int)
    ensures BucketsOf(Withdrawn(news, id), id) == {}
    ensures forall x :: x != id ==> BucketsOf(Withdrawn(news, id), x) == BucketsOf(news, x)
  {
    forall x | x != id ensures BucketsOf(Withdrawn(news, id), x) == BucketsOf(news, x) {
      forall c: nat ensures c in BucketsOf(Withdrawn(news, id), x) <==> c in BucketsOf(news, x) { }
    }
  }

  function AsTried(e: Entry): Entry { e.(refCount := 0, inTried := true) }

  function AsNew(e: Entry): Entry { e.(refCount := 1, inTried := false) }

  function Promoted(t: Tables, b: int, id: int): Tables
    requires 0 <= b < |t.tried| && id in t.entries
  {
    t.(entries := t.entries[id := AsTried(t.entries[id])], news := Withdrawn(t.news, id),
       newCount := t.newCount - 1, tried := t.tried[b := t.tried[b] + [id]], triedCount := t.triedCount + 1)
  }

  lemma PromoteCounts(e: Entries, id: int, x: Entry)
    requires id in e && !e[id].inTried && x.inTried
    ensures TriedIds(e[id := x]) == TriedIds(e) + {id}
    ensures NewIds(e[id := x]) == NewIds(e) - {id}
    ensures id in NewIds(e) && id !in TriedIds(e)
  {
    forall y ensures y in TriedIds(e[id := x]) <==> y in TriedIds(e) + {id} { }
  }

  lemma DemoteCounts(e: Entries, id: int, x: Entry)
    requires id in e && e[id].inTried && !x.inTried
    ensures TriedIds(e[id := x]) == TriedIds(e) - {id}
    ensures NewIds(e[id := x]) == NewIds(e) + {id}
    ensures id in TriedIds(e) && id !in NewIds(e)
  {
    forall y ensures y in TriedIds(e[id := x]) <==> y in TriedIds(e) - {id} { }
  }

  lemma PromoteTried(h: Hashing, key: Bytes, e: Entries, tried: seq<seq<int>>, id: int, b: int)
    requires TriedPlaced(h, key, e, tried) && id in e && !e[id].inTried
    requires b == h.TriedBucket(key, e[id].addr.svc) && |tried[b]| < TRIED_BUCKET_SIZE
    ensures TriedPlaced(h, key, e[id := AsTried(e[id])], tried[b := tried[b] + [id]])
  {
    var e', tried' := e[id := AsTried(e[id])], tried[b := tried[b] + [id]];
    forall c | 0 <= c < |tried'| ensures TriedBucketOk(h, key, e', c, tried'[c]) {
      assert TriedBucketOk(h, key, e, c, tried[c]);
    }
  }

  lemma WithdrawNew(e: Entries, news: seq<set<int>>, id: int)
    requires NewPlaced(e, news, NONE) && id in e && !e[id].inTried
    ensures NewPlaced(e[id := AsTried(e[id])], Withdrawn(news, id), NONE)
  {
    var e', news' := e[id := AsTried(e[id])], Withdrawn(news, id);
    BucketsAfterWithdrawal(news, id);
    forall c | 0 <= c < |news'| ensures NewBucketOk(e', news'[c]) {
      assert NewBucketOk(e, news[c]);
    }
  }

  lemma PromoteView(t: Tables, b: int, id: int)
    requires Indexed(t.entries, t.idOf) && id in t.entries && 0 <= b < |t.tried|
    ensures t.entries[id].Net() in View(t)
    ensures View(Promoted(t, b, id)) ==
            View(t)[t.entries[id].Net() := View(t)[t.entries[id].Net()].(place := Tried)]
  {
    BucketsAfterWithdrawal(t.news, id);
  }

  lemma PromoteKeeps(h: Hashing, key: Bytes, t: Tables, b: int, id: int)
    requires Inv(h, key, t, NONE) && id in t.entries && !t.entries[id].inTried && t.entries[id].lastSuccess > 0
    requires b == h.TriedBucket(key, t.entries[id].addr.svc) && |t.tried[b]| < TRIED_BUCKET_SIZE
    ensures Inv(h, key, Promoted(t, b, id), NONE)
    ensures t.entries[id].Net() in View(t)
    ensures View(Promoted(t, b, id)) ==
            View(t)[t.entries[id].Net() := View(t)[t.entries[id].Net()].(place := Tried)]
  {
    var t' := Promoted(t, b, id);
    RecordFrame(t, t', id, AsTried(t.entries[id]));
    PromoteCounts(t.entries, id, AsTried(t.entries[id]));
    PromoteTried(h, key, t.entries, t.tried, id, b);
    WithdrawNew(t.entries, t.news, id);
    PromoteView(t, b, id);
  }

  // The tried id at position pos of a full bucket makes room and goes to the new bucket dest.
  function Replaced(t: Tables, b: int, pos: int, id: int, dest: int): Tables
    requires 0 <= b < |t.tried| && id in t.entries && 0 <= pos < |t.tried[b]| && t.tried[b][pos] in t.entries
    requires 0 <= dest < |t.news|
  {
    var evicted := t.tried[b][pos];
    t.(entries := t.entries[id := AsTried(t.entries[id])][evicted := AsNew(t.entries[evicted])],
       news := Withdrawn(t.news, id)[dest := Withdrawn(t.news, id)[dest] + {evicted}],
       tried := t.tried[b := t.tried[b][pos := id]])
  }

  lemma ReplaceTried(h: Hashing, key: Bytes, e: Entries, tried: seq<seq<int>>, b: int, pos: int, id: int)
    requires TriedPlaced(h, key, e, tried) && id in e && !e[id].inTried
    requires b == h.TriedBucket(key, e[id].addr.svc) && 0 <= pos < |tried[b]|
    ensures tried[b][pos] in e && e[tried[b][pos]].inTried
    ensures TriedPlaced(h, key, e[id := AsTried(e[id])][tried[b][pos] := AsNew(e[tried[b][pos]])],
                        tried[b := tried[b][pos := id]])
  {
    var evicted := tried[b][pos];
    assert TriedBucketOk(h, key, e, b, tried[b]);
    assert evicted in tried[b];
    var e', tried' := e[id := AsTried(e[id])][evicted := AsNew(e[evicted])], tried[b := tried[b][pos := id]];
    forall c | 0 <= c < |tried'| ensures TriedBucketOk(h, key, e', c, tried'[c]) {
      assert TriedBucketOk(h, key, e, c, tried[c]);
    }
    forall x | x in e' && e'[x].inTried ensures x in tried'[h.TriedBucket(key, e'[x].addr.svc)] {
      var c := h.TriedBucket(key, e'[x].addr.svc);
      if x == id {
        assert tried'[b][pos] == id;
      } else {
        assert x in e && x in tried[c];
        var i :| 0 <= i < |tried[c]| && tried[c][i] == x;
        assert tried'[c][i] == x;
      }
    }
  }

  lemma DemoteNew(e: Entries, news: seq<set<int>>, evicted: int, dest: int)
    requires NewPlaced(e, news, NONE) && evicted in e && e[evicted].inTried && 0 <= evicted
    requires 0 <= dest < |news| && |news[dest]| < NEW_BUCKET_SIZE
    ensures BucketsOf(news, evicted) == {}
    ensures NewPlaced(e[evicted := AsNew(e[evicted])], news[dest := news[dest] + {evicted}], NONE)
  {
    forall c | 0 <= c < |news| ensures evicted !in news[c] {
      assert NewBucketOk(e, news[c]);
    }
    assert BucketsOf(news, evicted) == {};
    BucketsAfterInsertion(news, dest, evicted);
    var e', news' := e[evicted := AsNew(e[evicted])], news[dest := news[dest] + {evicted}];
    forall c | 0 <= c < |news'| ensures NewBucketOk(e', news'[c]) {
      assert NewBucketOk(e, news[c]);
    }
  }

  lemma ReplaceCounts(e: Entries, id: int, evicted: int)
    requires id in e && !e[id].inTried && evicted in e && e[evicted].inTried
    ensures |TriedIds(e[id := AsTried(e[id])][evicted := AsNew(e[evicted])])| == |TriedIds(e)|
    ensures |NewIds(e[id := AsTried(e[id])][evicted := AsNew(e[evicted])])| == |NewIds(e)|
  {
    PromoteCounts(e, id, AsTried(e[id]));
    DemoteCounts(e[id := AsTried(e[id])], evicted, AsNew(e[evicted]));
  }

  lemma ReplaceView(t: Tables, b: int, pos: int, id: int, dest: int)
    requires Indexed(t.entries, t.idOf) && id in t.entries && 0 <= b < |t.tried|
    requires 0 <= pos < |t.tried[b]| && t.tried[b][pos] in t.entries && t.tried[b][pos] != id
    requires 0 <= dest < |t.news| && BucketsOf(Withdrawn(t.news, id), t.tried[b][pos]) == {}
    ensures t.entries[id].Net() in View(t) && t.entries[t.tried[b][pos]].Net() in View(t)
    ensures View(Replaced(t, b, pos, id, dest)) ==
            View(t)[t.entries[id].Net() := View(t)[t.entries[id].Net()].(place := Tried)]
            [t.entries[t.tried[b][pos]].Net() :=
            View(t)[t.entries[t.tried[b][pos]].Net()].(place := New({dest}))]
  {
    BucketsAfterWithdrawal(t.news, id);
    assert dest !in BucketsOf(Withdrawn(t.news, id), t.tried[b][pos]);
    BucketsAfterInsertion(Withdrawn(t.news, id), dest, t.tried[b][pos]);
    assert {dest} == {} + {dest};
  }

  lemma ReplaceKeeps(h: Hashing, key: Bytes, t: Tables, b: int, pos: int, id: int, dest: int)
    requires Inv(h, key, t, NONE) && id in t.entries && !t.entries[id].inTried && t.entries[id].lastSuccess > 0
    requires b == h.TriedBucket(key, t.entries[id].addr.svc) && 0 <= pos < |t.tried[b]|
    requires 0 <= dest < |t.news| && |Withdrawn(t.news, id)[dest]| < NEW_BUCKET_SIZE
    ensures t.tried[b][pos] in t.entries && t.entries[t.tried[b][pos]].inTried
    ensures Inv(h, key, Replaced(t, b, pos, id, dest), NONE)
    ensures t.entries[id].Net() in View(t) && t.entries[t.tried[b][pos]].Net() in View(t)
    ensures View(Replaced(t, b, pos, id, dest)) ==
            View(t)[t.entries[id].Net() := View(t)[t.entries[id].Net()].(place := Tried)]
            [t.entries[t.tried[b][pos]].Net() :=
            View(t)[t.entries[t.tried[b][pos]].Net()].(place := New({dest}))]
  {
    var evicted := t.tried[b][pos];
    ReplaceTried(h, key, t.entries, t.tried, b, pos, id);
    var t1 := t.(entries := t.entries[id := AsTried(t.entries[id])]);
    RecordFrame(t, t1, id, AsTried(t.entries[id]));
    var t' := Replaced(t, b, pos, id, dest);
    RecordFrame(t1, t', evicted, AsNew(t.entries[evicted]));
    ReplaceCounts(t.entries, id, evicted);
    WithdrawNew(t.entries, t.news, id);
    DemoteNew(t1.entries, Withdrawn(t.news, id), evicted, dest);
    ReplaceView(t, b, pos, id, dest);
  }

  // ----- shuffling a tried bucket

  lemma DistinctCount(s: seq<int>, x: int)
    requires Distinct(s)
    ensures multiset(s)[x] <= 1
  {
    if s != [] {
      var n := |s| - 1;
      assert s == s[..n] + [s[n]];
      DistinctCount(s[..n], x);
      assert s[n] !in s[..n];
    }
  }

  lemma PermutedDistinct(s: seq<int>, s': seq<int>)
    requires Distinct(s) && multiset(s') == multiset(s)
    ensures Distinct(s') && |s'| == |s|
    ensures forall x :: x in s' <==> x in s
  {
    forall x ensures x in s' <==> x in s {
      assert x in s' <==> x in multiset(s');
      assert x in s <==> x in multiset(s);
    }
    assert |multiset(s')| == |multiset(s)|;
    forall i, j | 0 <= i < j < |s'| ensures s'[i] != s'[j] {
      if s'[i] == s'[j] {
        assert s' == s'[..j] + s'[j..];
        assert s'[i] in multiset(s'[..j]) && s'[i] in multiset(s'[j..]);
        DistinctCount(s, s'[i]);
      }
    }
  }

  lemma PermuteTried(h: Hashing, key: Bytes, e: Entries, tried: seq<seq<int>>, b: int, s': seq<int>)
    requires TriedPlaced(h, key, e, tried) && 0 <= b < |tried| && multiset(s') == multiset(tried[b])
    ensures TriedPlaced(h, key, e, tried[b := s'])
  {
    assert TriedBucketOk(h, key, e, b, tried[b]);
    PermutedDistinct(tried[b], s');
    assert TriedBucketOk(h, key, e, b, s');
    var tried' := tried[b := s'];
    forall c | 0 <= c < |tried'| ensures TriedBucketOk(h, key, e, c, tried'[c]) {
      assert TriedBucketOk(h, key, e, c, tried[c]);
    }
    forall id | id in e && e[id].inTried ensures id in tried'[h.TriedBucket(key, e[id].addr.svc)] {
      assert id in tried[h.TriedBucket(key, e[id].addr.svc)];
    }
  }

  // ----- the whole move of a new id to the tried table, seen on the book

  lemma PermuteKeeps(h: Hashing, key: Bytes, t: Tables, b: int, s': seq<int>)
    requires Inv(h, key, t, NONE) && 0 <= b < |t.tried| && multiset(s') == multiset(t.tried[b])
    ensures Inv(h, key, t.(tried := t.tried[b := s']), NONE)
    ensures View(t.(tried := t.tried[b := s'])) == View(t)
  {
    PermuteTried(h, key, t.entries, t.tried, b, s');
  }

  // ----- the book's buckets are the tables' buckets

  function NetsOf(entries: Entries, ids: set<int>): set<NetAddr> {
    set id | id in ids && id in entries :: entries[id].Net()
  }

  lemma {:induction false} NetsCount(entries: Entries, idOf: map<NetAddr, int>, ids: set<int>)
    requires Indexed(entries, idOf) && forall id :: id in ids ==> id in entries
    ensures |NetsOf(entries, ids)| == |ids|
  {
    if |ids| == 0 {
      assert NetsOf(entries, ids) == {};
    } else {
      var id := AnyOf(ids);
      var rest := ids - {id};
      NetsCount(entries, idOf, rest);
      var a := entries[id].Net();
      assert a !in NetsOf(entries, rest);
      assert NetsOf(entries, ids) == NetsOf(entries, rest) + {a};
    }
  }

  lemma NewInCount(t: Tables, b: int)
    requires Indexed(t.entries, t.idOf) && 0 <= b < |t.news|
    requires NewBucketOk(t.entries, t.news[b])
    ensures NewIn(View(t), b) == NetsOf(t.entries, t.news[b])
    ensures |NewIn(View(t), b)| == |t.news[b]|
  {
    var v := View(t);
    forall a ensures a in NewIn(v, b) <==> a in NetsOf(t.entries, t.news[b]) {
      if a in NewIn(v, b) {
        var id := t.idOf[a];
        assert b in BucketsOf(t.news, id);
        assert id in t.news[b];
      }
      if a in NetsOf(t.entries, t.news[b]) {
        var id :| id in t.news[b] && id in t.entries && t.entries[id].Net() == a;
        ViewAt(t, id);
        assert b in BucketsOf(t.news, id);
      }
    }
    NetsCount(t.entries, t.idOf, t.news[b]);
  }

  lemma {:induction false} DistinctSize(s: seq<int>)
    requires Distinct(s)
    ensures |set x | x in s| == |s|
  {
    if s == [] {
      assert (set x | x in s) == {};
    } else {
      var n := |s| - 1;
      DistinctSize(s[..n]);
      assert s == s[..n] + [s[n]];
      assert (set x | x in s) == (set x | x in s[..n]) + {s[n]};
    }
  }

  lemma TriedInCount(h: Hashing, key: Bytes, t: Tables, b: int)
    requires Indexed(t.entries, t.idOf) && TriedPlaced(h, key, t.entries, t.tried) && 0 <= b < |t.tried|
    ensures TriedIn(h, key, View(t), b) == NetsOf(t.entries, set id | id in t.tried[b])
    ensures |TriedIn(h, key, View(t), b)| == |t.tried[b]|
  {
    var v := View(t);
    var ids := set id | id in t.tried[b];
    assert TriedBucketOk(h, key, t.entries, b, t.tried[b]);
    forall a ensures a in TriedIn(h, key, v, b) <==> a in NetsOf(t.entries, ids) {
      if a in TriedIn(h, key, v, b) {
        var id := t.idOf[a];
        assert id in t.entries && t.entries[id].inTried;
        assert id in ids;
      }
      if a in NetsOf(t.entries, ids) {
        var id :| id in ids && id in t.entries && t.entries[id].Net() == a;
        ViewAt(t, id);
      }
    }
    NetsCount(t.entries, t.idOf, ids);
    DistinctSize(t.tried[b]);
  }

  // What moving id out of new bucket origin into the tried table relies on.
  ghost predicate MoveReady(h: Hashing, key: Bytes, t: Tables, origin: int, id: int) {
    && |t.tried| == TRIED_BUCKET_COUNT && |t.news| == NEW_BUCKET_COUNT
    && 0 <= origin < |t.news| && id in t.news[origin]
    && id in t.entries && !t.entries[id].inTried && t.entries[id].refCount == |BucketsOf(t.news, id)|
    && var bucket := t.tried[h.TriedBucket(key, t.entries[id].addr.svc)];
    && |bucket| <= TRIED_BUCKET_SIZE
    && forall x :: x in bucket ==> x in t.entries && x != id && x != NONE
  }

  lemma MemberMoveReady(h: Hashing, key: Bytes, t: Tables, origin: int, id: int)
    requires Inv(h, key, t, NONE) && 0 <= origin < |t.news| && id in t.news[origin]
    ensures MoveReady(h, key, t, origin, id)
  {
    assert NewBucketOk(t.entries, t.news[origin]);
    var b := h.TriedBucket(key, t.entries[id].addr.svc);
    assert TriedBucketOk(h, key, t.entries, b, t.tried[b]);
  }

  lemma WithdrawnNone(news: seq<set<int>>, id: int)
    ensures |BucketsOf(news[..0], id)| == 0
  {
    assert BucketsOf(news[..0], id) == {};
  }

  lemma BucketsOfPrefix(news: seq<set<int>>, i: int, id: int)
    requires 0 <= i < |news|
    ensures |BucketsOf(news[..i + 1], id)| == |BucketsOf(news[..i], id)| + if id in news[i] then 1 else 0
  {
    assert i !in BucketsOf(news[..i], id);
    assert BucketsOf(news[..i + 1], id) == BucketsOf(news[..i], id) + if id in news[i] then {i} else {};
  }

  // Room left for a promotion: the book's bucket is as long as the table's.
  lemma PromoteIsStep(h: Hashing, key: Bytes, t: Tables, b: int, id: int)
    requires Inv(h, key, t, NONE) && id in t.entries && !t.entries[id].inTried && t.entries[id].lastSuccess > 0
    requires b == h.TriedBucket(key, t.entries[id].addr.svc) && |t.tried[b]| < TRIED_BUCKET_SIZE
    ensures Inv(h, key, Promoted(t, b, id), NONE)
    ensures t.entries[id].Net() in View(t) && View(t)[t.entries[id].Net()].place.New?
    ensures PromoteStep(h, key, View(t), t.entries[id].Net(), View(Promoted(t, b, id)))
  {
    ViewAt(t, id);
    PromoteKeeps(h, key, t, b, id);
    TriedInCount(h, key, t, b);
  }

  // Where an evicted entry goes: its own new bucket if there is room, else where id came from.
  predicate Destination(h: Hashing, key: Bytes, t: Tables, id: int, origin: int, evicted: int, dest: int) {
    && evicted in t.entries
    && var home := h.NewBucket(key, t.entries[evicted].Net(), t.entries[evicted].source);
    && home < |t.news|
    && dest == if |Withdrawn(t.news, id)[home]| < NEW_BUCKET_SIZE then home else origin
  }

  lemma DestinationHasRoom(h: Hashing, key: Bytes, t: Tables, id: int, origin: int, evicted: int, dest: int)
    requires NewPlaced(t.entries, t.news, NONE) && 0 <= origin < |t.news| && id in t.news[origin]
    requires Destination(h, key, t, id, origin, evicted, dest)
    ensures 0 <= dest < |t.news| && |Withdrawn(t.news, id)[dest]| < NEW_BUCKET_SIZE
  {
    assert NewBucketOk(t.entries, t.news[origin]);
    assert Withdrawn(t.news, id)[origin] == t.news[origin] - {id};
  }

  // The size of a new bucket once id has left it, read off the book.
  lemma PromotedNewIn(t: Tables, id: int, c: int)
    requires Indexed(t.entries, t.idOf) && NewPlaced(t.entries, t.news, NONE)
    requires id in t.entries && !t.entries[id].inTried && 0 <= c < |t.news|
    ensures t.entries[id].Net() in View(t)
    ensures |NewIn(View(t)[t.entries[id].Net() := View(t)[t.entries[id].Net()].(place := Tried)], c)|
            == |Withdrawn(t.news, id)[c]|
  {
    var t' := t.(entries := t.entries[id := AsTried(t.entries[id])], news := Withdrawn(t.news, id));
    WithdrawNew(t.entries, t.news, id);
    BucketsAfterWithdrawal(t.news, id);
    ViewAt(t, id);
    assert Indexed(t'.entries, t'.idOf);
    assert View(t') == View(t)[t.entries[id].Net() := View(t)[t.entries[id].Net()].(place := Tried)];
    assert NewBucketOk(t'.entries, t'.news[c]);
    NewInCount(t', c);
  }

  lemma ReplaceIsStep(h: Hashing, key: Bytes, t: Tables, b: int, pos: int, id: int, origin: int, dest: int)
    requires Inv(h, key, t, NONE) && id in t.entries && !t.entries[id].inTried && t.entries[id].lastSuccess > 0
    requires b == h.TriedBucket(key, t.entries[id].addr.svc) && 0 <= pos < |t.tried[b]| == TRIED_BUCKET_SIZE
    requires 0 <= origin < |t.news| && id in t.news[origin]
    requires Destination(h, key, t, id, origin, t.tried[b][pos], dest)
    ensures 0 <= dest < |t.news| && t.tried[b][pos] in t.entries
    ensures Inv(h, key, Replaced(t, b, pos, id, dest), NONE)
    ensures t.entries[id].Net() in View(t) && View(t)[t.entries[id].Net()].place.New?
    ensures PromoteStep(h, key, View(t), t.entries[id].Net(), View(Replaced(t, b, pos, id, dest)))
  {
    hide Inv, View, PromoteStep, Replaced;
    InvParts(h, key, t);
    var evicted := t.tried[b][pos];
    DestinationHasRoom(h, key, t, id, origin, evicted, dest);
    ReplaceKeeps(h, key, t, b, pos, id, dest);
    PromotedNewIn(t, id, h.NewBucket(key, t.entries[evicted].Net(), t.entries[evicted].source));
    EvictFacts(h, key, t, b, pos, id, origin);
    EvictIsStep(h, key, View(t), View(Replaced(t, b, pos, id, dest)), t.entries[id].Net(), t.entries[evicted].Net(),
                origin, dest);
  }

  lemma InvParts(h: Hashing, key: Bytes, t: Tables)
    requires Inv(h, key, t, NONE)
    ensures Indexed(t.entries, t.idOf) && TriedPlaced(h, key, t.entries, t.tried) && NewPlaced(t.entries, t.news, NONE)
  {
  }

  lemma EvictFacts(h: Hashing, key: Bytes, t: Tables, b: int, pos: int, id: int, origin: int)
    requires Indexed(t.entries, t.idOf) && TriedPlaced(h, key, t.entries, t.tried)
    requires id in t.entries && !t.entries[id].inTried
    requires b == h.TriedBucket(key, t.entries[id].addr.svc) && 0 <= pos < |t.tried[b]| == TRIED_BUCKET_SIZE
    requires 0 <= origin < |t.news| && id in t.news[origin]
    ensures t.tried[b][pos] in t.entries && t.entries[id].Net() in View(t)
    ensures var v, a, victim := View(t), t.entries[id].Net(), t.entries[t.tried[b][pos]].Net();
            && v[a].place.New? && origin in v[a].place.buckets && v[a].addr.svc == t.entries[id].addr.svc
            && victim in v && victim != a && v[victim].source == t.entries[t.tried[b][pos]].source
            && victim in TriedIn(h, key, v, b) && |TriedIn(h, key, v, b)| == TRIED_BUCKET_SIZE
  {
    var evicted := t.tried[b][pos];
    assert evicted in t.tried[b];
    assert TriedBucketOk(h, key, t.entries, b, t.tried[b]);
    TriedInCount(h, key, t, b);
    ViewAt(t, id);
    ViewAt(t, evicted);
    assert origin in BucketsOf(t.news, id);
  }

  lemma EvictIsStep(h: Hashing, key: Bytes, v: Book, v': Book, a: NetAddr, victim: NetAddr, origin: int, dest: int)
    requires a in v && v[a].place.New? && victim in v && victim != a
    requires victim in TriedIn(h, key, v, h.TriedBucket(key, v[a].addr.svc))
    requires |TriedIn(h, key, v, h.TriedBucket(key, v[a].addr.svc))| >= TRIED_BUCKET_SIZE
    requires 0 <= origin && origin in v[a].place.buckets && 0 <= dest
    requires var home := h.NewBucket(key, victim, v[victim].source);
             dest == if |NewIn(v[a := v[a].(place := Tried)], home)| < NEW_BUCKET_SIZE then home else origin
    requires v' == v[a := v[a].(place := Tried)][victim := v[victim].(place := New({dest}))]
    ensures PromoteStep(h, key, v, a, v')
  {
    assert Evicts(h, key, v[a := v[a].(place := Tried)], v[a].place.buckets, victim, v');
  }

  // The tables after the move: appended to its tried bucket, or put in the place that the draws select.
  ghost predicate Moved(h: Hashing, key: Bytes, t: Tables, origin: int, id: int, t': Tables)
    requires MoveReady(h, key, t, origin, id)
  {
    var b := h.TriedBucket(key, t.entries[id].addr.svc);
    if |t.tried[b]| < TRIED_BUCKET_SIZE then t' == Promoted(t, b, id)
    else exists draws, dest :: MovedInto(h, key, t, b, origin, id, t', draws, dest)
  }

  ghost predicate MovedInto(h: Hashing, key: Bytes, t: Tables, b: nat, origin: int, id: int, t': Tables,
                            draws: seq<nat>, dest: int)
    requires b < |t.tried| && id in t.entries && t.tried[b] != [] && forall x :: x in t.tried[b] ==> x in t.entries
  {
    && IsRun(draws, t.tried[b])
    && var s := Selected(t.entries, t.tried[b], draws);
    && Destination(h, key, t, id, origin, s.bucket[s.pos], dest) && 0 <= dest < |t.news|
    && t' == Replaced(t.(tried := t.tried[b := s.bucket]), b, s.pos, id, dest)
  }

  lemma MovedIsStep(h: Hashing, key: Bytes, t: Tables, origin: int, id: int, t': Tables)
    requires Inv(h, key, t, NONE) && MoveReady(h, key, t, origin, id) && Moved(h, key, t, origin, id, t')
    requires t.entries[id].lastSuccess > 0
    ensures Inv(h, key, t', NONE)
    ensures t.entries[id].Net() in View(t) && View(t)[t.entries[id].Net()].place.New?
    ensures PromoteStep(h, key, View(t), t.entries[id].Net(), View(t'))
  {
    hide Inv, View, PromoteStep, Selected;
    var b := h.TriedBucket(key, t.entries[id].addr.svc);
    if |t.tried[b]| < TRIED_BUCKET_SIZE {
      PromoteIsStep(h, key, t, b, id);
    } else {
      var draws, dest :| MovedInto(h, key, t, b, origin, id, t', draws, dest);
      var s := Selected(t.entries, t.tried[b], draws);
      PermuteKeeps(h, key, t, b, s.bucket);
      ReplaceIsStep(h, key, t.(tried := t.tried[b := s.bucket]), b, s.pos, id, origin, dest);
    }
  }

  // The tables after a success: the entry is updated, and moved to the tried table if it was new.
  ghost predicate GoodTables(h: Hashing, key: Bytes, t: Tables, svc: Service, time: int, t': Tables) {
    if svc.net !in t.idOf || t.idOf[svc.net] !in t.entries || t.entries[t.idOf[svc.net]].addr.svc != svc then t' == t
    else
      var id := t.idOf[svc.net];
      var t1 := Recorded(t, id, SucceededEntry(t.entries[id], time));
      if t.entries[id].inTried then t' == t1
      else exists origin :: MoveReady(h, key, t1, origin, id) && Moved(h, key, t1, origin, id, t')
  }

  // A known new id is in some bucket.
  lemma SomeBucket(h: Hashing, key: Bytes, t: Tables, id: int) returns (c: nat)
    requires Inv(h, key, t, NONE) && id in t.entries && !t.entries[id].inTried
    ensures c < |t.news| && |t.news| == NEW_BUCKET_COUNT && id in t.news[c]
  {
    assert BucketsOf(t.news, id) != {};
    c := AnyOf(BucketsOf(t.news, id));
  }

  // The entry after a successful connection, a connection attempt, a finished connection.
  function SucceededEntry(e: Entry, time: int): Entry {
    e.(addr := e.addr.(lastTry := time, time := ToUint32(time)), lastSuccess := time, attempts := 0)
  }

  function AttemptedEntry(e: Entry, time: int): Entry {
    e.(addr := e.addr.(lastTry := time), attempts := e.attempts + 1)
  }

  function ConnectedEntry(e: Entry, time: int): Entry {
    if time - e.addr.time > 20 * 60 then e.(addr := e.addr.(time := ToUint32(time))) else e
  }

  lemma FindFacts(h: Hashing, key: Bytes, t: Tables, net: NetAddr)
    requires Inv(h, key, t, NONE)
    ensures net in t.idOf <==> net in View(t)
    ensures net in t.idOf ==>
              && t.idOf[net] in t.entries && t.entries[t.idOf[net]].Net() == net
              && View(t)[net] == KnownAs(t, t.idOf[net]) && EntryOk(t.entries[t.idOf[net]])
              && t.idOf[net] != NONE
  {
  }

  lemma RecordIsUpdate(h: Hashing, key: Bytes, t: Tables, id: int, e: Entry)
    requires Inv(h, key, t, NONE) && id in t.entries && EntryOk(e)
    requires e == t.entries[id].(addr := e.addr, lastSuccess := e.lastSuccess, attempts := e.attempts)
    requires e.addr.svc == t.entries[id].addr.svc
    ensures Inv(h, key, Recorded(t, id, e), NONE)
    ensures e.Net() in View(t)
    ensures View(Recorded(t, id, e)) ==
            View(t)[e.Net() := View(t)[e.Net()].(addr := e.addr, lastSuccess := e.lastSuccess, attempts := e.attempts)]
  {
    RecordKeeps(h, key, t, id, e, NONE);
    ViewAt(t, id);
  }

  // ----- one more reference, seen on the book

  // id is one reference ahead and not in bucket b; what placing it there relies on.
  ghost predicate PlaceReady(t: Tables, b: int, id: int) {
    && 0 <= b < |t.news| && |t.news[b]| <= NEW_BUCKET_SIZE
    && id in t.entries && !t.entries[id].inTried && id !in t.news[b]
    && forall x :: x in t.news[b] ==> x != NONE && MayUnref(t, b, x)
  }

  lemma AheadPlaceReady(h: Hashing, key: Bytes, t: Tables, b: int, id: int)
    requires Inv(h, key, t, id) && id in t.entries && !t.entries[id].inTried
    requires 0 <= b < |t.news| && id !in t.news[b]
    ensures PlaceReady(t, b, id)
  {
    assert NewBucketOk(t.entries, t.news[b]);
    forall x | x in t.news[b] ensures x != NONE && MayUnref(t, b, x) {
      MemberMayUnref(h, key, t, b, x, id);
    }
  }

  lemma PlaceDirect(h: Hashing, key: Bytes, t: Tables, b: int, id: int, clock: Clock)
    requires Inv(h, key, t, id) && PlaceReady(t, b, id) && |t.news[b]| < NEW_BUCKET_SIZE
    ensures Inv(h, key, Inserted(t, b, id), NONE)
    ensures t.entries[id].Net() in View(t) && View(t)[t.entries[id].Net()].place.New?
    ensures PlaceStep(View(t), t.entries[id].Net(), b, clock, View(Inserted(t, b, id)))
  {
    InsertKeeps(h, key, t, b, id);
    NewInCount(t, b) by { assert NewBucketOk(t.entries, t.news[b]); }
  }

  // The lowest id that is terrible goes; only when none is, another one.
  ghost predicate MayShrink(t: Tables, b: int, victim: int, clock: Clock)
    requires 0 <= b < |t.news| && forall id :: id in t.news[b] ==> id in t.entries
  {
    && victim in t.news[b]
    && if IsTerrible(t.entries[victim], clock)
       then forall id :: id in t.news[b] && id < victim ==> !IsTerrible(t.entries[id], clock)
       else forall id :: id in t.news[b] ==> !IsTerrible(t.entries[id], clock)
  }

  lemma ShrinkDrops(t: Tables, b: int, victim: int, clock: Clock)
    requires Indexed(t.entries, t.idOf) && 0 <= b < |t.news| && NewBucketOk(t.entries, t.news[b])
    requires MayShrink(t, b, victim, clock)
    ensures MayDrop(View(t), b, t.entries[victim].Net(), clock)
  {
    NewInCount(t, b);
    ViewAt(t, victim);
    forall x | x in NewIn(View(t), b) && !IsTerrible(t.entries[victim], clock) ensures !Terrible(View(t), x, clock) {
      var id :| id in t.news[b] && id in t.entries && t.entries[id].Net() == x;
      ViewAt(t, id);
    }
  }

  lemma PlaceAfterUnref(h: Hashing, key: Bytes, t: Tables, b: int, id: int, victim: int, clock: Clock)
    requires Inv(h, key, t, id) && PlaceReady(t, b, id) && |t.news[b]| == NEW_BUCKET_SIZE
    requires MayShrink(t, b, victim, clock)
    ensures MayUnref(t, b, victim) && |Unref(t, b, victim).news| == |t.news|
    ensures Inv(h, key, Inserted(Unref(t, b, victim), b, id), NONE)
    ensures t.entries[id].Net() in View(t) && View(t)[t.entries[id].Net()].place.New?
    ensures PlaceStep(View(t), t.entries[id].Net(), b, clock, View(Inserted(Unref(t, b, victim), b, id)))
  {
    hide Inv, View, Dropped, Placed, BucketsOf, MayDrop, IsTerrible;
    ShrinkDrops(t, b, victim, clock) by { InvShrink(h, key, t, b, id); }
    UnrefKeeps(h, key, t, b, victim, id);
    UnrefOthers(t, b, victim, id);
    UnrefBucket(t, b, victim);
    var t1 := Unref(t, b, victim);
    hide Unref;
    InsertKeeps(h, key, t1, b, id);
    AheadInView(h, key, t, b, id);
    VictimInView(h, key, t, b, victim, id);
    var a, x := t.entries[id].Net(), t.entries[victim].Net();
    assert View(Inserted(t1, b, id)) == Placed(Dropped(View(t), x, b), a, b);
  }

  lemma InvShrink(h: Hashing, key: Bytes, t: Tables, b: int, ahead: int)
    requires Inv(h, key, t, ahead) && 0 <= b < |t.news|
    ensures Indexed(t.entries, t.idOf) && NewBucketOk(t.entries, t.news[b])
  {
  }

  lemma UnrefBucket(t: Tables, b: int, id: int)
    requires MayUnref(t, b, id)
    ensures Unref(t, b, id).news == t.news[b := t.news[b] - {id}]
  {
  }

  lemma AheadInView(h: Hashing, key: Bytes, t: Tables, b: int, id: int)
    requires Inv(h, key, t, id) && PlaceReady(t, b, id)
    ensures t.entries[id].Net() in View(t) && View(t)[t.entries[id].Net()].place.New?
    ensures b !in View(t)[t.entries[id].Net()].place.buckets
    ensures |NewIn(View(t), b)| == |t.news[b]|
  {
    ViewAt(t, id);
    NewInCount(t, b) by { assert NewBucketOk(t.entries, t.news[b]); }
  }

  lemma VictimInView(h: Hashing, key: Bytes, t: Tables, b: int, victim: int, ahead: int)
    requires Inv(h, key, t, ahead) && 0 <= b < |t.news| && victim in t.news[b]
    ensures victim in t.entries && t.entries[victim].Net() in NewIn(View(t), b)
  {
    assert NewBucketOk(t.entries, t.news[b]);
    ViewAt(t, victim);
    assert b in BucketsOf(t.news, victim);
  }

  // The entry after its address was announced again.
  function ReannouncedEntry(e: Entry, addr: Address, penalty: int, now: int): Entry {
    e.(addr := e.addr.(time := ReannouncedTime(e.addr.time, addr, penalty, now),
                       services := e.addr.services + addr.services))
  }

  // The first entry for an address, its reference already counted.
  function FirstEntry(addr: Address, source: NetAddr, penalty: int, pos: nat): Entry {
    Entry(FirstSeen(addr, source, penalty).addr, source, 0, 0, 1, false, pos)
  }

  lemma FirstEntryKeeps(h: Hashing, key: Bytes, t: Tables, addr: Address, source: NetAddr, penalty: int)
    requires Inv(h, key, t, NONE) && addr.svc.net !in t.idOf
    ensures var x := FirstEntry(addr, source, penalty, |t.order|);
            && Inv(h, key, Entered(t, x), t.nextId)
            && View(Entered(t, x)) == View(t)[addr.svc.net := FirstSeen(addr, source, penalty)]
    ensures |t.news| == NEW_BUCKET_COUNT
    ensures t.nextId !in t.entries && 0 <= t.nextId && forall c :: 0 <= c < |t.news| ==> t.nextId !in t.news[c]
  {
    var x := FirstEntry(addr, source, penalty, |t.order|);
    EnterKeeps(h, key, t, x);
    assert t.nextId !in t.entries;
    forall c | 0 <= c < |t.news| ensures t.nextId !in t.news[c] {
      assert NewBucketOk(t.entries, t.news[c]);
    }
  }

  // Book and tables agree on whether, and where, one more reference may be added.
  lemma ReferenceFacts(h: Hashing, key: Bytes, t: Tables, id: int, b: nat)
    requires Inv(h, key, t, NONE) && id in t.entries && b < NEW_BUCKET_COUNT
    ensures |t.news| == NEW_BUCKET_COUNT && t.entries[id].Net() in View(t)
    ensures View(t)[t.entries[id].Net()] == KnownAs(t, id)
    ensures View(t)[t.entries[id].Net()].place.New? <==> !t.entries[id].inTried
    ensures !t.entries[id].inTried ==>
              var buckets := View(t)[t.entries[id].Net()].place.buckets;
              && |buckets| == t.entries[id].refCount && 1 <= t.entries[id].refCount <= NEW_BUCKETS_PER_ADDRESS
              && (b in buckets <==> id in t.news[b])
  {
    ViewAt(t, id);
    assert id != NONE;
  }

  lemma ReannounceKeeps(h: Hashing, key: Bytes, t: Tables, id: int, addr: Address, penalty: int, now: int)
    requires Inv(h, key, t, NONE) && id in t.entries && t.entries[id].Net() == addr.svc.net
    ensures var t' := Recorded(t, id, ReannouncedEntry(t.entries[id], addr, penalty, now));
            && Inv(h, key, t', NONE) && addr.svc.net in View(t)
            && View(t') == View(t)[addr.svc.net := Reannounced(View(t)[addr.svc.net], addr, penalty, now)]
  {
    ReannounceIsUpdate(h, key, t, id, addr, penalty, now);
    RecordIsUpdate(h, key, t, id, ReannouncedEntry(t.entries[id], addr, penalty, now));
    ViewAt(t, id);
  }

  lemma ReannounceIsUpdate(h: Hashing, key: Bytes, t: Tables, id: int, addr: Address, penalty: int, now: int)
    requires Inv(h, key, t, NONE) && id in t.entries
    ensures EntryOk(ReannouncedEntry(t.entries[id], addr, penalty, now))
  {
  }

  // A draw for position n leaves the earlier draws alone.
  lemma DrawStep(t: Tables, n: nat, pos: nat, addrs: seq<Address>)
    requires n == |addrs| <= pos < |t.order| && t.order[n] in t.entries && t.order[pos] in t.entries
    requires forall i :: 0 <= i < n ==> t.order[i] in t.entries && addrs[i] == t.entries[t.order[i]].addr
    ensures var t' := Swapped(t, n, pos);
            && |t'.order| == |t.order| && t'.order[n] in t'.entries
            && forall i :: 0 <= i < n ==> t'.order[i] in t'.entries && addrs[i] == t'.entries[t'.order[i]].addr
  {
  }

  // Addresses read off the front of the order are known and pairwise different.
  lemma DrawnDistinct(h: Hashing, key: Bytes, t: Tables, addrs: seq<Address>)
    requires Inv(h, key, t, NONE) && |addrs| <= |t.order|
    requires forall i :: 0 <= i < |addrs| ==> t.order[i] in t.entries && addrs[i] == t.entries[t.order[i]].addr
    ensures forall i :: 0 <= i < |addrs| ==>
              addrs[i].svc.net in View(t) && addrs[i] == View(t)[addrs[i].svc.net].addr
    ensures forall i, j :: 0 <= i < j < |addrs| ==> addrs[i].svc.net != addrs[j].svc.net
  {
    forall i | 0 <= i < |addrs| ensures addrs[i].svc.net in View(t) && addrs[i] == View(t)[addrs[i].svc.net].addr {
      ViewAt(t, t.order[i]);
    }
    forall i, j | 0 <= i < j < |addrs| ensures addrs[i].svc.net != addrs[j].svc.net {
      assert t.entries[t.order[i]].pos == i && t.entries[t.order[j]].pos == j;
      assert t.idOf[addrs[i].svc.net] == t.order[i] && t.idOf[addrs[j].svc.net] == t.order[j];
    }
  }

  // Tables that satisfy the invariant stand for a well-formed book.
  lemma ViewOk(h: Hashing, key: Bytes, t: Tables)
    requires Inv(h, key, t, NONE)
    ensures BookOk(h, key, View(t))
  {
    var v := View(t);
    forall a | a in v ensures KnownOk(a, v[a]) {
      var id := t.idOf[a];
      assert id in t.entries;
    }
    forall b: nat ensures |TriedIn(h, key, v, b)| <= TRIED_BUCKET_SIZE {
      if b < TRIED_BUCKET_COUNT {
        TriedInCount(h, key, t, b);
        assert TriedBucketOk(h, key, t.entries, b, t.tried[b]);
      } else {
        assert TriedIn(h, key, v, b) == {};
      }
    }
    forall b: nat ensures |NewIn(v, b)| <= NEW_BUCKET_SIZE {
      if b < NEW_BUCKET_COUNT {
        assert NewBucketOk(t.entries, t.news[b]);
        NewInCount(t, b);
      } else {
        assert NewIn(v, b) == {} by {
          forall a | a in v ensures a !in NewIn(v, b) {
            assert b !in BucketsOf(t.news, t.idOf[a]);
          }
        }
      }
    }
  }

  // One book entry for each id.
  lemma ViewSize(h: Hashing, key: Bytes, t: Tables, ahead: int)
    requires Inv(h, key, t, ahead)
    ensures |View(t)| == |t.entries| == |t.order| == t.triedCount + t.newCount
  {
    ViewKeys(t);
    OrderSize(t.entries, t.order);
    assert TriedIds(t.entries) + NewIds(t.entries) == t.entries.Keys;
    assert TriedIds(t.entries) !! NewIds(t.entries);
    assert |t.entries| == |t.entries.Keys|;
  }

  lemma ViewKeys(t: Tables)
    requires Indexed(t.entries, t.idOf)
    ensures View(t).Keys == NetsOf(t.entries, t.entries.Keys)
    ensures |View(t)| == |t.entries|
  {
    forall a ensures a in View(t).Keys <==> a in NetsOf(t.entries, t.entries.Keys) {
      if a in View(t).Keys { assert t.idOf[a] in t.entries; }
    }
    NetsCount(t.entries, t.idOf, t.entries.Keys);
    assert |View(t)| == |View(t).Keys|;
    assert |t.entries| == |t.entries.Keys|;
  }

  lemma OrderSize(entries: Entries, order: seq<int>)
    requires Ordered(entries, order)
    ensures |order| == |entries.Keys|
  {
    forall i, j | 0 <= i < j < |order| ensures order[i] != order[j] {
      assert entries[order[i]].pos == i && entries[order[j]].pos == j;
    }
    DistinctSize(order);
    assert (set x | x in order) == entries.Keys by {
      forall x ensures x in order <==> x in entries {
        if x in entries { assert order[entries[x].pos] == x; }
      }
    }
  }
}
