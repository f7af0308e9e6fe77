/** The write-back sector cache of src/block/hd.c. */
module SectorCache {
  import opened Numbers

  /** A sector of a drive, the key of the cache. */
  datatype Sector = Sector(dev: nat, lba: nat)

  datatype Entry = Entry(key: Sector, data: seq<Byte>, dirty: bool)

  type Disk = map<Sector, seq<Byte>>

  const BUCKETS: nat := 256
  const LL_DEPTH: nat := 5

  // ---------- one bucket ----------

  /** The position of `k` in the list, or its length (lines 141-158). */
  function Find(b: seq<Entry>, k: Sector): (i: nat)
    ensures i <= |b|
    ensures i < |b| ==> b[i].key == k
    ensures forall j :: 0 <= j < i ==> b[j].key != k
  {
    if b == [] then 0 else if b[0].key == k then 0 else 1 + Find(b[1..], k)
  }

  predicate Has(b: seq<Entry>, k: Sector) { Find(b, k) < |b| }

  /** The logical contents of a sector: the cached data if present, else the disk. */
  function Seen(b: seq<Entry>, disk: Disk, k: Sector): seq<Byte>
    requires k in disk
  {
    if Has(b, k) then b[Find(b, k)].data else disk[k]
  }

  /** The sectors of a list, oldest first. */
  function Keys(b: seq<Entry>): (s: seq<Sector>)
    ensures |s| == |b| && forall i :: 0 <= i < |b| ==> s[i] == b[i].key
  {
    seq(|b|, i requires 0 <= i < |b| => b[i].key)
  }

  lemma HasKey(b: seq<Entry>, k: Sector)
    ensures Has(b, k) <==> k in Keys(b)
  {
    if k in Keys(b) {
      var i :| 0 <= i < |b| && Keys(b)[i] == k;
      assert b[i].key == k;
    }
    if Has(b, k) { assert Keys(b)[Find(b, k)] == k; }
  }

  /** Lines 116-137: what a list of sectors becomes when `k` is added to it. */
  function WithKey(s: seq<Sector>, k: Sector): seq<Sector> {
    if k in s then s else (if |s| > LL_DEPTH then s[1..] else s) + [k]
  }

  /** The sector is cached afterwards.  All others stay while there are at most five, and of six the oldest goes. */
  lemma WithKeyIs(s: seq<Sector>, k: Sector)
    ensures k in WithKey(s, k) && (k in s ==> WithKey(s, k) == s)
    ensures k !in s ==> WithKey(s, k)[|WithKey(s, k)| - 1] == k
    ensures k !in s && |s| <= 5 ==> |WithKey(s, k)| == |s| + 1 && forall i :: 0 <= i < |s| ==> WithKey(s, k)[i] == s[i]
    ensures k !in s && |s| > 5 ==> |WithKey(s, k)| == |s| && forall i :: 0 < i < |s| ==> WithKey(s, k)[i - 1] == s[i]
  {
  }

  /** The same sectors are cached, in the same order. */
  ghost predicate SameKeys(t: seq<seq<Entry>>, t': seq<seq<Entry>>) {
    |t'| == |t| && forall i :: 0 <= i < |t| ==> Keys(t'[i]) == Keys(t[i])
  }

  lemma SameKeysHas(t: seq<seq<Entry>>, t': seq<seq<Entry>>, i: nat, k: Sector)
    requires SameKeys(t, t') && i < |t|
    ensures Has(t'[i], k) <==> Has(t[i], k)
  {
    HasKey(t[i], k);
    HasKey(t'[i], k);
  }

  lemma ReplacedKeys(t: seq<seq<Entry>>, i: nat, j: nat, e: Entry)
    requires i < |t| && j < |t[i]| && t[i][j].key == e.key
    ensures SameKeys(t, t[i := t[i][j := e]])
  {
    assert Keys(t[i][j := e]) == Keys(t[i]);
  }

  /** Only bucket `i` has another list of sectors, namely `s`. */
  ghost predicate KeysBut(t: seq<seq<Entry>>, t': seq<seq<Entry>>, i: nat, s: seq<Sector>) {
    i < |t| == |t'| && Keys(t'[i]) == s && forall x :: 0 <= x < |t| && x != i ==> Keys(t'[x]) == Keys(t[x])
  }

  lemma PushedKeys(t: seq<seq<Entry>>, i: nat, e: Entry)
    requires i < |t|
    ensures KeysBut(t, t[i := t[i] + [e]], i, Keys(t[i]) + [e.key])
  {
    assert Keys(t[i] + [e]) == Keys(t[i]) + [e.key];
  }

  lemma ShiftedKeys(t: seq<seq<Entry>>, i: nat, e: Entry)
    requires i < |t| && t[i] != []
    ensures var t1 := t[i := t[i] + [e]]; KeysBut(t, t1[i := t1[i][1..]], i, Keys(t[i])[1..] + [e.key])
  {
    assert Keys((t[i] + [e])[1..]) == Keys(t[i])[1..] + [e.key];
  }

  ghost predicate Unique(b: seq<Entry>) {
    forall i, j :: 0 <= i < j < |b| ==> b[i].key != b[j].key
  }

  /** Each entry is for a sector of the disk and has its size; a clean entry equals the disk. */
  ghost predicate EntryOk(e: Entry, disk: Disk) {
    e.key in disk && |e.data| == |disk[e.key]| && (!e.dirty ==> e.data == disk[e.key])
  }

  ghost predicate BucketOk(b: seq<Entry>, disk: Disk) {
    Unique(b) && forall i :: 0 <= i < |b| ==> EntryOk(b[i], disk)
  }

  lemma FindIs(b: seq<Entry>, i: nat)
    requires Unique(b) && i < |b|
    ensures Find(b, b[i].key) == i
  {
    var f := Find(b, b[i].key);
  }

  /** Writing a dirty entry back changes the disk only where the entry hides it. */
  function WrittenBack(e: Entry, disk: Disk): Disk {
    if e.dirty then disk[e.key := e.data] else disk
  }

  // ---------- the table of buckets ----------

  ghost predicate BucketValid(hash: Sector -> nat, i: nat, b: seq<Entry>, disk: Disk) {
    BucketOk(b, disk) && forall j :: 0 <= j < |b| ==> hash(b[j].key) == i
  }

  ghost predicate TableOk(hash: Sector -> nat, t: seq<seq<Entry>>, disk: Disk) {
    && |t| == BUCKETS
    && (forall k :: hash(k) < BUCKETS)
    && forall i :: 0 <= i < BUCKETS ==> BucketValid(hash, i, t[i], disk)
  }

  /** What every reader of the cache sees. */
  ghost function View(hash: Sector -> nat, t: seq<seq<Entry>>, disk: Disk): (m: Disk)
    requires TableOk(hash, t, disk)
    ensures m.Keys == disk.Keys
  {
    map k | k in disk :: Seen(t[hash(k)], disk, k)
  }

  /** `view` is what every reader sees, sector by sector. */
  ghost predicate IsView(hash: Sector -> nat, t: seq<seq<Entry>>, disk: Disk, view: Disk) {
    forall k: Sector :: ShownAt(hash, t, disk, view, k)
  }

  ghost predicate ShownAt(hash: Sector -> nat, t: seq<seq<Entry>>, disk: Disk, view: Disk, k: Sector) {
    (k in view <==> k in disk) && (k in view && hash(k) < |t| ==> view[k] == Seen(t[hash(k)], disk, k))
  }

  lemma ViewIs(hash: Sector -> nat, t: seq<seq<Entry>>, disk: Disk, view: Disk)
    requires TableOk(hash, t, disk)
    ensures IsView(hash, t, disk, view) <==> view == View(hash, t, disk)
  {
    if IsView(hash, t, disk, view) {
      forall k: Sector ensures k in view <==> k in View(hash, t, disk) { assert ShownAt(hash, t, disk, view, k); }
      forall k: Sector | k in view ensures view[k] == View(hash, t, disk)[k] {
        assert ShownAt(hash, t, disk, view, k);
      }
    }
  }

  lemma OtherBucket(hash: Sector -> nat, i: nat, x: nat, b: seq<Entry>, disk: Disk, disk': Disk)
    requires BucketValid(hash, x, b, disk) && x != i && disk'.Keys == disk.Keys
    requires forall k :: k in disk && hash(k) != i ==> disk'[k] == disk[k]
    ensures BucketValid(hash, x, b, disk')
  {
    forall j | 0 <= j < |b| ensures EntryOk(b[j], disk') {
      assert EntryOk(b[j], disk) && hash(b[j].key) == x;
    }
  }

  /** One bucket and the part of the disk behind it change: the rest of the view stays. */
  lemma ChangeBucket(hash: Sector -> nat, t: seq<seq<Entry>>, disk: Disk, i: nat, b: seq<Entry>, disk': Disk,
    view: Disk)
    requires TableOk(hash, t, disk) && i < BUCKETS && disk'.Keys == disk.Keys && BucketValid(hash, i, b, disk')
    requires forall k :: k in disk && hash(k) != i ==> disk'[k] == disk[k]
    requires view.Keys == disk.Keys
    requires forall k :: k in disk ==> view[k] == if hash(k) == i then Seen(b, disk', k) else Seen(t[hash(k)], disk, k)
    ensures TableOk(hash, t[i := b], disk') && View(hash, t[i := b], disk') == view
  {
    var t' := t[i := b];
    forall x | 0 <= x < BUCKETS
      ensures BucketValid(hash, x, t'[x], disk')
    {
      assert BucketValid(hash, x, t[x], disk);
      if x != i { OtherBucket(hash, i, x, t[x], disk, disk'); }
    }
  }

  /** The same when the bucket shows what it showed before. */
  lemma ReshapeBucket(hash: Sector -> nat, t: seq<seq<Entry>>, disk: Disk, i: nat, b: seq<Entry>, disk': Disk)
    requires TableOk(hash, t, disk) && i < BUCKETS && disk'.Keys == disk.Keys && BucketValid(hash, i, b, disk')
    requires forall k :: k in disk && hash(k) != i ==> disk'[k] == disk[k]
    requires forall k :: k in disk && hash(k) == i ==> Seen(b, disk', k) == Seen(t[i], disk, k)
    ensures TableOk(hash, t[i := b], disk') && View(hash, t[i := b], disk') == View(hash, t, disk)
  {
    ChangeBucket(hash, t, disk, i, b, disk', View(hash, t, disk));
  }

  lemma FlushSeen(b: seq<Entry>, disk: Disk, j: nat, k: Sector)
    requires Unique(b) && j < |b| && b[j].key in disk && k in disk
    ensures Seen(b[j := b[j].(dirty := false)], WrittenBack(b[j], disk), k) == Seen(b, disk, k)
  {
    SameKeysFind(b, b[j := b[j].(dirty := false)], k);
    if k == b[j].key { FindIs(b, j); }
  }

  lemma FlushOk(b: seq<Entry>, disk: Disk, j: nat)
    requires BucketOk(b, disk) && j < |b|
    ensures BucketOk(b[j := b[j].(dirty := false)], WrittenBack(b[j], disk)) && b[j].key in disk
  {
    var b', disk' := b[j := b[j].(dirty := false)], WrittenBack(b[j], disk);
    forall x | 0 <= x < |b'| ensures EntryOk(b'[x], disk') {
      assert EntryOk(b[x], disk);
    }
  }

  /** Flushing an entry keeps its bucket in order and hides nothing new. */
  lemma FlushInBucket(hash: Sector -> nat, i: nat, b: seq<Entry>, disk: Disk, j: nat)
    requires BucketValid(hash, i, b, disk) && j < |b|
    ensures var b', disk' := b[j := b[j].(dirty := false)], WrittenBack(b[j], disk);
      && BucketValid(hash, i, b', disk') && disk'.Keys == disk.Keys
      && forall k :: k in disk ==> Seen(b', disk', k) == Seen(b, disk, k)
  {
    FlushOk(b, disk, j);
    forall k | k in disk
      ensures Seen(b[j := b[j].(dirty := false)], WrittenBack(b[j], disk), k) == Seen(b, disk, k)
    {
      FlushSeen(b, disk, j, k);
    }
  }

  function Cleaned(t: seq<seq<Entry>>, i: nat, j: nat): seq<seq<Entry>>
    requires i < |t| && j < |t[i]|
  {
    t[i := t[i][j := t[i][j].(dirty := false)]]
  }

  lemma CleanAlready(t: seq<seq<Entry>>, i: nat, j: nat)
    requires i < |t| && j < |t[i]| && !t[i][j].dirty
    ensures Cleaned(t, i, j) == t
  {
    assert t[i][j := t[i][j].(dirty := false)] == t[i];
  }

  lemma FlushView(hash: Sector -> nat, t: seq<seq<Entry>>, disk: Disk, i: nat, j: nat)
    requires TableOk(hash, t, disk) && i < BUCKETS && j < |t[i]|
    ensures TableOk(hash, Cleaned(t, i, j), WrittenBack(t[i][j], disk))
    ensures View(hash, Cleaned(t, i, j), WrittenBack(t[i][j], disk)) == View(hash, t, disk)
    ensures !t[i][j].dirty ==> Cleaned(t, i, j) == t
  {
    var b, b', d' := t[i], t[i][j := t[i][j].(dirty := false)], WrittenBack(t[i][j], disk);
    assert BucketValid(hash, i, b, disk);
    FlushInBucket(hash, i, b, disk, j);
    assert hash(b[j].key) == i;
    ReshapeBucket(hash, t, disk, i, b', d');
    if !t[i][j].dirty { CleanAlready(t, i, j); }
  }

  lemma {:induction false} SameKeysFind(b: seq<Entry>, c: seq<Entry>, k: Sector)
    requires |b| == |c| && forall i :: 0 <= i < |b| ==> b[i].key == c[i].key
    ensures Find(b, k) == Find(c, k)
  {
    if b != [] { SameKeysFind(b[1..], c[1..], k); }
  }

  lemma {:induction false} FindAppend(b: seq<Entry>, e: Entry, k: Sector)
    ensures Find(b + [e], k) == if Has(b, k) then Find(b, k) else if e.key == k then |b| else |b| + 1
  {
    if b == [] {
      assert [] + [e] == [e];
      assert [e][1..] == [];
    } else {
      assert (b + [e])[1..] == b[1..] + [e];
      FindAppend(b[1..], e, k);
    }
  }

  /** A sector that is not cached becomes cached, with the given contents. */
  lemma AppendView(hash: Sector -> nat, t: seq<seq<Entry>>, disk: Disk, e: Entry)
    requires TableOk(hash, t, disk) && EntryOk(e, disk) && hash(e.key) < BUCKETS
    requires !Has(t[hash(e.key)], e.key)
    ensures var i := hash(e.key);
      && TableOk(hash, t[i := t[i] + [e]], disk)
      && View(hash, t[i := t[i] + [e]], disk) == View(hash, t, disk)[e.key := e.data]
  {
    var i := hash(e.key);
    var b := t[i];
    assert BucketValid(hash, i, b, disk);
    forall j | 0 <= j < |b| ensures b[j].key != e.key && EntryOk(b[j], disk) {}
    assert BucketValid(hash, i, b + [e], disk);
    forall k | k in disk && hash(k) == i
      ensures Seen(b + [e], disk, k) == if k == e.key then e.data else Seen(b, disk, k)
    {
      FindAppend(b, e, k);
    }
    ChangeBucket(hash, t, disk, i, b + [e], disk, View(hash, t, disk)[e.key := e.data]);
  }

  /** Dropping a clean first entry changes no contents: the disk has them. */
  lemma DropView(hash: Sector -> nat, t: seq<seq<Entry>>, disk: Disk, i: nat)
    requires TableOk(hash, t, disk) && i < BUCKETS && t[i] != [] && !t[i][0].dirty
    ensures TableOk(hash, t[i := t[i][1..]], disk) && View(hash, t[i := t[i][1..]], disk) == View(hash, t, disk)
  {
    var b := t[i];
    var b' := b[1..];
    assert BucketValid(hash, i, b, disk) && EntryOk(b[0], disk);
    forall j | 0 <= j < |b'| ensures b'[j] == b[j + 1] && EntryOk(b'[j], disk) && b'[j].key != b[0].key {}
    assert BucketValid(hash, i, b', disk);
    forall k | k in disk && hash(k) == i
      ensures Seen(b', disk, k) == Seen(b, disk, k)
    {
    }
    ReshapeBucket(hash, t, disk, i, b', disk);
  }

  lemma FindTail(b: seq<Entry>, k: Sector)
    requires b != [] && b[0].key != k
    ensures Find(b, k) == 1 + Find(b[1..], k) && Has(b, k) == Has(b[1..], k)
  {
  }

  /** New contents for a cached sector. */
  lemma ReplaceInBucket(hash: Sector -> nat, i: nat, b: seq<Entry>, disk: Disk, j: nat, e: Entry)
    requires BucketValid(hash, i, b, disk) && j < |b| && e.key == b[j].key && EntryOk(e, disk)
    ensures BucketValid(hash, i, b[j := e], disk) && Has(b[j := e], e.key)
    ensures forall k :: k in disk && hash(k) == i ==>
      Seen(b[j := e], disk, k) == if k == e.key then e.data else Seen(b, disk, k)
  {
    var b' := b[j := e];
    forall x | 0 <= x < |b'| ensures b'[x].key == b[x].key && EntryOk(b'[x], disk) {}
    FindIs(b', j);
    forall k | k in disk && hash(k) == i
      ensures Seen(b', disk, k) == if k == e.key then e.data else Seen(b, disk, k)
    {
      SameKeysFind(b, b', k);
    }
  }

  lemma ReplaceView(hash: Sector -> nat, t: seq<seq<Entry>>, disk: Disk, i: nat, j: nat, e: Entry)
    requires TableOk(hash, t, disk) && i < BUCKETS && j < |t[i]| && e.key == t[i][j].key && EntryOk(e, disk)
    ensures TableOk(hash, t[i := t[i][j := e]], disk)
    ensures View(hash, t[i := t[i][j := e]], disk) == View(hash, t, disk)[e.key := e.data]
    ensures Has(t[i][j := e], e.key)
  {
    var b, b' := t[i], t[i][j := e];
    assert BucketValid(hash, i, b, disk);
    ReplaceInBucket(hash, i, b, disk, j, e);
    ChangeBucket(hash, t, disk, i, b', disk, View(hash, t, disk)[e.key := e.data]);
  }

  ghost predicate AllClean(b: seq<Entry>) {
    forall j :: 0 <= j < |b| ==> !b[j].dirty
  }

  lemma AllCleanView(hash: Sector -> nat, t: seq<seq<Entry>>, disk: Disk)
    requires TableOk(hash, t, disk) && forall i :: 0 <= i < BUCKETS ==> AllClean(t[i])
    ensures View(hash, t, disk) == disk
  {
    forall k | k in disk ensures Seen(t[hash(k)], disk, k) == disk[k] {
      assert BucketValid(hash, hash(k), t[hash(k)], disk) && AllClean(t[hash(k)]);
      if Has(t[hash(k)], k) { assert EntryOk(t[hash(k)][Find(t[hash(k)], k)], disk); }
    }
  }

  /** Only write-backs reach the disk: a sector changes there, if at all, to its logical contents. */
  ghost predicate OnlyWriteBacks(before: Disk, after: Disk, view: Disk) {
    before.Keys == after.Keys == view.Keys && forall k :: k in before ==> after[k] == before[k] || after[k] == view[k]
  }

  /** The same, except for sector `k`. */
  ghost predicate SyncedElsewhere(before: Disk, after: Disk, view: Disk, k: Sector) {
    before.Keys == after.Keys == view.Keys
    && forall x :: x in before && x != k ==> after[x] == before[x] || after[x] == view[x]
  }

  lemma WriteBackSeen(hash: Sector -> nat, t: seq<seq<Entry>>, disk: Disk, i: nat, j: nat)
    requires TableOk(hash, t, disk) && i < BUCKETS && j < |t[i]|
    ensures OnlyWriteBacks(disk, WrittenBack(t[i][j], disk), View(hash, t, disk))
  {
    assert BucketValid(hash, i, t[i], disk) && EntryOk(t[i][j], disk);
    FindIs(t[i], j);
  }

  /** Writing a sector that is not cached straight to the drive. */
  lemma DirectView(hash: Sector -> nat, t: seq<seq<Entry>>, disk: Disk, k: Sector, block: seq<Byte>)
    requires TableOk(hash, t, disk) && k in disk && |block| == |disk[k]| && hash(k) < BUCKETS && !Has(t[hash(k)], k)
    ensures TableOk(hash, t, disk[k := block])
    ensures View(hash, t, disk[k := block]) == View(hash, t, disk)[k := block]
  {
    forall i | 0 <= i < BUCKETS ensures BucketValid(hash, i, t[i], disk[k := block]) {
      DirectBucket(hash, i, t[i], disk, k, block);
    }
    var v, w := View(hash, t, disk[k := block]), View(hash, t, disk)[k := block];
    forall x | x in disk ensures v[x] == w[x] {}
  }

  lemma DirectBucket(hash: Sector -> nat, i: nat, b: seq<Entry>, disk: Disk, k: Sector, block: seq<Byte>)
    requires BucketValid(hash, i, b, disk) && k in disk && |block| == |disk[k]| && (hash(k) == i ==> !Has(b, k))
    ensures BucketValid(hash, i, b, disk[k := block])
  {
    forall j | 0 <= j < |b| ensures EntryOk(b[j], disk[k := block]) {
      assert EntryOk(b[j], disk) && hash(b[j].key) == i;
    }
  }

  lemma EvictedElsewhere(disk: Disk, disk': Disk, view: Disk, e: Entry, victim: Entry)
    requires e.key in view && OnlyWriteBacks(disk, disk', view[e.key := e.data])
    requires disk' == WrittenBack(victim, disk) && victim.key != e.key
    ensures OnlyWriteBacks(disk, disk', view)
  {
  }

  ghost predicate Short(t: seq<seq<Entry>>) { forall i :: 0 <= i < |t| ==> |t[i]| <= LL_DEPTH + 1 }

  lemma ShortStill(t: seq<seq<Entry>>, i: nat, b: seq<Entry>)
    requires Short(t) && i < |t| && |b| <= LL_DEPTH + 1
    ensures Short(t[i := b])
  {
  }

  /** Bucket `i` has the same length and the other buckets are the same. */
  ghost predicate SameButBucket(t: seq<seq<Entry>>, t': seq<seq<Entry>>, i: nat) {
    && i < |t| == |t'| && |t'[i]| == |t[i]|
    && forall x :: 0 <= x < |t| && x != i ==> t'[x] == t[x]
  }

  lemma ShortTail(t: seq<seq<Entry>>, i: nat, e: Entry)
    requires Short(t) && i < |t|
    ensures var t' := t[i := t[i] + [e]]; Short(t'[i := t'[i][1..]])
  {
  }

  lemma Pushed(b: seq<Entry>, e: Entry)
    requires !Has(b, e.key)
    ensures var c := b + [e]; c[|c| - 1] == e && (b != [] ==> c[0].key != e.key)
  {
  }

  class Cache {
    const hash: Sector -> nat
    var buckets: seq<seq<Entry>>
    var disk: Disk

    ghost predicate Consistent()
      reads this
    {
      TableOk(hash, buckets, disk)
    }

    /** Between calls a bucket holds at most six entries. */
    ghost predicate Valid()
      reads this
    {
      Consistent() && Short(buckets)
    }

    /** The logical contents of every sector. */
    ghost function Logical(): (m: Disk)
      requires Consistent()
      reads this
      ensures m.Keys == disk.Keys
    {
      View(hash, buckets, disk)
    }

    ghost predicate Cached(k: Sector)
      requires Valid()
      reads this
    {
      Has(buckets[hash(k)], k)
    }

    constructor (h: Sector -> nat, d: Disk)
      requires forall k :: h(k) < BUCKETS
      ensures Valid() && hash == h && disk == d && Logical() == d
    {
      hash, disk := h, d;
      buckets := seq(BUCKETS, _ => []);
    }

    /** Lines 60-73. */
    method FlushEntry(i: nat, j: nat)
      requires Consistent() && i < BUCKETS && j < |buckets[i]|
      modifies this
      ensures Consistent() && Logical() == old(Logical())
      ensures disk == old(WrittenBack(buckets[i][j], disk)) && buckets == old(Cleaned(buckets, i, j))
      ensures old(Short(buckets)) ==> Short(buckets)
      ensures SameKeys(old(buckets), buckets)
    {
      FlushView(hash, buckets, disk, i, j);
      ReplacedKeys(buckets, i, j, buckets[i][j].(dirty := false));
      var e := buckets[i][j];
      if e.dirty {
        var d, t := disk[e.key := e.data], buckets[i := buckets[i][j := e.(dirty := false)]];
        disk, buckets := d, t;
      }
    }

    method FlushBucket(i: nat)
      requires Valid() && i < BUCKETS
      modifies this
      ensures Valid() && Logical() == old(Logical()) && AllClean(buckets[i])
      ensures SameButBucket(old(buckets), buckets, i)
    {
      var j, n := 0, |buckets[i]|;
      ghost var v, t := Logical(), buckets;
      while j < n
        invariant j <= n && Consistent() && Logical() == v && SameButBucket(t, buckets, i)
        invariant forall x :: 0 <= x < j ==> !buckets[i][x].dirty
      {
        FlushEntry(i, j);
        j := j + 1;
      }
    }

    /** Lines 74-82: afterwards the disk holds the logical contents. */
    method Flush()
      requires Valid()
      modifies this
      ensures Valid() && Logical() == old(Logical()) && disk == Logical()
    {
      var i := 0;
      while i < BUCKETS
        invariant i <= BUCKETS && Valid() && Logical() == old(Logical())
        invariant forall x :: 0 <= x < i ==> AllClean(buckets[x])
      {
        FlushBucket(i);
        i := i + 1;
      }
      AllCleanView(hash, buckets, disk);
    }

    method Change(i: nat, j: nat, e: Entry)
      requires Valid() && i < BUCKETS && j < |buckets[i]| && buckets[i][j].key == e.key && EntryOk(e, disk)
      modifies this`buckets
      ensures Valid() && Logical() == old(Logical())[e.key := e.data]
      ensures buckets == old(buckets[i := buckets[i][j := e]]) && Has(buckets[i], e.key)
      ensures SameKeys(old(buckets), buckets)
    {
      ReplaceView(hash, buckets, disk, i, j, e);
      ReplacedKeys(buckets, i, j, e);
      ShortStill(buckets, i, buckets[i][j := e]);
      var t := buckets[i := buckets[i][j := e]];
      buckets := t;
    }

    /** Lines 102-113: the sector is cached already; write its old contents back and replace them. */
    method Overwrite(i: nat, j: nat, e: Entry)
      requires Valid() && i < BUCKETS && j < |buckets[i]| && buckets[i][j].key == e.key && EntryOk(e, disk)
      requires e.dirty || Logical()[e.key] == disk[e.key]
      modifies this
      ensures Valid() && Logical() == old(Logical())[e.key := e.data] && Has(buckets[i], e.key)
      ensures OnlyWriteBacks(old(disk), disk, old(Logical())) && SameKeys(old(buckets), buckets)
    {
      WriteBackSeen(hash, buckets, disk, i, j);
      FlushEntry(i, j);
      Change(i, j, e);
    }

    /** Lines 124-137: write the oldest entry of the bucket back and drop it. */
    method Evict(i: nat)
      requires Consistent() && i < BUCKETS && buckets[i] != []
      modifies this
      ensures Consistent() && Logical() == old(Logical())
      ensures buckets == old(buckets[i := buckets[i][1..]]) && disk == old(WrittenBack(buckets[i][0], disk))
      ensures OnlyWriteBacks(old(disk), disk, old(Logical()))
    {
      WriteBackSeen(hash, buckets, disk, i, 0);
      FlushEntry(i, 0);
      DropView(hash, buckets, disk, i);
      var t := buckets[i := buckets[i][1..]];
      buckets := t;
    }

    /** Lines 116-123. */
    method PushBack(i: nat, e: Entry)
      requires Consistent() && e.key in disk && hash(e.key) == i && EntryOk(e, disk) && !Has(buckets[i], e.key)
      modifies this`buckets
      ensures Consistent() && Logical() == old(Logical())[e.key := e.data] && Has(buckets[i], e.key)
      ensures buckets == old(buckets[i := buckets[i] + [e]])
    {
      AppendView(hash, buckets, disk, e);
      FindAppend(buckets[i], e, e.key);
      var t := buckets[i := buckets[i] + [e]];
      buckets := t;
    }

    /** Lines 124-137 after entry `e` was added to the contents `v`. */
    method EvictFor(i: nat, e: Entry, ghost v: Disk)
      requires Consistent() && i < BUCKETS && |buckets[i]| > 1 && buckets[i][|buckets[i]| - 1] == e
      requires e.key in v && Logical() == v[e.key := e.data] && buckets[i][0].key != e.key
      modifies this
      ensures Consistent() && Logical() == old(Logical()) && Has(buckets[i], e.key)
      ensures buckets == old(buckets[i := buckets[i][1..]])
      ensures OnlyWriteBacks(old(disk), disk, v)
    {
      ghost var b, d := buckets[i], disk;
      FindTail(b, e.key);
      Evict(i);
      EvictedElsewhere(d, disk, v, e, b[0]);
    }

    /** Lines 116-137. */
    method Append(i: nat, e: Entry)
      requires Valid() && e.key in disk && hash(e.key) == i && EntryOk(e, disk) && !Has(buckets[i], e.key)
      modifies this
      ensures Valid() && Logical() == old(Logical())[e.key := e.data] && Has(buckets[i], e.key)
      ensures OnlyWriteBacks(old(disk), disk, old(Logical()))
      ensures KeysBut(old(buckets), buckets, i, WithKey(Keys(old(buckets)[i]), e.key))
    {
      HasKey(buckets[i], e.key);
      if |buckets[i]| > LL_DEPTH {
        AppendFull(i, e);
      } else {
        ShortStill(buckets, i, buckets[i] + [e]);
        PushedKeys(buckets, i, e);
        PushBack(i, e);
      }
    }

    method AppendFull(i: nat, e: Entry)
      requires Valid() && e.key in disk && hash(e.key) == i && EntryOk(e, disk) && !Has(buckets[i], e.key)
      requires |buckets[i]| > LL_DEPTH
      modifies this
      ensures Valid() && Logical() == old(Logical())[e.key := e.data] && Has(buckets[i], e.key)
      ensures OnlyWriteBacks(old(disk), disk, old(Logical()))
      ensures KeysBut(old(buckets), buckets, i, Keys(old(buckets)[i])[1..] + [e.key])
    {
      ghost var v := Logical();
      ShiftedKeys(buckets, i, e);
      Pushed(buckets[i], e);
      ShortTail(buckets, i, e);
      PushBack(i, e);
      EvictFor(i, e, v);
    }

    /** Lines 84-139. */
    method Set(k: Sector, data: seq<Byte>, dirty: bool)
      requires Valid() && k in disk && |data| == |disk[k]|
      requires dirty || (data == disk[k] && Logical()[k] == disk[k])
      modifies this
      ensures Valid() && Logical() == old(Logical())[k := data] && Cached(k)
      ensures OnlyWriteBacks(old(disk), disk, old(Logical()))
      ensures KeysBut(old(buckets), buckets, hash(k), WithKey(Keys(old(buckets)[hash(k)]), k))
    {
      var i, e := hash(k), Entry(k, data, dirty);
      var len := 0;
      while len < |buckets[i]|
        invariant len <= |buckets[i]| && forall x :: 0 <= x < len ==> buckets[i][x].key != k
      {
        if buckets[i][len].key == k {
          assert Keys(buckets[i])[len] == k;
          Overwrite(i, len, e);
          return;
        }
        len := len + 1;
      }
      Append(i, e);
    }

    /** Lines 323-351: change the data of a cached sector in place and mark it dirty; with O_SYNC write
        it back at once. */
    method Store(k: Sector, data: seq<Byte>, sync: bool)
      requires Valid() && k in disk && Cached(k) && |data| == |disk[k]|
      modifies this
      ensures Valid() && Logical() == old(Logical())[k := data] && SameKeys(old(buckets), buckets)
      ensures disk == if sync then old(disk)[k := data] else old(disk)
    {
      var i := hash(k);
      var j := Find(buckets[i], k);
      var e := Entry(k, data, true);
      Change(i, j, e);
      if sync { FlushEntry(i, j); }
    }

    /** Lines 294-302. */
    method WriteDirect(k: Sector, block: seq<Byte>)
      requires Valid() && k in disk && !Cached(k) && |block| == |disk[k]|
      modifies this`disk
      ensures Valid() && Logical() == old(Logical())[k := block] && disk == old(disk)[k := block] && !Cached(k)
    {
      DirectView(hash, buckets, disk, k, block);
      var d := disk[k := block];
      disk := d;
    }

    /** Lines 284-306: a whole sector that is not cached is replaced without being read. */
    method StoreWhole(k: Sector, block: seq<Byte>, sync: bool)
      requires Valid() && k in disk && !Cached(k) && |block| == |disk[k]|
      modifies this
      ensures Valid() && Logical() == old(Logical())[k := block] && (sync ==> disk[k] == block)
      ensures SyncedElsewhere(old(disk), disk, old(Logical()), k)
    {
      if sync { StoreThrough(k, block); } else { Set(k, block, true); }
    }

    method StoreThrough(k: Sector, block: seq<Byte>)
      requires Valid() && k in disk && !Cached(k) && |block| == |disk[k]|
      modifies this
      ensures Valid() && Logical() == old(Logical())[k := block] && disk[k] == block
      ensures SyncedElsewhere(old(disk), disk, old(Logical()), k)
    {
      ghost var d, v := disk, Logical();
      WriteDirect(k, block);
      ghost var d1 := disk;
      Set(k, block, false);
      DirectElsewhere(d, d1, disk, v, k, block);
      PutTwice(v, k, block);
    }
  }

  lemma PutTwice(v: Disk, k: Sector, block: seq<Byte>)
    ensures v[k := block][k := block] == v[k := block]
  {
  }

  lemma DirectElsewhere(d: Disk, d1: Disk, d2: Disk, v: Disk, k: Sector, block: seq<Byte>)
    requires k in d && d1 == d[k := block] && d.Keys == v.Keys && OnlyWriteBacks(d1, d2, v[k := block])
    ensures SyncedElsewhere(d, d2, v, k) && d2[k] == block
  {
  }
}
